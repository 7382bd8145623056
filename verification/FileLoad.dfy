/** storage_load from the bytes of the two files (storage.c:195-302), and deaths inside a single
    disk step of the series store followed by such a load. */
module FileLoad {
  import opened Bytes
  import opened Words
  import opened Bitstream
  import opened TscCodec
  import opened TscBlock
  import opened DiskStore
  import opened DiskStorage
  import opened Payload
  import opened SeriesStore
  import opened SeriesOps
  import opened Reload
  import opened StoreCrashes
  import opened FileSteps
  import Journal

  // ----- what the blocks of the two files hold -----

  /** Data blocks whose buffers have n words. */
  ghost function DataContent(n: nat): Content<DataBlock>
  {
    (status: Byte, stored: seq<Byte>, b: DataBlock) => ShowsData(status, stored, n, b)
  }

  ghost predicate ShowsData(status: Byte, stored: seq<Byte>, n: nat, b: DataBlock)
  {
    && status == (if b.complete then VALID else ACTIVE) && b.id <= U64_MAX
    && exists ws, tail, rest :: StoredAs(stored, n, b.complete, b.id, b.pts, ws, tail, rest)
  }

  ghost function KeyContent(): Content<KeyBlock>
  {
    (status: Byte, stored: seq<Byte>, b: KeyBlock) => ShowsKey(status, stored, b)
  }

  ghost predicate ShowsKey(status: Byte, stored: seq<Byte>, b: KeyBlock)
  {
    status == VALID && |b.key| < 0x1_0000 && b.id <= U64_MAX && KeyBytes(b.key, b.id) <= stored
  }

  /** What a compressor writes presents its block. */
  lemma BlockPresents(id: nat, complete: bool, block: TscBlock, tail: seq<Byte>)
    requires block.Valid() && id <= U64_MAX
    ensures Presents(DataContent(block.words.Length), if complete then VALID else ACTIVE,
                     BlockBytes(id, complete, block, tail), DataBlock(complete, id, block.points))
  {
    hide Encode, Encodable, HeaderOf, Bits, DataBytes;
    var status, bytes, b := if complete then VALID else ACTIVE, BlockBytes(id, complete, block, tail), DataBlock(complete, id, block.points);
    forall rest ensures DataContent(block.words.Length)(status, bytes + rest, b) {
      assert StoredAs(bytes + rest, block.words.Length, complete, id, block.points, block.words[..], tail, rest);
    }
  }

  lemma KeyPresents(key: Key, id: nat)
    requires |key| < 0x1_0000 && id <= U64_MAX
    ensures Presents(KeyContent(), VALID, KeyBytes(key, id), KeyBlock(key, id))
  {
    hide KeyBytes;
  }

  // ----- reading them -----

  /** One data block from its bytes. */
  method DecodeData(status: Byte, stored: seq<Byte>, n: nat, ghost b: DataBlock) returns (r: DataBlock)
    requires ShowsData(status, stored, n, b) && 64 * n + 32 <= MAX_NUM_VALID_BITS
    ensures r == b
  {
    hide Encode, Encodable, HeaderOf, Bits, DataBytes;
    ghost var ws, tail, rest :| StoredAs(stored, n, b.complete, b.id, b.pts, ws, tail, rest);
    if status == VALID {
      var id, pts := ReadComplete(stored, n, b.pts, b.id, ws, tail, rest);
      r := DataBlock(true, id, pts);
    } else {
      var id, pts := ReadActivePoints(stored, n, b.pts, b.id, ws, tail, rest);
      r := DataBlock(false, id, pts);
    }
  }

  /** The points of an ACTIVE block, as its compressor would return them. */
  method ReadActivePoints(stored: seq<Byte>, n: nat, ghost ps: seq<Point>, ghost id: nat, ghost ws: seq<Word>,
                          ghost tail: seq<Byte>, ghost rest: seq<Byte>) returns (id': nat, out: seq<Point>)
    requires Encodable(ps) && Encode(ps) <= Bits(ws) && |ws| == n && 64 * n + 32 <= MAX_NUM_VALID_BITS && id <= U64_MAX
    requires stored == DataBytes(id, false, HeaderOf(ps), ws, tail) + rest
    ensures id' == id && out == ps
  {
    hide Encode, Encodable, HeaderOf, Bits;
    var dataLen := 8 * n + 4;
    var block := new TscBlock(dataLen, seq(n, i => Zero()));
    id' := ReadActive(block, stored, ps, id, ws, tail, rest);
    out := ReadBlock(block.numPts, block.words, ps);
  }

  /** Every live block of a file that represents these blocks is one of them. */
  lemma ScanShows<B>(main: File, offs: seq<nat>, P: Content<B>, blocks: map<nat, B>, ls: seq<Live>)
    requires Represents(main, offs, P, blocks) && Lists(main, offs, ls)
    ensures forall i :: 0 <= i < |ls| ==> ls[i].offset in blocks && P(ls[i].status, ls[i].payload, blocks[ls[i].offset])
    ensures forall o :: o in blocks ==> exists i :: 0 <= i < |ls| && ls[i].offset == o
    ensures forall i, j :: 0 <= i < j < |ls| ==> ls[i].offset < ls[j].offset
  {
    hide Tiled, PoolSize, IsLive;
    forall i | 0 <= i < |ls| ensures ls[i].offset in blocks && P(ls[i].status, ls[i].payload, blocks[ls[i].offset]) {
      assert PayloadAt(main, ls[i]) && Shows(main, ls[i].offset, P, blocks[ls[i].offset]);
    }
    forall o | o in blocks ensures exists i :: 0 <= i < |ls| && ls[i].offset == o {
      assert Shows(main, o, P, blocks[o]);
    }
  }

  /** Every block is small enough for the buffer of the load. */
  ghost predicate Readable(main: File, offs: seq<nat>, maxN: nat)
  {
    forall o :: o in offs ==> HeaderAt(main, o) && PoolSize(main[o + 1]) <= maxN
  }

  lemma ReadableAt(main: File, offs: seq<nat>, maxN: nat)
    requires Readable(main, offs, maxN)
    ensures forall k :: 0 <= k < |offs| ==> HeaderAt(main, offs[k]) && PoolSize(main[offs[k] + 1]) <= maxN
  {
    hide PoolSize;
  }

  lemma ReadableKept(main: File, m: File, offs: seq<nat>, maxN: nat)
    requires Readable(main, offs, maxN) && SamePools(main, m, offs)
    ensures Readable(m, offs, maxN)
  {
    hide PoolSize;
  }

  /** The data file as the load reads it. */
  method ReadData(store: Store, n: nat, maxN: nat, ghost blocks: map<nat, DataBlock>)
      returns (data: map<nat, DataBlock>, scan: seq<nat>)
    requires store.Valid() && Represents(store.main, store.offs, DataContent(n), blocks) && 64 * n + 32 <= MAX_NUM_VALID_BITS
    requires Readable(store.main, store.offs, maxN)
    modifies store`cursor
    ensures data == blocks && Scans(scan, data.Keys)
  {
    hide Represents, Consistent, Journal.Settled, LiveBlocks, Lists, PoolSize, Tiled, ShowsData;
    ReadableAt(store.main, store.offs, maxN);
    var code, ls := store.ScanAll(maxN);
    LiveBlocksExact(store.main, store.offs, 0);
    assert store.offs[0..] == store.offs;
    ScanShows(store.main, store.offs, DataContent(n), blocks, ls);
    data, scan := map[], [];
    var i := 0;
    while i < |ls|
      invariant 0 <= i <= |ls| && |scan| == i && forall j :: 0 <= j < i ==> scan[j] == ls[j].offset
      invariant forall o :: o in data <==> o in scan
      invariant forall o :: o in data ==> o in blocks && data[o] == blocks[o]
    {
      var b := DecodeData(ls[i].status, ls[i].payload, n, blocks[ls[i].offset]);
      data, scan := data[ls[i].offset := b], scan + [ls[i].offset];
      i := i + 1;
    }
    AllScanned(ls, scan, data, blocks);
  }

  lemma AllScanned<B>(ls: seq<Live>, scan: seq<nat>, data: map<nat, B>, blocks: map<nat, B>)
    requires |scan| == |ls| && forall j :: 0 <= j < |ls| ==> scan[j] == ls[j].offset
    requires forall o :: o in data <==> o in scan
    requires forall o :: o in data ==> o in blocks && data[o] == blocks[o]
    requires forall o :: o in blocks ==> exists i :: 0 <= i < |ls| && ls[i].offset == o
    requires forall i, j :: 0 <= i < j < |ls| ==> ls[i].offset < ls[j].offset
    ensures data == blocks && Scans(scan, data.Keys)
  {
    forall o | o in blocks ensures o in data {
      var i :| 0 <= i < |ls| && ls[i].offset == o;
      assert scan[i] == o;
    }
    assert data.Keys == blocks.Keys;
  }

  /** The key file as the load reads it. */
  method ReadKeys(store: Store, maxN: nat, ghost blocks: map<nat, KeyBlock>) returns (keys: map<nat, KeyBlock>, scan: seq<nat>)
    requires store.Valid() && Represents(store.main, store.offs, KeyContent(), blocks)
    requires Readable(store.main, store.offs, maxN)
    modifies store`cursor
    ensures keys == blocks && Scans(scan, keys.Keys)
  {
    hide Represents, Consistent, Journal.Settled, LiveBlocks, Lists, PoolSize, Tiled, ShowsKey, ReadKey;
    ReadableAt(store.main, store.offs, maxN);
    var code, ls := store.ScanAll(maxN);
    LiveBlocksExact(store.main, store.offs, 0);
    assert store.offs[0..] == store.offs;
    ScanShows(store.main, store.offs, KeyContent(), blocks, ls);
    keys, scan := map[], [];
    var i := 0;
    while i < |ls|
      invariant 0 <= i <= |ls| && |scan| == i && forall j :: 0 <= j < i ==> scan[j] == ls[j].offset
      invariant forall o :: o in keys <==> o in scan
      invariant forall o :: o in keys ==> o in blocks && keys[o] == blocks[o]
    {
      KeyReads(ls[i].status, ls[i].payload, blocks[ls[i].offset]);
      var (key, id) := ReadKey(ls[i].payload);
      keys, scan := keys[ls[i].offset := KeyBlock(key, id)], scan + [ls[i].offset];
      i := i + 1;
    }
    AllScanned(ls, scan, keys, blocks);
  }

  lemma KeyReads(status: Byte, stored: seq<Byte>, b: KeyBlock)
    requires ShowsKey(status, stored, b)
    ensures |stored| >= 2 && |stored| >= 2 + FromLe(stored[..2]) + 8 && ReadKey(stored) == (b.key, b.id)
  {
    hide FromLe;
    var bytes := KeyBytes(b.key, b.id);
    var rest := stored[|bytes|..];
    assert stored == bytes + rest;
    KeyRoundTrip(b.key, b.id, rest);
  }

  /** Both files represent a moment of the series store. */
  ghost predicate FilesHold(dataStore: Store, keyStore: Store, n: nat, m: Moment)
    reads dataStore, keyStore
  {
    && dataStore.Valid() && keyStore.Valid()
    && Represents(dataStore.main, dataStore.offs, DataContent(n), m.data)
    && Represents(keyStore.main, keyStore.offs, KeyContent(), m.keys)
  }

  /** storage_load from bytes: every key returns exactly the points saved of it. */
  method LoadFiles(dataStore: Store, keyStore: Store, bits: nat, n: nat, maxN: nat, ghost m: Moment) returns (store: Storage)
    requires bits >= 192 && FilesHold(dataStore, keyStore, n, m) && 64 * n + 32 <= MAX_NUM_VALID_BITS && MomentOk(m) && Orderly(m)
    requires Readable(dataStore.main, dataStore.offs, maxN) && Readable(keyStore.main, keyStore.offs, maxN)
    modifies dataStore`cursor, keyStore`cursor
    ensures fresh(store) && store.Valid() && store.n == bits && LoadedFrom(store, m)
  {
    hide AbsOf, Reloaded, Represents, Consistent, Journal.Settled, MomentOk, Orderly, SavedOf, Contents, StoreOk, Readable;
    var data, dataScan := ReadData(dataStore, n, maxN, m.data);
    var keys, keyScan := ReadKeys(keyStore, maxN, m.keys);
    store := LoadMoment(bits, data, keys, dataScan, keyScan, m);
  }

  // ----- deaths inside a disk step -----

  /** A store as a load makes it from the files of a moment: what was saved of each series, and its
      ACTIVE block as memory. */
  ghost predicate LoadedFrom(store: Storage, m: Moment)
    reads store
  {
    && (forall k :: k in store.items <==> SavedOf(m, k) != [])
    && (forall k :: k in store.items ==> store.View(k) == SavedOf(m, k))
    && (forall k :: k in store.items ==> k in m.items && store.Abs(k) == Reloaded(AbsOf(m.data, m.items[k])))
  }

  /** storage_write_disk dies while it writes over the block of a series, re-opens die, and the
      load that gets through reads the bytes: each key has what was saved before the step, or
      each what is saved after it. */
  method DieInRewrite(dataStore: Store, keyStore: Store, block: TscBlock, off: nat, complete: bool, id: nat, tail: seq<Byte>,
                      first: nat, later: seq<nat>, bits: nat, maxN: nat, ghost m: Moment, ghost m': Moment)
      returns (store: Storage)
    requires bits >= 192 && FilesHold(dataStore, keyStore, block.words.Length, m) && dataStore != keyStore
    requires MomentOk(m) && Orderly(m) && MomentOk(m') && Orderly(m')
    requires block.Valid() && 64 * block.words.Length + 32 <= MAX_NUM_VALID_BITS && id <= U64_MAX
    requires m'.keys == m.keys && m'.data == m.data[off := DataBlock(complete, id, block.points)]
    requires off in dataStore.held && HeaderAt(dataStore.main, off)
    requires |BlockBytes(id, complete, block, tail)| <= PoolSize(dataStore.main[off + 1])
    requires Readable(dataStore.main, dataStore.offs, maxN) && Readable(keyStore.main, keyStore.offs, maxN)
    modifies dataStore, keyStore`cursor
    ensures store.Valid() && (LoadedFrom(store, m) || LoadedFrom(store, m'))
  {
    hide LoadedFrom, Represents, Consistent, Journal.Settled, MomentOk, Orderly, SavedOf, Contents, StoreOk, Readable, SamePools, Presents,
         PoolSize, BlockBytes, Encode, Encodable, HeaderOf, Bits;
    BlockPresents(id, complete, block, tail);
    ghost var n, before := block.words.Length, dataStore.main;
    var reopened := WriteStep(dataStore, off, if complete then VALID else ACTIVE, BlockBytes(id, complete, block, tail), first, later,
                              DataContent(n), m.data, DataBlock(complete, id, block.points));
    ReadableKept(before, reopened.main, reopened.offs, maxN);
    store := LoadEither(reopened, keyStore, bits, block.words.Length, maxN, m, m');
  }

  /** Loading files of which the data file represents one of two moments. */
  method LoadEither(dataStore: Store, keyStore: Store, bits: nat, n: nat, maxN: nat, ghost m: Moment, ghost m': Moment)
      returns (store: Storage)
    requires bits >= 192 && 64 * n + 32 <= MAX_NUM_VALID_BITS && MomentOk(m) && Orderly(m) && MomentOk(m') && Orderly(m')
    requires FilesHold(dataStore, keyStore, n, m) || FilesHold(dataStore, keyStore, n, m')
    requires Readable(dataStore.main, dataStore.offs, maxN) && Readable(keyStore.main, keyStore.offs, maxN)
    modifies dataStore`cursor, keyStore`cursor
    ensures store.Valid() && (LoadedFrom(store, m) || LoadedFrom(store, m'))
  {
    hide LoadedFrom, FilesHold, MomentOk, Orderly, SavedOf, Contents, StoreOk, Readable;
    ghost var which := if FilesHold(dataStore, keyStore, n, m) then m else m';
    store := LoadFiles(dataStore, keyStore, bits, n, maxN, which);
  }

  /** The file can take one more block of this length, within 64-bit offsets and the read buffer. */
  ghost predicate RoomFor(main: File, len: nat, maxN: nat)
    requires len >= 2
  {
    var size := PoolId(len);
    |main| + HEADER + PoolSize(size) < Journal.INVALID && PoolSize(size) <= maxN
  }

  ghost predicate BlockAdded(m: Moment, o: nat, b: DataBlock, m': Moment)
  {
    MomentOk(m') && Orderly(m') && m'.keys == m.keys && m'.data == m.data[o := b]
  }

  ghost predicate KeyAdded(m: Moment, o: nat, b: KeyBlock, m': Moment)
  {
    MomentOk(m') && Orderly(m') && m'.data == m.data && m'.keys == m.keys[o := b]
  }

  /** The same for the first write of a block. */
  method DieInFirstWrite(dataStore: Store, keyStore: Store, block: TscBlock, complete: bool, id: nat, tail: seq<Byte>,
                         first: nat, later: seq<nat>, bits: nat, maxN: nat, ghost m: Moment, ghost after: nat -> Moment)
      returns (ok: bool, off: nat, store: Storage)
    requires bits >= 192 && FilesHold(dataStore, keyStore, block.words.Length, m) && dataStore != keyStore
    requires MomentOk(m) && Orderly(m) && (forall o :: o in m.data ==> o in dataStore.held)
    requires block.Valid() && 64 * block.words.Length + 32 <= MAX_NUM_VALID_BITS && id <= U64_MAX
    requires forall o :: o !in m.data && o != 0 ==> BlockAdded(m, o, DataBlock(complete, id, block.points), after(o))
    requires RoomFor(dataStore.main, |BlockBytes(id, complete, block, tail)|, maxN)
    requires Readable(dataStore.main, dataStore.offs, maxN) && Readable(keyStore.main, keyStore.offs, maxN)
    modifies dataStore, keyStore`cursor
    ensures ok <==> old(PoolId(|BlockBytes(id, complete, block, tail)|)) < NUM_POOLS
    ensures ok ==> off !in m.data && store.Valid() && (LoadedFrom(store, m) || LoadedFrom(store, after(off)))
  {
    hide LoadedFrom, Represents, Consistent, Journal.Settled, MomentOk, Orderly, SavedOf, Contents, StoreOk, Readable, Presents,
         PoolSize, PoolId, BlockBytes, Encode, Encodable, HeaderOf, Bits, SameBlock, Tiled;
    BlockPresents(id, complete, block, tail);
    ghost var n, before, offs := block.words.Length, dataStore.main, dataStore.offs;
    var reopened;
    ok, off, reopened := ReserveStep(dataStore, if complete then VALID else ACTIVE, BlockBytes(id, complete, block, tail), first, later,
                                     DataContent(n), m.data, DataBlock(complete, id, block.points));
    store := new Storage(bits);
    if ok {
      TilesOf(reopened.main, reopened.offs, reopened.nextFree, reopened.free, reopened.held);
      OffPositive(reopened.main, reopened.offs, off);
      ReadableGrown(before, offs, reopened.main, reopened.offs, off, maxN);
      store := LoadEither(reopened, keyStore, bits, block.words.Length, maxN, m, after(off));
    }
  }

  lemma OffPositive(m: File, offs: seq<nat>, off: nat)
    requires Tiled(m, offs) && off in offs
    ensures off != 0
  {
    hide PoolSize, Tiled;
    var i :| 0 <= i < |offs| && offs[i] == off;
    TileInside(m, offs, i);
  }

  lemma ReadableGrown(main: File, offs: seq<nat>, m: File, offs': seq<nat>, off: nat, maxN: nat)
    requires Readable(main, offs, maxN) && (forall x :: x in offs' <==> x in offs || x == off)
    requires forall x :: x in offs && x != off ==> SameBlock(main, m, x)
    requires HeaderAt(m, off) && PoolSize(m[off + 1]) <= maxN
    ensures Readable(m, offs', maxN)
  {
    hide PoolSize, SameBlock;
    forall o | o in offs' && o != off ensures HeaderAt(m, o) && PoolSize(m[o + 1]) <= maxN { SameBlockHeader(main, m, o); }
  }

  /** The same for the release of a data block, as trims and deletes do. */
  method DieInRelease(dataStore: Store, keyStore: Store, off: nat, first: nat, later: seq<nat>, bits: nat, n: nat, maxN: nat,
                      ghost m: Moment, ghost m': Moment) returns (store: Storage)
    requires bits >= 192 && FilesHold(dataStore, keyStore, n, m) && dataStore != keyStore && 64 * n + 32 <= MAX_NUM_VALID_BITS
    requires MomentOk(m) && Orderly(m) && MomentOk(m') && Orderly(m') && m'.keys == m.keys && m'.data == m.data - {off}
    requires off in dataStore.held && HeaderAt(dataStore.main, off) && dataStore.main[off] != EMPTY
    requires Readable(dataStore.main, dataStore.offs, maxN) && Readable(keyStore.main, keyStore.offs, maxN)
    modifies dataStore, keyStore`cursor
    ensures store.Valid() && (LoadedFrom(store, m) || LoadedFrom(store, m'))
  {
    hide LoadedFrom, Represents, Consistent, Journal.Settled, MomentOk, Orderly, SavedOf, Contents, StoreOk, Readable, SamePools, PoolSize;
    ghost var before := dataStore.main;
    var reopened := ReleaseStep(dataStore, off, first, later, DataContent(n), m.data);
    ReadableKept(before, reopened.main, reopened.offs, maxN);
    store := LoadEither(reopened, keyStore, bits, n, maxN, m, m');
  }

  /** storage_write_key_and_internal_id dies: the key file has the key or not, and the load is
      right either way. */
  method DieInKeyWrite(dataStore: Store, keyStore: Store, key: Key, id: nat, first: nat, later: seq<nat>, bits: nat, n: nat, maxN: nat,
                       ghost m: Moment, ghost after: nat -> Moment) returns (ok: bool, off: nat, store: Storage)
    requires bits >= 192 && FilesHold(dataStore, keyStore, n, m) && dataStore != keyStore && 64 * n + 32 <= MAX_NUM_VALID_BITS
    requires MomentOk(m) && Orderly(m) && (forall o :: o in m.keys ==> o in keyStore.held)
    requires |key| < 0x1_0000 && id <= U64_MAX
    requires forall o :: o !in m.keys && o != 0 ==> KeyAdded(m, o, KeyBlock(key, id), after(o))
    requires RoomFor(keyStore.main, |KeyBytes(key, id)|, maxN)
    requires Readable(dataStore.main, dataStore.offs, maxN) && Readable(keyStore.main, keyStore.offs, maxN)
    modifies keyStore, dataStore`cursor
    ensures ok <==> PoolId(|KeyBytes(key, id)|) < NUM_POOLS
    ensures ok ==> off !in m.keys && store.Valid() && (LoadedFrom(store, m) || LoadedFrom(store, after(off)))
  {
    hide LoadedFrom, Represents, Consistent, Journal.Settled, MomentOk, Orderly, SavedOf, Contents, StoreOk, Readable, Presents,
         PoolSize, PoolId, KeyBytes, SameBlock, Tiled;
    KeyPresents(key, id);
    ghost var before, offs := keyStore.main, keyStore.offs;
    var reopened;
    ok, off, reopened := ReserveStep(keyStore, VALID, KeyBytes(key, id), first, later, KeyContent(), m.keys, KeyBlock(key, id));
    store := new Storage(bits);
    if ok {
      TilesOf(reopened.main, reopened.offs, reopened.nextFree, reopened.free, reopened.held);
      OffPositive(reopened.main, reopened.offs, off);
      ReadableGrown(before, offs, reopened.main, reopened.offs, off, maxN);
      store := LoadEither(dataStore, reopened, bits, n, maxN, m, after(off));
    }
  }

  /** The release of a key block, the last step of a delete. */
  method DieInKeyRelease(dataStore: Store, keyStore: Store, off: nat, first: nat, later: seq<nat>, bits: nat, n: nat, maxN: nat,
                         ghost m: Moment, ghost m': Moment) returns (store: Storage)
    requires bits >= 192 && FilesHold(dataStore, keyStore, n, m) && dataStore != keyStore && 64 * n + 32 <= MAX_NUM_VALID_BITS
    requires MomentOk(m) && Orderly(m) && MomentOk(m') && Orderly(m') && m'.data == m.data && m'.keys == m.keys - {off}
    requires off in keyStore.held && HeaderAt(keyStore.main, off) && keyStore.main[off] != EMPTY
    requires Readable(dataStore.main, dataStore.offs, maxN) && Readable(keyStore.main, keyStore.offs, maxN)
    modifies keyStore, dataStore`cursor
    ensures store.Valid() && (LoadedFrom(store, m) || LoadedFrom(store, m'))
  {
    hide LoadedFrom, Represents, Consistent, Journal.Settled, MomentOk, Orderly, SavedOf, Contents, StoreOk, Readable, SamePools, PoolSize;
    ghost var before := keyStore.main;
    var reopened := ReleaseStep(keyStore, off, first, later, KeyContent(), m.keys);
    ReadableKept(before, reopened.main, reopened.offs, maxN);
    store := LoadEither(dataStore, reopened, bits, n, maxN, m, m');
  }
}
