/** What the blocks of the two files contain, and a compressor's way through the file and
    back: the layout storage_write_disk and storage_write_key_and_internal_id write, as
    storage_get and storage_load read it (storage.c:530-555, 744-767, 1002-1026, 217-257). */
module Payload {
  import opened Bytes
  import opened Words
  import opened Bitstream
  import opened TscCodec
  import opened TscHeader
  import opened TscBlock
  import opened TscRuns
  import opened DiskStore
  import opened DiskStorage

  // ----- words as bytes -----

  function WordsBytes(ws: seq<Word>): (bs: seq<Byte>)
    ensures |bs| == 8 * |ws|
  {
    if ws == [] then [] else WordBytes(ws[0]) + WordsBytes(ws[1..])
  }

  function BytesWords(bs: seq<Byte>, n: nat): (ws: seq<Word>)
    requires |bs| >= 8 * n
    ensures |ws| == n
  {
    if n == 0 then [] else [WordOfBytes(bs[..8])] + BytesWords(bs[8..], n - 1)
  }

  lemma {:induction false} WordsRoundTrip(ws: seq<Word>, rest: seq<Byte>)
    ensures BytesWords(WordsBytes(ws) + rest, |ws|) == ws
  {
    hide WordBytes, WordOfBytes;
    if ws != [] {
      var bs := WordsBytes(ws) + rest;
      WordRoundTrip(ws[0]);
      WordsRoundTrip(ws[1..], rest);
      assert bs[..8] == WordBytes(ws[0]) && bs[8..] == WordsBytes(ws[1..]) + rest;
    }
  }

  // ----- the compressor's buffer -----

  /** The point count, the words in use, and bytes after the last whole word. */
  function Buffer(count: nat, ws: seq<Word>, tail: seq<Byte>): (bs: seq<Byte>)
    ensures |bs| == 4 + 8 * |ws| + |tail|
  {
    Le(count, 4) + WordsBytes(ws) + tail
  }

  /** TSC_NUM_PTS */
  function CountOf(data: seq<Byte>): nat
    requires |data| >= 4
  {
    FromLe(data[..4])
  }

  function WordsOf(data: seq<Byte>, n: nat): (ws: seq<Word>)
    requires |data| >= 4 + 8 * n
    ensures |ws| == n
  {
    BytesWords(data[4..], n)
  }

  /** TSC_START_TIME: the first timestamp, read straight from the buffer. */
  function StartOf(data: seq<Byte>): int
    requires |data| >= 12
  {
    ToInt(WordOfBytes(data[4..12]))
  }

  lemma BufferReads(count: nat, ws: seq<Word>, tail: seq<Byte>, rest: seq<Byte>)
    requires count < 0x1_0000_0000
    ensures var data := Buffer(count, ws, tail) + rest;
      CountOf(data) == count && WordsOf(data, |ws|) == ws
  {
    hide Le, FromLe, WordsBytes, BytesWords, Pow256;
    var data := Buffer(count, ws, tail) + rest;
    assert data[..4] == Le(count, 4) && data[4..] == WordsBytes(ws) + (tail + rest);
    FourBytes();
    LeRoundTrip(count, 4);
    WordsRoundTrip(ws, tail + rest);
  }

  lemma FourBytes()
    ensures Pow256(4) == 0x1_0000_0000
  {
  }

  /** The start time a block is filed under is the time of its first point. */
  lemma StartReads(ps: seq<Point>, count: nat, ws: seq<Word>, tail: seq<Byte>, rest: seq<Byte>)
    requires Encodable(ps) && ps != [] && Encode(ps) <= Bits(ws)
    ensures |ws| >= 1 && StartOf(Buffer(count, ws, tail) + rest) == ps[0].t
  {
    hide Le, FromLe, WordBytes, WordOfBytes, Encode, Encodable, HeaderOf, Bits, EncDouble;
    FirstBits(ps);
    WordsOfStart(ps, ws);
    var data := Buffer(count, ws, tail) + rest;
    assert WordsBytes(ws)[..8] == WordBytes(ws[0]);
    assert data[4..12] == WordBytes(ws[0]);
    WordRoundTrip(ws[0]);
    OfIntValue(ps[0].t);
  }

  lemma WordsOfStart(ps: seq<Point>, ws: seq<Word>)
    requires Encodable(ps) && Encode(ps) <= Bits(ws) && ps != [] && IsInt64(ps[0].t) && OfInt(ps[0].t) <= Encode(ps)
    ensures |ws| >= 1 && ws[0] == OfInt(ps[0].t)
  {
    hide Encode, Encodable, HeaderOf, OfInt;
    var bits := Bits(ws);
    assert |Encode(ps)| >= 64 && |bits| >= 64;
    forall k | 0 <= k < 64 ensures ws[0][k] == OfInt(ps[0].t)[k] {
      assert bits[k] == Encode(ps)[k] == OfInt(ps[0].t)[k];
    }
  }

  lemma {:induction false} FirstBits(ps: seq<Point>)
    requires Encodable(ps) && ps != []
    ensures IsInt64(ps[0].t) && OfInt(ps[0].t) <= Encode(ps)
    decreases |ps|
  {
    hide OfInt, EncDouble, EncInt;
    if |ps| == 1 {
      assert ps[..0] == [];
    } else {
      FirstBits(ps[..|ps| - 1]);
    }
  }

  // ----- data blocks -----

  /** storage_write_disk: id, header for an ACTIVE block only, buffer. */
  function DataBytes(id: nat, complete: bool, h: Header, ws: seq<Word>, tail: seq<Byte>): (bs: seq<Byte>)
    requires IsInt64(h.lastT) && IsInt64(h.lastDelta) && h.lead < 256 && h.sig < 256
    ensures |bs| == 8 + (if complete then 0 else SERIALIZED_SIZE) + 4 + 8 * |ws| + |tail|
  {
    Le(id, 8) + (if complete then [] else Serialize(h)) + Buffer(h.pts, ws, tail)
  }

  /** storage_get on a VALID block: the id, then the points of the buffer. */
  method ReadComplete(stored: seq<Byte>, n: nat, ghost ps: seq<Point>, ghost id: nat, ghost ws: seq<Word>,
                      ghost tail: seq<Byte>, ghost rest: seq<Byte>) returns (id': nat, out: seq<Point>)
    requires Encodable(ps) && Encode(ps) <= Bits(ws) && |ws| == n && 64 * n <= MAX_NUM_VALID_BITS && id <= U64_MAX
    requires stored == DataBytes(id, true, HeaderOf(ps), ws, tail) + rest
    ensures id' == id && out == ps
  {
    hide Le, FromLe, Encode, Encodable, HeaderOf, Bits, Buffer, CountOf, WordsOf;
    var data := stored[8..];
    assert stored[..8] == Le(id, 8) && data == Buffer(|ps|, ws, tail) + rest;
    Pow256Eight();
    LeRoundTrip(id, 8);
    id' := FromLe(stored[..8]);
    FewPoints(ps, ws);
    BufferReads(|ps|, ws, tail, rest);
    var got := WordsOf(data, n);
    var words := new Word[n](i requires 0 <= i < n => got[i]);
    assert words[..] == ws;
    out := ReadBlock(CountOf(data), words, ps);
  }

  lemma FewPoints(ps: seq<Point>, ws: seq<Word>)
    requires Encodable(ps) && Encode(ps) <= Bits(ws) && 64 * |ws| <= MAX_NUM_VALID_BITS
    ensures |ps| < 0x1_0000_0000 && HeaderOf(ps).bits <= 64 * |ws|
  {
    hide Encodable;
  }

  /** storage_load on an ACTIVE block: the id, then tsc_load_block into a clear compressor. */
  method ReadActive(into: TscBlock, stored: seq<Byte>, ghost ps: seq<Point>, ghost id: nat, ghost ws: seq<Word>,
                    ghost tail: seq<Byte>, ghost rest: seq<Byte>) returns (id': nat)
    requires into.Valid() && Encodable(ps) && Encode(ps) <= Bits(ws) && |ws| == into.words.Length && id <= U64_MAX
    requires stored == DataBytes(id, false, HeaderOf(ps), ws, tail) + rest
    modifies into, into.words
    ensures id' == id && into.Valid() && into.points == ps && into.Fields() == HeaderOf(ps)
  {
    hide Le, FromLe, Encode, Encodable, HeaderOf, Bits, Buffer, CountOf, WordsOf, Serialize, Deserialize;
    var header, data := stored[8..8 + SERIALIZED_SIZE], stored[8 + SERIALIZED_SIZE..];
    assert stored[..8] == Le(id, 8) && header == Serialize(HeaderOf(ps)) && data == Buffer(|ps|, ws, tail) + rest;
    Pow256Eight();
    LeRoundTrip(id, 8);
    id' := FromLe(stored[..8]);
    FewPoints(ps, ws);
    BufferReads(|ps|, ws, tail, rest);
    into.LoadBlock(header, CountOf(data), WordsOf(data, into.words.Length), ps);
  }

  // ----- key blocks -----

  /** storage_write_key_and_internal_id */
  function KeyBytes(key: seq<Byte>, id: nat): (bs: seq<Byte>)
    ensures |bs| == 2 + |key| + 8
  {
    Le(|key|, 2) + key + Le(id, 8)
  }

  /** How storage_load reads it. */
  function ReadKey(stored: seq<Byte>): (r: (seq<Byte>, nat))
    requires |stored| >= 2 && |stored| >= 2 + FromLe(stored[..2]) + 8
  {
    var n := FromLe(stored[..2]);
    (stored[2..2 + n], FromLe(stored[2 + n..2 + n + 8]))
  }

  lemma KeyRoundTrip(key: seq<Byte>, id: nat, rest: seq<Byte>)
    requires |key| < 0x1_0000 && id <= U64_MAX
    ensures FromLe((KeyBytes(key, id) + rest)[..2]) == |key| && ReadKey(KeyBytes(key, id) + rest) == (key, id)
  {
    hide Le, FromLe, Pow256;
    var s := KeyBytes(key, id) + rest;
    assert s[..2] == Le(|key|, 2) && s[2..2 + |key|] == key && s[2 + |key|..2 + |key| + 8] == Le(id, 8);
    TwoBytes();
    Pow256Eight();
    LeRoundTrip(|key|, 2);
    LeRoundTrip(id, 8);
  }

  lemma TwoBytes()
    ensures Pow256(2) == 0x1_0000
  {
  }

  // ----- through the file -----

  /** The file holds a data block at off: its status, and behind the header the layout of a
      buffer of n words that encodes these points. */
  ghost predicate BlockHolds(main: File, off: nat, n: nat, complete: bool, id: nat, pts: seq<Point>)
  {
    && HeaderAt(main, off) && BlockEnd(main, off) <= |main| && main[off] == (if complete then VALID else ACTIVE)
    && var stored := Slice(main, off + HEADER, PoolSize(main[off + 1]));
    exists ws, tail, rest :: StoredAs(stored, n, complete, id, pts, ws, tail, rest)
  }

  ghost predicate StoredAs(stored: seq<Byte>, n: nat, complete: bool, id: nat, pts: seq<Point>,
                           ws: seq<Word>, tail: seq<Byte>, rest: seq<Byte>)
  {
    && |ws| == n && Encodable(pts) && Encode(pts) <= Bits(ws)
    && stored == DataBytes(id, complete, HeaderOf(pts), ws, tail) + rest
  }

  lemma HoldsStored(main: File, off: nat, n: nat, complete: bool, id: nat, pts: seq<Point>,
                    ws: seq<Word>, tail: seq<Byte>, rest: seq<Byte>)
    requires HeaderAt(main, off) && BlockEnd(main, off) <= |main| && main[off] == (if complete then VALID else ACTIVE)
    requires StoredAs(Slice(main, off + HEADER, PoolSize(main[off + 1])), n, complete, id, pts, ws, tail, rest)
    ensures BlockHolds(main, off, n, complete, id, pts)
  {
    hide StoredAs, PoolSize;
  }

  /** What a compressor writes for itself. */
  function BlockBytes(id: nat, complete: bool, block: TscBlock, tail: seq<Byte>): (bs: seq<Byte>)
    requires block.Valid()
    reads block, block.words
    ensures bs == DataBytes(id, complete, HeaderOf(block.points), block.words[..], tail)
    ensures |bs| == 8 + (if complete then 0 else SERIALIZED_SIZE) + 4 + 8 * block.words.Length + |tail|
  {
    hide Encode, Encodable, HeaderOf, Bits;
    DataBytes(id, complete,
              Header(block.lastTimestamp, block.lastTimestampDelta, block.prevValue, block.numValidBits,
                     block.lastLeading, block.lastSigbits, block.numPts), block.words[..], tail)
  }

  /** Writing bytes to a new block and reading the block: they come back, with padding. */
  method PutAndGet(store: Store, status: Byte, bytes: seq<Byte>, maxN: nat)
      returns (ok: bool, off: nat, stored: seq<Byte>)
    requires store.Valid() && store.budget.None? && 2 <= |bytes| && (status == VALID || status == ACTIVE)
    requires |store.main| + HEADER + PoolSize(PoolId(|bytes|)) < Journal.INVALID
    modifies store
    ensures store.Valid() && store.budget.None? && (ok ==> off !in old(store.held) && off in store.held)
    ensures ok ==> HeaderAt(store.main, off) && store.main[off] == status && store.main[off + 1] == PoolId(|bytes|)
    ensures ok ==> BlockEnd(store.main, off) <= |store.main|
    ensures ok ==> stored == Slice(store.main, off + HEADER, PoolSize(store.main[off + 1]))
    ensures ok ==> forall x :: x in old(store.offs) ==> x in store.offs && (x != off ==> SameBlock(old(store.main), store.main, x))
    ensures ok <==> PoolId(|bytes|) < NUM_POOLS && PoolSize(PoolId(|bytes|)) <= maxN
    ensures ok ==> bytes <= stored
  {
    hide Consistent, PoolSize, PoolId, Journal.Settled, SameBlock;
    PoolIdLeast(|bytes|, PoolId(|bytes|));
    var alive;
    ghost var grown;
    ok, alive, off, grown := store.ReserveAndWrite(status, bytes);
    stored := [];
    if ok {
      var code, status';
      code, status', stored := store.ReadBlock(off, maxN);
      if code != 0 { return false, off, []; }
      SlicePrefix(store.main, off + HEADER, |bytes|, |stored|);
    }
  }

  lemma SlicePrefix(f: File, p: nat, m: nat, n: nat)
    requires p + m <= |f| && p + n <= |f| && m <= n
    ensures Slice(f, p, m) <= Slice(f, p, n)
  {
  }

  /** A full block written to the data file and read as storage_get does: bit fields, bytes,
      allocator and journal compose to the identity on points. */
  method CompleteThroughDisk(store: Store, block: TscBlock, id: nat, tail: seq<Byte>, maxN: nat)
      returns (ok: bool, off: nat, id': nat, pts: seq<Point>)
    requires store.Valid() && store.budget.None? && block.Valid() && id <= U64_MAX
    requires |store.main| + HEADER + PoolSize(PoolId(|BlockBytes(id, true, block, tail)|)) < Journal.INVALID
    modifies store
    ensures var size := PoolId(|BlockBytes(id, true, block, tail)|); ok <==> size < NUM_POOLS && PoolSize(size) <= maxN
    ensures store.Valid() && (ok ==> id' == id && pts == block.points && off !in old(store.held))
    ensures ok ==> BlockHolds(store.main, off, block.words.Length, true, id, block.points)
  {
    hide Bits, Encode, Encodable, HeaderOf, Consistent, PoolSize, PoolId, Journal.Settled, DataBytes, BlockHolds, SameBlock;
    var bytes := BlockBytes(id, true, block, tail);
    id', pts := 0, [];
    var stored;
    ok, off, stored := PutAndGet(store, VALID, bytes, maxN);
    if ok {
      ghost var rest := stored[|bytes|..];
      assert stored == bytes + rest;
      HoldsStored(store.main, off, block.words.Length, true, id, block.points, block.words[..], tail, rest);
      id', pts := ReadComplete(stored, block.words.Length, block.points, id, block.words[..], tail, rest);
    }
  }

  /** An ACTIVE block written by a sync and loaded after a restart: the new compressor has
      the same points and header, so later adds get the same answers. */
  method ActiveThroughDisk(store: Store, block: TscBlock, dataLen: nat, id: nat, tail: seq<Byte>, maxN: nat)
      returns (ok: bool, off: nat, id': nat, resumed: TscBlock)
    requires store.Valid() && store.budget.None? && block.Valid() && id <= U64_MAX
    requires 4 <= dataLen && dataLen * 8 <= MAX_NUM_VALID_BITS && block.n == (dataLen - 4) * 8
    requires |store.main| + HEADER + PoolSize(PoolId(|BlockBytes(id, false, block, tail)|)) < Journal.INVALID
    modifies store
    ensures var size := PoolId(|BlockBytes(id, false, block, tail)|); ok <==> size < NUM_POOLS && PoolSize(size) <= maxN
    ensures store.Valid() && fresh(resumed) && resumed.n == block.n && resumed.Valid()
    ensures ok ==> id' == id && resumed.points == block.points && resumed.Fields() == block.Fields()
    ensures ok ==> off !in old(store.held) && BlockHolds(store.main, off, block.words.Length, false, id, block.points)
  {
    hide Bits, Encode, Encodable, HeaderOf, Consistent, PoolSize, PoolId, Journal.Settled, DataBytes, BlockHolds, SameBlock;
    var bytes := BlockBytes(id, false, block, tail);
    id' := 0;
    resumed := new TscBlock(dataLen, seq(block.words.Length, i => Zero()));
    var stored;
    ok, off, stored := PutAndGet(store, ACTIVE, bytes, maxN);
    if ok {
      ghost var rest := stored[|bytes|..];
      assert stored == bytes + rest;
      HoldsStored(store.main, off, block.words.Length, false, id, block.points, block.words[..], tail, rest);
      id' := ReadActive(resumed, stored, block.points, id, block.words[..], tail, rest);
    }
  }

  // ----- rewriting a block -----

  /** disk_storage_write_block asserts that a rewrite fits the pool chosen at the first write.
      It does: the first write of a block that is rewritten is ACTIVE, and both later forms of
      the same buffer are no longer than that. */
  lemma RewriteFits(id: nat, first: TscBlock, later: TscBlock, complete: bool, tail: seq<Byte>, tail': seq<Byte>)
    requires first.Valid() && later.Valid() && later.words.Length == first.words.Length && |tail'| == |tail|
    ensures |BlockBytes(id, complete, later, tail')| <= PoolSize(PoolId(|BlockBytes(id, false, first, tail)|))
  {
    hide PoolSize, PoolId, Encode, Encodable, HeaderOf, Bits;
    var n := |BlockBytes(id, false, first, tail)|;
    PoolIdLeast(n, PoolId(n));
  }

  /** Writing to a block that is held and reading it: the bytes come back, with padding. */
  method RewriteAndGet(store: Store, off: nat, status: Byte, bytes: seq<Byte>, maxN: nat) returns (stored: seq<Byte>)
    requires store.Valid() && store.budget.None? && off in store.held && (status == VALID || status == ACTIVE)
    requires HeaderAt(store.main, off) && |bytes| <= PoolSize(store.main[off + 1]) <= maxN
    modifies store`main, store`scratch, store`budget
    ensures store.Valid() && store.budget.None? && HeaderAt(store.main, off)
    ensures store.main[off] == status && store.main[off + 1] == old(store.main[off + 1])
    ensures bytes <= stored && BlockEnd(store.main, off) <= |store.main|
    ensures stored == Slice(store.main, off + HEADER, PoolSize(store.main[off + 1]))
    ensures forall x :: x in store.offs && x != off ==> SameBlock(old(store.main), store.main, x)
  {
    hide Consistent, PoolSize, Journal.Settled, SameBlock, Overlay;
    ghost var before := store.main;
    HeldInside(store.main, store.offs, store.nextFree, store.free, store.held, off);
    var alive := store.WriteBlock(off, status, bytes);
    HeldInside(store.main, store.offs, store.nextFree, store.free, store.held, off);
    WrittenBlock(before, store.main, off, status, bytes);
    WrittenPool(before, off, status, bytes);
    var code, status';
    code, status', stored := store.ReadBlock(off, maxN);
    SlicePrefix(store.main, off + HEADER, |bytes|, |stored|);
  }

  lemma WrittenPool(before: File, off: nat, status: Byte, bytes: seq<Byte>)
    requires HeaderAt(before, off) && off + HEADER + |bytes| <= |before|
    ensures Overlay(before, off, [status, before[off + 1]] + bytes)[off + 1] == before[off + 1]
  {
    var record := [status, before[off + 1]] + bytes;
    assert Overlay(before, off, record)[off + 1] == record[1];
  }

  /** The life of a block: synced as ACTIVE, more points, synced again over itself, more points,
      and completed over itself. Each time it holds, and reads back as, exactly what was
      accepted by then; the rewrites fit, and no other block changes. */
  method BlockLife(store: Store, block: TscBlock, dataLen: nat, id: nat, tail: seq<Byte>, more: seq<Point>, last: seq<Point>, maxN: nat)
      returns (ok: bool, off: nat, resumed: TscBlock, pts: seq<Point>)
    requires store.Valid() && store.budget.None? && block.Valid() && id <= U64_MAX
    requires 4 <= dataLen && dataLen * 8 <= MAX_NUM_VALID_BITS && block.n == (dataLen - 4) * 8
    requires Timed(more) && Timed(last)
    requires |store.main| + HEADER + PoolSize(PoolId(|BlockBytes(id, false, block, tail)|)) < Journal.INVALID
    modifies store, block, block.words
    ensures store.Valid() && block.Valid() && fresh(resumed) && resumed.Valid() && Encodable(old(block.points))
    ensures var size := old(PoolId(|BlockBytes(id, false, block, tail)|)); ok <==> size < NUM_POOLS && PoolSize(size) <= maxN
    ensures ok ==> off !in old(store.held)
    ensures ok ==> resumed.points == AfterCalls(block.n, old(block.points), more)
    ensures ok ==> pts == block.points == AfterCalls(block.n, resumed.points, last)
    ensures ok ==> BlockHolds(store.main, off, block.words.Length, true, id, block.points)
    ensures ok ==> forall x :: x in old(store.offs) && x != off ==> SameBlock(old(store.main), store.main, x)
  {
    hide Bits, Encode, Encodable, HeaderOf, Consistent, PoolSize, PoolId, Journal.Settled, DataBytes, BlockBytes, BlockHolds,
         SameBlock, AfterCalls;
    resumed := new TscBlock(dataLen, seq(block.words.Length, i => Zero()));
    pts := [];
    ghost var size := |BlockBytes(id, false, block, tail)|;
    var stored;
    ghost var m0 := store.main;
    ok, off, stored := PutAndGet(store, ACTIVE, BlockBytes(id, false, block, tail), maxN);
    if ok {
      ghost var m1 := store.main;
      AddAll(block, more);
      SameSize(id, block, tail, size);
      PoolIdLeast(size, PoolId(size));
      var bytes := BlockBytes(id, false, block, tail);
      stored := RewriteAndGet(store, off, ACTIVE, bytes, maxN);
      ghost var m2 := store.main;
      ghost var rest := stored[|bytes|..];
      assert stored == bytes + rest;
      var id' := ReadActive(resumed, stored, block.points, id, block.words[..], tail, rest);
      AddAll(block, last);
      SameSize(id, block, tail, size);
      pts := Complete(store, block, off, id, tail, maxN);
      forall x | x in old(store.offs) && x != off ensures SameBlock(m0, store.main, x) {
        SameTwice(m0, m1, m2, x);
        SameTwice(m0, m2, store.main, x);
      }
    }
  }

  /** The last rewrite, as a complete block. */
  method Complete(store: Store, block: TscBlock, off: nat, id: nat, tail: seq<Byte>, maxN: nat) returns (pts: seq<Point>)
    requires store.Valid() && store.budget.None? && block.Valid() && id <= U64_MAX && off in store.held
    requires HeaderAt(store.main, off) && |BlockBytes(id, true, block, tail)| <= PoolSize(store.main[off + 1]) <= maxN
    modifies store`main, store`scratch, store`budget
    ensures store.Valid() && pts == block.points && BlockHolds(store.main, off, block.words.Length, true, id, block.points)
    ensures forall x :: x in store.offs && x != off ==> SameBlock(old(store.main), store.main, x)
  {
    hide Bits, Encode, Encodable, HeaderOf, Consistent, PoolSize, Journal.Settled, DataBytes, BlockHolds, SameBlock;
    var bytes := BlockBytes(id, true, block, tail);
    var stored := RewriteAndGet(store, off, VALID, bytes, maxN);
    ghost var rest := stored[|bytes|..];
    assert stored == bytes + rest;
    HoldsStored(store.main, off, block.words.Length, true, id, block.points, block.words[..], tail, rest);
    var id';
    id', pts := ReadComplete(stored, block.words.Length, block.points, id, block.words[..], tail, rest);
  }

  lemma SameSize(id: nat, block: TscBlock, tail: seq<Byte>, size: nat)
    requires block.Valid() && size == 8 + SERIALIZED_SIZE + 4 + 8 * block.words.Length + |tail|
    ensures |BlockBytes(id, false, block, tail)| == size && |BlockBytes(id, true, block, tail)| <= size
  {
    hide Bits, Encode, Encodable, HeaderOf;
  }

  ghost predicate Timed(calls: seq<Point>) { forall i :: 0 <= i < |calls| ==> IsInt64(calls[i].t) }

  /** The points of a block after a run of tsc_add calls. */
  ghost function AfterCalls(n: nat, ps: seq<Point>, calls: seq<Point>): (r: seq<Point>)
    requires Encodable(ps) && Timed(calls)
    ensures Encodable(r)
  {
    if calls == [] then ps else AcceptOne(n, AfterCalls(n, ps, calls[..|calls| - 1]), calls[|calls| - 1])
  }

  /** A run of tsc_add calls. */
  method AddAll(block: TscBlock, calls: seq<Point>)
    requires block.Valid() && Timed(calls)
    modifies block, block.words
    ensures block.Valid() && Encodable(old(block.points)) && block.points == AfterCalls(block.n, old(block.points), calls)
  {
    hide Bits, Encode, HeaderOf, AddOutcome, Encodable, AfterCalls, AcceptOne;
    AfterNone(block.n, block.points, calls);
    var i := 0;
    while i < |calls|
      invariant 0 <= i <= |calls| && block.Valid() && Encodable(old(block.points)) && Timed(calls[..i])
      invariant block.points == AfterCalls(block.n, old(block.points), calls[..i])
    {
      AfterOne(block.n, old(block.points), calls, i);
      var st := block.Add(calls[i].t, calls[i].y);
      i := i + 1;
    }
    assert calls[..|calls|] == calls;
  }

  lemma AfterNone(n: nat, ps: seq<Point>, calls: seq<Point>)
    requires Encodable(ps)
    ensures Timed(calls[..0]) && AfterCalls(n, ps, calls[..0]) == ps
  {
    hide Encodable;
  }

  lemma AfterOne(n: nat, ps: seq<Point>, calls: seq<Point>, i: nat)
    requires Encodable(ps) && Timed(calls) && i < |calls|
    ensures Timed(calls[..i]) && Timed(calls[..i + 1])
    ensures var was := AfterCalls(n, ps, calls[..i]);
      AfterCalls(n, ps, calls[..i + 1]) == was + if AddOutcome(n, was, calls[i]) == Added then [calls[i]] else []
  {
    hide Encodable, AddOutcome;
    assert calls[..i + 1][..i] == calls[..i] && calls[..i + 1][i] == calls[i];
  }
}
