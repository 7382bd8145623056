/** The series store of storage.c over block stores: each series is a list of complete
    blocks, at most one active block, and a compressor in memory. A block is represented
    by the points it encodes (TscBlock), a block store by its live blocks (DiskStorage). */
module SeriesStore {
  import opened Basics
  import opened TscCodec
  import opened TscBlock
  import opened Words
  import opened Bytes

  type Key = seq<Byte>

  /** struct offset_and_time; offset 0 marks a block not written yet. */
  datatype OffTime = OffTime(offset: nat, start: int)

  datatype Item = Item(id: nat, keyOffset: nat, mem: seq<Point>, offsets: seq<OffTime>)

  /** A live data block: VALID when complete, ACTIVE otherwise. */
  datatype DataBlock = DataBlock(complete: bool, id: nat, pts: seq<Point>)

  datatype KeyBlock = KeyBlock(key: Key, id: nat)

  /** MAX_BUF of storage.c:528: a longer key record is never written. */
  const MAX_BUF: nat := 10240

  predicate Storable(key: Key) { 2 + |key| + 8 <= MAX_BUF }

  ghost predicate HasKeyBlock(keys: map<nat, KeyBlock>, id: nat)
  {
    exists k :: k in keys && keys[k].id == id
  }

  /** No id has two key blocks, and a live data block's id has one exactly when its key is
      storable. */
  ghost predicate Covered(data: map<nat, DataBlock>, keys: map<nat, KeyBlock>, names: map<nat, Key>)
  {
    && (forall k, l :: k in keys && l in keys && keys[k].id == keys[l].id ==> k == l)
    && (forall o :: o in data ==> data[o].id in names && (HasKeyBlock(keys, data[o].id) <==> Storable(names[data[o].id])))
  }

  // ----- one series -----

  /** The slots of complete blocks: all but the last. */
  function Closed(offsets: seq<OffTime>): seq<OffTime>
  {
    if offsets == [] then [] else offsets[..|offsets| - 1]
  }

  ghost predicate ClosedOk(data: map<nat, DataBlock>, id: nat, s: OffTime)
  {
    && s.offset != 0 && s.offset in data && data[s.offset].complete && data[s.offset].id == id
    && data[s.offset].pts != [] && s.start == data[s.offset].pts[0].t && s.start > 0 && Encodable(data[s.offset].pts)
  }

  /** The last slot: unwritten, or an ACTIVE block that may lag behind memory. */
  ghost predicate CurrentOk(data: map<nat, DataBlock>, it: Item, s: OffTime)
  {
    s.offset != 0 ==>
      && s.offset in data && !data[s.offset].complete && data[s.offset].id == it.id
      && data[s.offset].pts != [] && data[s.offset].pts <= it.mem && s.start == it.mem[0].t && s.start > 0
  }

  ghost predicate ItemOk(data: map<nat, DataBlock>, it: Item)
  {
    && Encodable(it.mem)
    && (forall i :: 0 <= i < |it.offsets| - 1 ==> ClosedOk(data, it.id, it.offsets[i]))
    && (it.offsets != [] ==> CurrentOk(data, it, it.offsets[|it.offsets| - 1]))
    && (forall i, j :: 0 <= i < j < |it.offsets| ==> it.offsets[i].offset != it.offsets[j].offset)
  }

  /** The points of a run of complete blocks. */
  ghost function Points(data: map<nat, DataBlock>, closed: seq<OffTime>): seq<Point>
  {
    if closed == [] then []
    else Points(data, closed[..|closed| - 1])
         + var o := closed[|closed| - 1].offset; if o in data then data[o].pts else []
  }

  /** All points of a series, in acceptance order. */
  ghost function Contents(data: map<nat, DataBlock>, it: Item): seq<Point>
  {
    Points(data, Closed(it.offsets)) + it.mem
  }

  ghost predicate Holds(it: Item, o: nat)
  {
    o != 0 && exists i :: 0 <= i < |it.offsets| && it.offsets[i].offset == o
  }

  lemma {:induction false} PointsFrame(data: map<nat, DataBlock>, data': map<nat, DataBlock>, closed: seq<OffTime>)
    requires forall i :: 0 <= i < |closed| ==> closed[i].offset in data
    requires forall i :: 0 <= i < |closed| ==>
      closed[i].offset in data' && data'[closed[i].offset] == data[closed[i].offset]
    ensures Points(data', closed) == Points(data, closed)
  {
    if closed != [] {
      PointsFrame(data, data', closed[..|closed| - 1]);
    }
  }

  /** A series as the files alone know it: all its slots, and as memory what its ACTIVE block
      holds. */
  ghost function Saved(data: map<nat, DataBlock>, it: Item): Item
  {
    var o := if it.offsets == [] then 0 else it.offsets[|it.offsets| - 1].offset;
    it.(mem := if o != 0 && o in data then data[o].pts else [])
  }

  /** The points of a series that are on disk. */
  ghost function SavedPoints(data: map<nat, DataBlock>, it: Item): seq<Point> { Contents(data, Saved(data, it)) }

  /** What is on disk is itself a series in order, and a prefix of what was accepted. */
  lemma SavedOk(data: map<nat, DataBlock>, it: Item)
    requires ItemOk(data, it)
    ensures ItemOk(data, Saved(data, it)) && SavedPoints(data, it) <= Contents(data, it)
  {
    hide Encodable, Points, HeaderOf, Encode;
    EmptyHeader();
    var s := Saved(data, it);
    if s.mem != [] {
      assert s.mem == it.mem[..|s.mem|];
      PrefixEncodable(it.mem, |s.mem|);
    }
    forall i | 0 <= i < |s.offsets| - 1 ensures ClosedOk(data, s.id, s.offsets[i]) {
      assert ClosedOk(data, it.id, it.offsets[i]);
    }
  }

  /** A series without ids, offsets and files: its complete blocks, its ACTIVE block (empty if it
      has none) and its memory. */
  datatype Series = Series(closed: seq<seq<Point>>, active: seq<Point>, mem: seq<Point>)

  const NEW_SERIES: Series := Series([], [], [])

  ghost function BlockPoints(data: map<nat, DataBlock>, slots: seq<OffTime>): seq<seq<Point>>
  {
    seq(|slots|, i requires 0 <= i < |slots| => if slots[i].offset in data then data[slots[i].offset].pts else [])
  }

  ghost function AbsOf(data: map<nat, DataBlock>, it: Item): (s: Series)
    ensures s.mem == it.mem
  {
    Series(BlockPoints(data, Closed(it.offsets)), Saved(data, it).mem, it.mem)
  }

  ghost function Joined(blocks: seq<seq<Point>>): seq<Point>
  {
    if blocks == [] then [] else Joined(blocks[..|blocks| - 1]) + blocks[|blocks| - 1]
  }

  /** All points of a series. */
  ghost function Total(s: Series): seq<Point> { Joined(s.closed) + s.mem }

  lemma {:induction false} JoinedPoints(data: map<nat, DataBlock>, slots: seq<OffTime>)
    ensures Points(data, slots) == Joined(BlockPoints(data, slots))
  {
    if slots != [] {
      var init := slots[..|slots| - 1];
      JoinedPoints(data, init);
      assert BlockPoints(data, slots)[..|slots| - 1] == BlockPoints(data, init);
    }
  }

  lemma ContentsTotal(data: map<nat, DataBlock>, it: Item)
    ensures Contents(data, it) == Total(AbsOf(data, it))
  {
    JoinedPoints(data, Closed(it.offsets));
  }

  /** A series does not notice changes to blocks it does not hold. */
  lemma ItemFrame(data: map<nat, DataBlock>, data': map<nat, DataBlock>, it: Item)
    requires ItemOk(data, it)
    requires forall o :: o in data && Holds(it, o) ==> o in data' && data'[o] == data[o]
    ensures ItemOk(data', it) && Contents(data', it) == Contents(data, it)
    ensures SavedPoints(data', it) == SavedPoints(data, it) && AbsOf(data', it) == AbsOf(data, it)
  {
    hide Encodable;
    forall i | 0 <= i < |it.offsets| && it.offsets[i].offset != 0
      ensures it.offsets[i].offset in data && it.offsets[i].offset in data'
      ensures data'[it.offsets[i].offset] == data[it.offsets[i].offset]
    {
      assert Holds(it, it.offsets[i].offset);
      assert i < |it.offsets| - 1 ==> ClosedOk(data, it.id, it.offsets[i]);
    }
    forall i | 0 <= i < |it.offsets| - 1 ensures ClosedOk(data', it.id, it.offsets[i]) {
      assert ClosedOk(data, it.id, it.offsets[i]);
    }
    var closed := Closed(it.offsets);
    forall i | 0 <= i < |closed| ensures closed[i].offset in data && closed[i].offset != 0 {
      assert ClosedOk(data, it.id, it.offsets[i]);
    }
    PointsFrame(data, data', closed);
  }

  /** A block store hands out an offset that is not live (DiskStorage.Store.ReserveBlock). */
  method Reserve(live: set<nat>) returns (off: nat)
    ensures off > 0 && off !in live
  {
    off := 64;
    var rest := live;
    while off in live
      invariant off >= 64 && rest <= live && forall x :: x in live && x !in rest ==> x < off
      decreases rest
    {
      rest := rest - {off};
      off := off + 1;
    }
  }

  // ----- adding points -----

  /** One point offered to a series: what is flushed as a complete block, the new memory
      and the answer (storage.c:877-902). */
  function Offered(n: nat, mem: seq<Point>, p: Point): (r: (bool, seq<Point>, AddStatus))
    requires n >= 192 && Encodable(mem) && IsInt64(p.t)
  {
    match AddOutcome(n, mem, p)
    case Added => (false, mem + [p], Added)
    case BlockFull => (true, [p], Added)
    case st => (false, mem, st)
  }

  /** How many leading points of a request are accepted; the first refusal ends it. */
  ghost function AcceptedCount(n: nat, mem: seq<Point>, ps: seq<Point>): (k: nat)
    requires n >= 192 && Encodable(mem) && (forall i :: 0 <= i < |ps| ==> IsInt64(ps[i].t))
    ensures k <= |ps|
    decreases |ps|
  {
    if ps == [] then 0
    else
      OfferedEncodable(n, mem, ps[0]);
      var r := Offered(n, mem, ps[0]);
      if r.2 != Added then 0 else 1 + AcceptedCount(n, r.1, ps[1..])
  }

  /** The memory a request leaves behind. */
  ghost function MemAfter(n: nat, mem: seq<Point>, ps: seq<Point>): (r: seq<Point>)
    requires n >= 192 && Encodable(mem) && (forall i :: 0 <= i < |ps| ==> IsInt64(ps[i].t))
    ensures Encodable(r)
    decreases |ps|
  {
    if ps == [] then mem
    else
      OfferedEncodable(n, mem, ps[0]);
      var r := Offered(n, mem, ps[0]);
      if r.2 != Added then mem else MemAfter(n, r.1, ps[1..])
  }

  /** One point fed to a series. */
  ghost function FedOne(n: nat, s: Series, p: Point): (r: Series)
    requires n >= 192 && Encodable(s.mem) && IsInt64(p.t)
    ensures Encodable(r.mem)
  {
    OfferedEncodable(n, s.mem, p);
    var r := Offered(n, s.mem, p);
    if r.0 then Series(s.closed + [s.mem], [], r.1) else s.(mem := r.1)
  }

  /** A request fed to a series; the first refusal ends it. */
  ghost function Fed(n: nat, s: Series, ps: seq<Point>): (r: Series)
    requires n >= 192 && Encodable(s.mem) && (forall i :: 0 <= i < |ps| ==> IsInt64(ps[i].t))
    ensures Encodable(r.mem)
    decreases |ps|
  {
    if ps == [] || Offered(n, s.mem, ps[0]).2 != Added then s else Fed(n, FedOne(n, s, ps[0]), ps[1..])
  }

  /** The leading blocks that start before t. */
  ghost function OldBlocks(blocks: seq<seq<Point>>, t: int): (r: nat)
    ensures r <= |blocks|
  {
    if blocks != [] && blocks[0] != [] && blocks[0][0].t < t then 1 + OldBlocks(blocks[1..], t) else 0
  }

  /** The blocks of a series that are on disk. */
  ghost function OnDisk(s: Series): seq<seq<Point>> { s.closed + if s.active == [] then [] else [s.active] }

  /** A series trimmed at t: of the leading blocks that start before t only the last is kept. */
  ghost function Trimmed(s: Series, t: int): Series
  {
    var gone := OldBlocks(OnDisk(s), t);
    if gone == 0 then s else s.(closed := s.closed[gone - 1..])
  }

  /** At most the first block on disk starts before t and is followed by one that does. */
  ghost predicate Tight(s: Series, t: int)
  {
    var b := OnDisk(s);
    |b| >= 2 && b[0] != [] && b[0][0].t < t && b[1] != [] ==> b[1][0].t >= t
  }

  /** The leading old blocks are old, and the block behind them is not. */
  lemma {:induction false} OldBlocksExact(blocks: seq<seq<Point>>, t: int)
    ensures var r := OldBlocks(blocks, t);
      && (forall i :: 0 <= i < r ==> blocks[i] != [] && blocks[i][0].t < t)
      && (r < |blocks| ==> blocks[r] == [] || blocks[r][0].t >= t)
  {
    if blocks != [] && blocks[0] != [] && blocks[0][0].t < t {
      OldBlocksExact(blocks[1..], t);
    }
  }

  /** A trim leaves nothing it could release: of the blocks left only the first may start before the
      cut, unless there was none to release. */
  lemma TrimmedTight(s: Series, t: int)
    ensures Tight(Trimmed(s, t), t) && Trimmed(s, t).active == s.active && Trimmed(s, t).mem == s.mem
    ensures exists k :: 0 <= k <= |s.closed| && Trimmed(s, t).closed == s.closed[k..]
  {
    hide OldBlocks;
    var gone := OldBlocks(OnDisk(s), t);
    OldBlocksExact(OnDisk(s), t);
    if gone > 0 {
      assert OnDisk(Trimmed(s, t)) == OnDisk(s)[gone - 1..];
    } else {
      assert s.closed == s.closed[0..];
    }
  }

  /** In a series whose blocks start one after the other, every block left but the first starts at or
      after the cut. */
  lemma TrimmedStarts(s: Series, t: int)
    requires forall i :: 0 <= i < |OnDisk(s)| ==> OnDisk(s)[i] != []
    requires forall i, j :: 0 <= i < j < |OnDisk(s)| ==> OnDisk(s)[i][0].t < OnDisk(s)[j][0].t
    ensures var b := OnDisk(Trimmed(s, t)); forall j :: 1 <= j < |b| ==> b[j] != [] && b[j][0].t >= t
  {
    hide OldBlocks;
    var all, gone := OnDisk(s), OldBlocks(OnDisk(s), t);
    OldBlocksExact(all, t);
    if gone > 0 {
      assert OnDisk(Trimmed(s, t)) == all[gone - 1..];
    }
  }

  /** A series after a crash and a load. */
  ghost function Reloaded(s: Series): Series { s.(mem := s.active) }

  /** Whenever a request fills a block, that block starts at a positive time: storage_write_disk
      asserts it when the block is written. */
  ghost predicate Flushable(n: nat, mem: seq<Point>, ps: seq<Point>)
    requires n >= 192 && Encodable(mem) && (forall i :: 0 <= i < |ps| ==> IsInt64(ps[i].t))
    decreases |ps|
  {
    ps == [] ||
    (OfferedEncodable(n, mem, ps[0]);
     var r := Offered(n, mem, ps[0]);
     (r.0 ==> mem[0].t > 0) && (r.2 == Added ==> Flushable(n, r.1, ps[1..])))
  }

  lemma FlushStep(n: nat, mem: seq<Point>, ps: seq<Point>)
    requires n >= 192 && Encodable(mem) && (forall i :: 0 <= i < |ps| ==> IsInt64(ps[i].t))
    requires Flushable(n, mem, ps) && ps != []
    ensures var r := Offered(n, mem, ps[0]);
      && Encodable(r.1) && (r.0 ==> mem != [] && mem[0].t > 0) && (r.2 == Added ==> Flushable(n, r.1, ps[1..]))
  {
    hide Encodable, AddOutcome;
    OfferedEncodable(n, mem, ps[0]);
  }

  /** Positive times can always be flushed. */
  lemma {:induction false} PositiveFlushable(n: nat, mem: seq<Point>, ps: seq<Point>)
    requires n >= 192 && Encodable(mem) && (mem != [] ==> mem[0].t > 0) && (forall i :: 0 <= i < |ps| ==> 0 < ps[i].t < TWO63)
    ensures Flushable(n, mem, ps)
    ensures MemAfter(n, mem, ps) != [] ==> MemAfter(n, mem, ps)[0].t > 0
    decreases |ps|
  {
    hide Encodable, AddOutcome;
    if ps != [] {
      OfferedEncodable(n, mem, ps[0]);
      PositiveFlushable(n, Offered(n, mem, ps[0]).1, ps[1..]);
    }
  }

  /** Once a point was accepted the memory is never empty again. */
  lemma {:induction false} MemAfterFilled(n: nat, mem: seq<Point>, ps: seq<Point>)
    requires n >= 192 && Encodable(mem) && (forall i :: 0 <= i < |ps| ==> IsInt64(ps[i].t))
    requires mem != [] || ps != []
    ensures MemAfter(n, mem, ps) != []
    decreases |ps|
  {
    hide Encodable, AddOutcome;
    if ps != [] {
      OfferedEncodable(n, mem, ps[0]);
      if mem == [] { RetryAdds(n, ps[0]); }
      var r := Offered(n, mem, ps[0]);
      if r.2 == Added { MemAfterFilled(n, r.1, ps[1..]); }
    }
  }

  /** A cleared compressor of at least 192 bits takes any point: the retry after a flush
      never fails. */
  lemma RetryAdds(n: nat, p: Point)
    requires n >= 192 && IsInt64(p.t)
    ensures Encodable([]) && AddOutcome(n, [], p) == Added && Encodable([p])
  {
    EmptyHeader();
    hide EncDouble;
    assert AddOutcome(n, [], p) == Added;
    var qs := [p];
    assert qs[..|qs| - 1] == [] && qs[|qs| - 1] == p;
    AppendUnfolds([], p, qs);
  }

  /** A full block is never an empty one. */
  lemma FullNotEmpty(n: nat, mem: seq<Point>, p: Point)
    requires n >= 192 && Encodable(mem) && IsInt64(p.t) && AddOutcome(n, mem, p) == BlockFull
    ensures mem != []
  {
    EmptyHeader();
  }

  lemma OfferedEncodable(n: nat, mem: seq<Point>, p: Point)
    requires n >= 192 && Encodable(mem) && IsInt64(p.t)
    ensures Encodable(Offered(n, mem, p).1)
    ensures Offered(n, mem, p).0 ==> mem != []
  {
    hide Encodable, HeaderOf;
    match AddOutcome(n, mem, p) {
      case Added =>
        assert Representable(HeaderOf(mem), p);
        var qs := mem + [p];
        assert qs[..|qs| - 1] == mem && qs[|qs| - 1] == p;
        AppendUnfolds(mem, p, qs);
      case BlockFull =>
        FullNotEmpty(n, mem, p);
        RetryAdds(n, p);
      case _ =>
    }
  }

  // ----- the whole store -----

  /** Series and files belong together: every live block is held by the series its id names,
      and every storable key of a series has its key block. */
  ghost predicate StoreOk(items: map<Key, Item>, list: seq<Key>, nextId: nat,
                          data: map<nat, DataBlock>, keys: map<nat, KeyBlock>, names: map<nat, Key>)
  {
    && (forall k :: k in items ==> ItemOk(data, items[k]) && items[k].id in names && names[items[k].id] == k)
    && (forall o :: o in data ==> data[o].id in names && names[data[o].id] in items
                                  && items[names[data[o].id]].id == data[o].id && Holds(items[names[data[o].id]], o))
    && (forall k :: k in items && Storable(k) ==> items[k].keyOffset in keys && keys[items[k].keyOffset] == KeyBlock(k, items[k].id))
    && (forall o :: o in keys ==> keys[o].key in items && Storable(keys[o].key) && items[keys[o].key].id == keys[o].id
                                  && items[keys[o].key].keyOffset == o)
    && 0 < nextId && (forall id :: id in names ==> 0 < id < nextId)
    && Distinct(list) && (forall k :: k in items <==> k in list)
  }

  /** The store at one moment: both block files, and series that explain them. */
  datatype Moment = Moment(items: map<Key, Item>, list: seq<Key>, nextId: nat,
                           data: map<nat, DataBlock>, keys: map<nat, KeyBlock>, names: map<nat, Key>)

  ghost predicate MomentOk(m: Moment) { StoreOk(m.items, m.list, m.nextId, m.data, m.keys, m.names) }

  /** The points of a key accepted by then, and those of them on disk. */
  ghost function HeldOf(m: Moment, key: Key): seq<Point>
  {
    if key in m.items then Contents(m.data, m.items[key]) else []
  }

  ghost function SavedOf(m: Moment, key: Key): seq<Point>
  {
    if key in m.items then SavedPoints(m.data, m.items[key]) else []
  }

  /** From one moment to a later one no series is lost, and no key loses points, neither
      accepted nor saved ones. */
  ghost predicate Follows(a: Moment, b: Moment)
  {
    && a.items.Keys <= b.items.Keys
    && forall key :: HeldOf(a, key) <= HeldOf(b, key) && SavedOf(a, key) <= SavedOf(b, key)
  }

  ghost predicate Suffix(a: seq<Point>, b: seq<Point>) { |a| <= |b| && b[|b| - |a|..] == a }

  /** From one moment to a later one no series is added, and keys lose old points at most,
      accepted and saved ones. */
  ghost predicate Shrinks(a: Moment, b: Moment)
  {
    && b.items.Keys <= a.items.Keys
    && forall key :: Suffix(HeldOf(b, key), HeldOf(a, key)) && Suffix(SavedOf(b, key), SavedOf(a, key))
  }

  lemma SuffixTransitive(x: seq<Point>, y: seq<Point>, z: seq<Point>)
    requires Suffix(y, x) && Suffix(z, y)
    ensures Suffix(z, x)
  {
    assert x[|x| - |z|..] == y[|y| - |z|..];
  }

  lemma ShrinksTransitive(a: Moment, b: Moment, c: Moment)
    requires Shrinks(a, b) && Shrinks(b, c)
    ensures Shrinks(a, c)
  {
    hide HeldOf, SavedOf, Suffix;
    forall key ensures Suffix(HeldOf(c, key), HeldOf(a, key)) && Suffix(SavedOf(c, key), SavedOf(a, key)) {
      SuffixTransitive(HeldOf(a, key), HeldOf(b, key), HeldOf(c, key));
      SuffixTransitive(SavedOf(a, key), SavedOf(b, key), SavedOf(c, key));
    }
  }

  lemma ShrinksItself(m: Moment)
    ensures Shrinks(m, m)
  {
    hide HeldOf, SavedOf;
    forall key ensures Suffix(HeldOf(m, key), HeldOf(m, key)) && Suffix(SavedOf(m, key), SavedOf(m, key)) { }
  }

  /** The moments recorded since there were t0 of them only lose points, one after the other. */
  ghost predicate Receded(base: Moment, t0: nat, trace: seq<Moment>, now: Moment)
  {
    && t0 <= |trace| && Shrinks(base, now)
    && forall i :: t0 <= i < |trace| ==> Shrinks(base, trace[i]) && Shrinks(trace[i], now)
  }

  lemma RecededNone(now: Moment, trace: seq<Moment>)
    ensures Receded(now, |trace|, trace, now)
  {
    hide Shrinks;
    ShrinksItself(now);
  }

  lemma RecededStep(base: Moment, t0: nat, trace: seq<Moment>, mid: Moment, now: Moment)
    requires Receded(base, t0, trace, mid) && Shrinks(mid, now)
    ensures Receded(base, t0, trace, now) && Receded(base, t0, trace + [now], now)
  {
    hide Shrinks;
    ShrinksTransitive(base, mid, now);
    ShrinksItself(now);
    forall i | t0 <= i < |trace| ensures Shrinks(trace[i], now) {
      ShrinksTransitive(trace[i], mid, now);
    }
  }

  /** The moments recorded since there were t0 of them lie between two moments. */
  ghost predicate Advanced(base: Moment, t0: nat, trace: seq<Moment>, now: Moment)
  {
    && t0 <= |trace| && Follows(base, now)
    && forall i :: t0 <= i < |trace| ==> Follows(base, trace[i]) && Follows(trace[i], now)
  }

  lemma FollowsTransitive(a: Moment, b: Moment, c: Moment)
    requires Follows(a, b) && Follows(b, c)
    ensures Follows(a, c)
  {
    hide HeldOf, SavedOf;
    forall key ensures HeldOf(a, key) <= HeldOf(c, key) && SavedOf(a, key) <= SavedOf(c, key) {
      assert HeldOf(a, key) <= HeldOf(b, key) && HeldOf(b, key) <= HeldOf(c, key);
      assert SavedOf(a, key) <= SavedOf(b, key) && SavedOf(b, key) <= SavedOf(c, key);
    }
  }

  lemma AdvancedTwice(base: Moment, t0: nat, trace: seq<Moment>, mid: Moment, trace': seq<Moment>, now: Moment)
    requires Advanced(base, t0, trace, mid) && Advanced(mid, |trace|, trace', now) && trace <= trace'
    ensures Advanced(base, t0, trace', now)
  {
    hide Follows;
    FollowsTransitive(base, mid, now);
    forall i | t0 <= i < |trace'| ensures Follows(base, trace'[i]) && Follows(trace'[i], now) {
      if i < |trace| {
        assert trace'[i] == trace[i];
        FollowsTransitive(trace[i], mid, now);
      } else {
        FollowsTransitive(base, mid, trace'[i]);
      }
    }
  }

  lemma AdvancedNone(now: Moment, trace: seq<Moment>)
    ensures Advanced(now, |trace|, trace, now)
  {
  }

  lemma AdvancedOnce(base: Moment, trace: seq<Moment>, now: Moment)
    requires Follows(base, now)
    ensures Advanced(base, |trace|, trace, now) && Advanced(base, |trace|, trace + [now], now)
  {
    hide HeldOf, SavedOf;
  }

  lemma StoreFrom(items: map<Key, Item>, list: seq<Key>, nextId: nat, data: map<nat, DataBlock>,
                  keys: map<nat, KeyBlock>, names: map<nat, Key>)
    requires forall k :: k in items ==> ItemOk(data, items[k]) && items[k].id in names && names[items[k].id] == k
    requires forall o :: o in data ==>
      data[o].id in names && names[data[o].id] in items
      && items[names[data[o].id]].id == data[o].id && Holds(items[names[data[o].id]], o)
    requires forall k :: k in items && Storable(k) ==> items[k].keyOffset in keys && keys[items[k].keyOffset] == KeyBlock(k, items[k].id)
    requires forall o :: o in keys ==>
      keys[o].key in items && Storable(keys[o].key) && items[keys[o].key].id == keys[o].id && items[keys[o].key].keyOffset == o
    requires 0 < nextId && forall id :: id in names ==> 0 < id < nextId
    requires Distinct(list) && forall k :: k in items <==> k in list
    ensures StoreOk(items, list, nextId, data, keys, names)
  {
    hide ItemOk, Storable, Distinct, Holds;
  }

  /** An offset a series holds is a live block of that series. */
  lemma HeldIsOwn(data: map<nat, DataBlock>, it: Item, o: nat)
    requires ItemOk(data, it) && Holds(it, o)
    ensures o in data && data[o].id == it.id
  {
    hide Encodable;
    var i :| 0 <= i < |it.offsets| && it.offsets[i].offset == o;
    assert i < |it.offsets| - 1 ==> ClosedOk(data, it.id, it.offsets[i]);
  }

  lemma StoreCovered(items: map<Key, Item>, list: seq<Key>, nextId: nat,
                     data: map<nat, DataBlock>, keys: map<nat, KeyBlock>, names: map<nat, Key>)
    requires StoreOk(items, list, nextId, data, keys, names)
    ensures Covered(data, keys, names)
  {
    hide ItemOk, Holds, Distinct, Storable;
    forall o | o in data ensures HasKeyBlock(keys, data[o].id) <==> Storable(names[data[o].id]) {
      var k := names[data[o].id];
      if Storable(k) {
        assert keys[items[k].keyOffset].id == data[o].id;
      }
      if HasKeyBlock(keys, data[o].id) {
        var ko :| ko in keys && keys[ko].id == data[o].id;
        assert names[items[keys[ko].key].id] == keys[ko].key;
      }
    }
    forall k, l | k in keys && l in keys && keys[k].id == keys[l].id ensures k == l {
      assert names[keys[k].id] == keys[k].key && names[keys[l].id] == keys[l].key;
    }
  }

  /** A series has its key block exactly when its key has at most 10230 bytes. */
  lemma KeyBlockExact(m: Moment, key: Key)
    requires MomentOk(m) && key in m.items
    ensures HasKeyBlock(m.keys, m.items[key].id) <==> |key| <= 10230
  {
    hide ItemOk, Holds, Distinct;
    var id := m.items[key].id;
    if |key| <= 10230 {
      assert Storable(key) && m.keys[m.items[key].keyOffset].id == id;
    }
    if HasKeyBlock(m.keys, id) {
      var ko :| ko in m.keys && m.keys[ko].id == id;
      assert m.names[id] == m.keys[ko].key && Storable(m.keys[ko].key);
    }
  }

  /** One series changes together with blocks only it holds. */
  lemma UpdateSeries(items: map<Key, Item>, list: seq<Key>, nextId: nat, data: map<nat, DataBlock>,
                     keys: map<nat, KeyBlock>, names: map<nat, Key>, key: Key, it: Item, data': map<nat, DataBlock>)
    requires StoreOk(items, list, nextId, data, keys, names) && key in items
    requires it.id == items[key].id && it.keyOffset == items[key].keyOffset && ItemOk(data', it)
    requires forall o :: o in data && !Holds(items[key], o) ==> o in data' && data'[o] == data[o]
    requires forall o :: o in data' ==> (o in data && data'[o] == data[o] && !Holds(items[key], o)) || Holds(it, o)
    ensures StoreOk(items[key := it], list, nextId, data', keys, names)
    ensures forall k :: k in items && k != key ==> Contents(data', items[k]) == Contents(data, items[k])
    ensures forall k :: k in items && k != key ==> SavedPoints(data', items[k]) == SavedPoints(data, items[k])
    ensures forall k :: k in items && k != key ==> AbsOf(data', items[k]) == AbsOf(data, items[k])
  {
    hide ItemOk, Holds, Distinct, Storable, Contents, SavedPoints, AbsOf;
    var items' := items[key := it];
    forall k | k in items && k != key
      ensures ItemOk(data', items[k]) && Contents(data', items[k]) == Contents(data, items[k])
      ensures SavedPoints(data', items[k]) == SavedPoints(data, items[k]) && AbsOf(data', items[k]) == AbsOf(data, items[k])
    {
      forall o | o in data && Holds(items[k], o) ensures o in data' && data'[o] == data[o] {
        HeldIsOwn(data, items[k], o);
        if Holds(items[key], o) {
          HeldIsOwn(data, items[key], o);
        }
      }
      ItemFrame(data, data', items[k]);
    }
    forall o | o in data'
      ensures data'[o].id in names && names[data'[o].id] in items'
      ensures items'[names[data'[o].id]].id == data'[o].id && Holds(items'[names[data'[o].id]], o)
    {
      if Holds(it, o) {
        HeldIsOwn(data', it, o);
      } else {
        assert Holds(items[names[data[o].id]], o);
      }
    }
  }
}
