/** struct the_storage and its operations on series (storage.c:530-581, 727-1178). */
module SeriesOps {
  import opened Basics
  import opened TscCodec
  import opened TscBlock
  import opened Words
  import opened SeriesStore

  datatype Error = ErrOk | LookupFailed | TooManyPoints | AddFailed(why: AddStatus)

  // ----- one series under each operation -----

  /** A block is written out for a series whose memory is not empty. */
  function WrittenItem(it: Item, off: nat, complete: bool): (r: Item)
    requires it.mem != []
    ensures r.id == it.id && r.keyOffset == it.keyOffset && r.mem == if complete then [] else it.mem
  {
    var slots := Closed(it.offsets) + [OffTime(off, it.mem[0].t)];
    if complete then it.(mem := [], offsets := slots + [OffTime(0, 0)]) else it.(offsets := slots)
  }

  /** The slots once the current block is at `off`. */
  function WrittenSlots(it: Item, off: nat): seq<OffTime>
    requires it.mem != []
  {
    Closed(it.offsets) + [OffTime(off, it.mem[0].t)]
  }

  /** `off` is where the current block of the series goes. */
  ghost predicate Placed(data: map<nat, DataBlock>, it: Item, off: nat)
  {
    && off != 0
    && (off in data ==> it.offsets != [] && it.offsets[|it.offsets| - 1].offset == off)
    && (off !in data ==> it.offsets == [] || it.offsets[|it.offsets| - 1].offset == 0)
  }

  lemma ClosedKept(data: map<nat, DataBlock>, it: Item, off: nat, b: DataBlock)
    requires ItemOk(data, it) && Placed(data, it, off)
    ensures forall i :: 0 <= i < |Closed(it.offsets)| ==>
      Closed(it.offsets)[i].offset != off && Closed(it.offsets)[i].offset in data && ClosedOk(data[off := b], it.id, Closed(it.offsets)[i])
    ensures Points(data[off := b], Closed(it.offsets)) == Points(data, Closed(it.offsets))
  {
    hide Encodable;
    var closed := Closed(it.offsets);
    forall i | 0 <= i < |closed|
      ensures ClosedOk(data, it.id, closed[i]) && closed[i].offset != off && ClosedOk(data[off := b], it.id, closed[i])
    {
      assert closed[i] == it.offsets[i] && ClosedOk(data, it.id, it.offsets[i]);
    }
    PointsFrame(data, data[off := b], closed);
  }

  /** What storage_write_disk leaves: the series is intact, its contents unchanged. */
  lemma WrittenOk(data: map<nat, DataBlock>, it: Item, off: nat, complete: bool)
    requires ItemOk(data, it) && it.mem != [] && it.mem[0].t > 0 && Placed(data, it, off)
    ensures var data' := data[off := DataBlock(complete, it.id, it.mem)];
      var it' := WrittenItem(it, off, complete);
      && ItemOk(data', it') && Contents(data', it') == Contents(data, it)
      && SavedPoints(data', it') == Contents(data', it')
      && AbsOf(data', it') == WrittenSeries(AbsOf(data, it), complete)
  {
    hide Encodable, AbsOf, ItemOk, Points, WrittenItem;
    WrittenItemOk(data, it, off, complete);
    WrittenPoints(data, it, off, complete);
    WrittenBlocks(data, it, off, complete);
  }

  lemma WrittenItemOk(data: map<nat, DataBlock>, it: Item, off: nat, complete: bool)
    requires ItemOk(data, it) && it.mem != [] && it.mem[0].t > 0 && Placed(data, it, off)
    ensures ItemOk(data[off := DataBlock(complete, it.id, it.mem)], WrittenItem(it, off, complete))
  {
    hide Encodable, Points;
    var b := DataBlock(complete, it.id, it.mem);
    var data', it' := data[off := b], WrittenItem(it, off, complete);
    var closed := Closed(it.offsets);
    ClosedKept(data, it, off, b);
    DistinctSlots(data, it, off);
    EmptyHeader();
    forall i | 0 <= i < |it'.offsets| - 1 ensures ClosedOk(data', it.id, it'.offsets[i]) {
      if i < |closed| { assert it'.offsets[i] == closed[i]; }
    }
  }

  lemma WrittenPoints(data: map<nat, DataBlock>, it: Item, off: nat, complete: bool)
    requires ItemOk(data, it) && it.mem != [] && Placed(data, it, off)
    ensures var data' := data[off := DataBlock(complete, it.id, it.mem)];
      var it' := WrittenItem(it, off, complete);
      Contents(data', it') == Contents(data, it) && SavedPoints(data', it') == Contents(data', it')
  {
    hide Encodable, ItemOk;
    var b := DataBlock(complete, it.id, it.mem);
    var data', it' := data[off := b], WrittenItem(it, off, complete);
    var closed, slots := Closed(it.offsets), WrittenSlots(it, off);
    ClosedKept(data, it, off, b);
    assert slots[..|slots| - 1] == closed;
    assert Points(data', slots) == Points(data', closed) + it.mem;
    assert Closed(it'.offsets) == if complete then slots else closed;
    assert it'.offsets[|it'.offsets| - 1].offset == if complete then 0 else off;
  }

  /** The series once its memory is on disk. */
  function WrittenSeries(s: Series, complete: bool): Series
  {
    if complete then Series(s.closed + [s.mem], [], []) else s.(active := s.mem)
  }

  lemma WrittenBlocks(data: map<nat, DataBlock>, it: Item, off: nat, complete: bool)
    requires ItemOk(data, it) && it.mem != [] && Placed(data, it, off)
    ensures var data' := data[off := DataBlock(complete, it.id, it.mem)];
      AbsOf(data', WrittenItem(it, off, complete)) == WrittenSeries(AbsOf(data, it), complete)
  {
    hide Encodable, Points, ItemOk;
    var b := DataBlock(complete, it.id, it.mem);
    var data', it' := data[off := b], WrittenItem(it, off, complete);
    var closed, slots := Closed(it.offsets), WrittenSlots(it, off);
    ClosedKept(data, it, off, b);
    SamePoints(data, data', closed);
    assert Closed(it'.offsets) == if complete then slots else closed;
    assert BlockPoints(data', slots) == BlockPoints(data', closed) + [it.mem];
    assert it'.offsets[|it'.offsets| - 1].offset == if complete then 0 else off;
  }

  lemma SamePoints(data: map<nat, DataBlock>, data': map<nat, DataBlock>, slots: seq<OffTime>)
    requires forall i :: 0 <= i < |slots| ==>
      slots[i].offset in data && slots[i].offset in data' && data'[slots[i].offset] == data[slots[i].offset]
    ensures BlockPoints(data', slots) == BlockPoints(data, slots)
  {
  }

  lemma DistinctSlots(data: map<nat, DataBlock>, it: Item, off: nat)
    requires ItemOk(data, it) && it.mem != [] && Placed(data, it, off)
    ensures var s := WrittenSlots(it, off) + [OffTime(0, 0)];
      forall i, j :: 0 <= i < j < |s| ==> s[i].offset != s[j].offset
  {
    hide Encodable, Points;
    ClosedKept(data, it, off, DataBlock(true, 0, []));
    var closed, s := Closed(it.offsets), WrittenSlots(it, off) + [OffTime(0, 0)];
    forall i | 0 <= i < |closed| ensures s[i].offset != 0 && s[i].offset != off {
      assert s[i] == closed[i] && ClosedOk(data[off := DataBlock(true, 0, [])], it.id, closed[i]);
    }
    forall i, j | 0 <= i < j < |closed| ensures s[i].offset != s[j].offset {
      assert s[i] == it.offsets[i] && s[j] == it.offsets[j];
    }
  }

  /** Who holds what after the write. */
  lemma WrittenHolds(data: map<nat, DataBlock>, it: Item, off: nat, complete: bool)
    requires ItemOk(data, it) && it.mem != [] && Placed(data, it, off)
    ensures var data' := data[off := DataBlock(complete, it.id, it.mem)];
      var it' := WrittenItem(it, off, complete);
      && (forall o :: o in data && !Holds(it, o) ==> o in data' && data'[o] == data[o])
      && (forall o :: o in data' ==> (o in data && data'[o] == data[o] && !Holds(it, o)) || Holds(it', o))
  {
    hide ItemOk, Points;
    var it' := WrittenItem(it, off, complete);
    var closed := Closed(it.offsets);
    assert it'.offsets[|closed|].offset == off;
    assert Holds(it', off);
    if off in data { assert Holds(it, off); }
    forall o | o in data && Holds(it, o) && o != off ensures Holds(it', o) {
      var i :| 0 <= i < |it.offsets| && it.offsets[i].offset == o;
      assert i < |closed| && it'.offsets[i] == closed[i];
    }
  }

  /** A point goes into memory. */
  lemma AddedOk(data: map<nat, DataBlock>, it: Item, p: Point)
    requires ItemOk(data, it) && Encodable(it.mem + [p])
    ensures var it' := it.(mem := it.mem + [p]);
      && ItemOk(data, it') && Contents(data, it') == Contents(data, it) + [p]
      && SavedPoints(data, it') == SavedPoints(data, it)
      && AbsOf(data, it') == AbsOf(data, it).(mem := it.mem + [p])
  {
    hide Encodable, Points;
    var it' := it.(mem := it.mem + [p]);
    assert forall i :: 0 <= i < |it.offsets| - 1 ==> ClosedOk(data, it.id, it.offsets[i]);
  }

  class Storage {
    const n: nat
    var items: map<Key, Item>
    var list: seq<Key>
    var nextId: nat
    var data: map<nat, DataBlock>
    var keys: map<nat, KeyBlock>
    ghost var names: map<nat, Key>
    /** The two files after every disk operation so far, with the series they hold. */
    ghost var trace: seq<Moment>

    ghost predicate Valid()
      reads this
    {
      && n >= 192 && StoreOk(items, list, nextId, data, keys, names)
      && forall i :: 0 <= i < |trace| ==> MomentOk(trace[i])
    }

    ghost function Now(): Moment reads this { Moment(items, list, nextId, data, keys, names) }

    /** Since a given moment, with so many disk operations done, no key has lost points. */
    ghost predicate Since(base: Moment, t0: nat)
      reads this
    {
      Advanced(base, t0, trace, Now())
    }

    /** What storage_get would return for every series. */
    ghost function View(key: Key): seq<Point>
      requires key in items
      reads this
    {
      Contents(data, items[key])
    }

    /** The series without its ids, offsets and files. */
    ghost function Abs(key: Key): Series
      requires key in items
      reads this
    {
      AbsOf(data, items[key])
    }

    /** storage_init on empty files. */
    constructor (bits: nat)
      requires bits >= 192
      ensures Valid() && n == bits && items == map[] && trace == []
    {
      n := bits;
      items, list, nextId := map[], [], 1;
      data, keys := map[], map[];
      names, trace := map[], [];
    }

    /** storage_init on existing files, before storage_load has run. */
    constructor Restart(bits: nat, d: map<nat, DataBlock>, k: map<nat, KeyBlock>, ghost given: map<nat, Key>)
      ensures n == bits && items == map[] && list == [] && nextId == 1
      ensures data == d && keys == k && names == given && trace == []
    {
      n := bits;
      items, list, nextId := map[], [], 1;
      data, keys := d, k;
      names, trace := given, [];
    }

    // ----- disk operations; each one is a point where the process may stop -----

    method PutData(off: nat, b: DataBlock, ghost series: map<Key, Item>)
      requires StoreOk(series, list, nextId, data[off := b], keys, names)
      modifies this`data, this`trace
      ensures data == old(data)[off := b]
      ensures trace == old(trace) + [Moment(series, list, nextId, data, keys, names)]
    {
      data := data[off := b];
      trace := trace + [Moment(series, list, nextId, data, keys, names)];
    }

    method ReleaseData(off: nat, ghost series: map<Key, Item>)
      requires StoreOk(series, list, nextId, data - {off}, keys, names)
      modifies this`data, this`trace
      ensures data == old(data) - {off}
      ensures trace == old(trace) + [Moment(series, list, nextId, data, keys, names)]
    {
      data := data - {off};
      trace := trace + [Moment(series, list, nextId, data, keys, names)];
    }

    /** storage_get_item with insertion: a new series gets the next id and, when its record
        fits the buffer, a key block before it can have any data. The result of
        storage_write_key_and_internal_id is not looked at. */
    method GetItem(key: Key)
      requires Valid() && key != []
      modifies this
      ensures Valid() && key in items
      ensures old(key in items) ==> items == old(items) && data == old(data) && list == old(list)
      ensures old(key !in items) ==> items == old(items)[key := items[key]] && View(key) == [] && items[key].mem == []
      ensures old(key !in items) ==> Abs(key) == NEW_SERIES
      ensures old(key !in items) ==> list == old(list) + [key] && data == old(data)
      ensures old(trace) <= trace && Since(old(Now()), |old(trace)|)
    {
      hide AbsOf, ItemOk, Contents, Storable, StoreOk, Advanced, Follows;
      if key in items {
        AdvancedNone(Now(), trace);
        return;
      }
      ghost var before := Now();
      NextIdPositive(items, list, nextId, data, keys, names);
      var id := nextId;
      nextId := nextId + 1;
      list := list + [key];
      ghost var names' := names[id := key];
      var item := Item(id, 0, [], []);
      if Storable(key) {
        var off := Reserve(keys.Keys);
        InsertOk(items, old(list), id, data, keys, names, key, off);
        keys := keys[off := KeyBlock(key, id)];
        item := item.(keyOffset := off);
        names := names';
        items := items[key := item];
        trace := trace + [Now()];
      } else {
        InsertOk(items, old(list), id, data, keys, names, key, 0);
        names := names';
        items := items[key := item];
      }
      EmptyItem(data, item);
      NewSeriesFollows(before, Now(), key);
      AdvancedOnce(before, old(trace), Now());
    }

    /** storage_write_disk */
    method WriteDisk(key: Key, complete: bool)
      requires Valid() && key in items && items[key].mem != [] && items[key].mem[0].t > 0
      modifies this
      ensures Valid() && list == old(list) && old(trace) <= trace
      ensures items.Keys == old(items.Keys) && forall k :: k in items && k != key ==> items[k] == old(items[k])
      ensures forall k :: k in items ==> View(k) == old(View(k))
      ensures items[key].mem == if complete then [] else old(items[key].mem)
      ensures Since(old(Now()), |old(trace)|) && SavedOf(Now(), key) == HeldOf(Now(), key)
      ensures forall k :: k in items && k != key ==> Abs(k) == old(Abs(k))
      ensures Abs(key) == WrittenSeries(old(Abs(key)), complete)
    {
      hide AbsOf, StoreOk, ItemOk, Contents, Storable, WrittenItem, SyncedItem, Holds, Advanced, Follows, SavedPoints;
      var item := items[key];
      ItemsOk(items, list, nextId, data, keys, names, key);
      ghost var before := Now();
      ghost var data0, items0 := data, items;
      var off;
      if item.offsets == [] || item.offsets[|item.offsets| - 1].offset == 0 {
        off := Reserve(data.Keys);
      } else {
        // once the start time has been recorded, it does not change
        assert item.offsets[|item.offsets| - 1].start == item.mem[0].t && item.offsets[|item.offsets| - 1].offset in data by {
          CurrentStart(data, item);
        }
        off := item.offsets[|item.offsets| - 1].offset;
      }
      WrittenOk(data, item, off, complete);
      WrittenHolds(data, item, off, complete);
      ghost var data' := data[off := DataBlock(complete, item.id, item.mem)];
      UpdateSeries(items, list, nextId, data, keys, names, key, WrittenItem(item, off, complete), data');
      PutData(off, DataBlock(complete, item.id, item.mem), items[key := WrittenItem(item, off, complete)]);
      items := items[key := WrittenItem(item, off, complete)];
      SavedOk(data0, item);
      WrittenFollows(before, Now(), key);
      AdvancedOnce(before, old(trace), Now());
    }

    /** storage_write: the accepted prefix is appended to the series; nothing else changes. */
    method Write(key: Key, ps: seq<Point>) returns (err: Error)
      requires Valid() && key != [] && (forall i :: 0 <= i < |ps| ==> IsInt64(ps[i].t))
      requires Encodable(MemoryOf(key)) && Flushable(n, MemoryOf(key), ps)
      modifies this
      ensures Valid() && old(trace) <= trace && items.Keys == old(items.Keys) + {key}
      ensures Since(old(Now()), |old(trace)|)
      ensures list == old(list) + if old(key in items) then [] else [key]
      ensures old(MemoryOf(key)) == [] || old(key in items)
      ensures var k := AcceptedCount(n, old(MemoryOf(key)), ps);
        && (err == ErrOk <==> k == |ps|)
        && View(key) == old(if key in items then View(key) else []) + ps[..k]
        && items[key].mem == MemAfter(n, old(MemoryOf(key)), ps)
      ensures forall x :: x in old(items) && x != key ==> View(x) == old(View(x)) && items[x] == old(items[x])
      ensures forall x :: x in old(items) && x != key ==> Abs(x) == old(Abs(x))
      ensures Abs(key) == Fed(n, old(if key in items then Abs(key) else NEW_SERIES), ps)
    {
      hide Fed, AbsOf, StoreOk, ItemOk, Contents, Encodable, AcceptedCount, MemAfter, Flushable, Advanced, Follows;
      GetItem(key);
      ghost var mid, done := Now(), trace;
      err := WritePoints(key, ps);
      AdvancedTwice(old(Now()), |old(trace)|, done, mid, trace, Now());
    }

    ghost function MemoryOf(key: Key): seq<Point>
      reads this
    {
      if key in items then items[key].mem else []
    }

    /** The loop of storage_write. */
    method WritePoints(key: Key, ps: seq<Point>) returns (err: Error)
      requires Valid() && key in items && (forall i :: 0 <= i < |ps| ==> IsInt64(ps[i].t))
      requires Encodable(items[key].mem) && Flushable(n, items[key].mem, ps)
      modifies this
      ensures Valid() && old(trace) <= trace && items.Keys == old(items.Keys) && list == old(list)
      ensures Since(old(Now()), |old(trace)|)
      ensures var k := AcceptedCount(n, old(items[key].mem), ps);
        (err == ErrOk <==> k == |ps|) && View(key) == old(View(key)) + ps[..k]
      ensures items[key].mem == MemAfter(n, old(items[key].mem), ps)
      ensures forall x :: x in items && x != key ==> View(x) == old(View(x)) && items[x] == old(items[x]) && Abs(x) == old(Abs(x))
      ensures Abs(key) == Fed(n, old(Abs(key)), ps)
    {
      hide Fed, FedOne, AbsOf, StoreOk, ItemOk, Contents, AddOutcome, Encodable, AcceptedCount, MemAfter, Flushable, Advanced, Follows;
      AdvancedNone(Now(), trace);
      ghost var total := AcceptedCount(n, items[key].mem, ps);
      var i := 0;
      assert ps[0..] == ps && ps[..0] == [];
      while i < |ps|
        invariant 0 <= i <= |ps|
        invariant Valid() && old(trace) <= trace && items.Keys == old(items.Keys) && list == old(list)
        invariant Since(old(Now()), |old(trace)|)
        invariant Encodable(items[key].mem) && Flushable(n, items[key].mem, ps[i..])
        invariant total == i + AcceptedCount(n, items[key].mem, ps[i..])
        invariant MemAfter(n, old(items[key].mem), ps) == MemAfter(n, items[key].mem, ps[i..])
        invariant View(key) == old(View(key)) + ps[..i]
        invariant Abs(key).mem == items[key].mem && Fed(n, old(Abs(key)), ps) == Fed(n, Abs(key), ps[i..])
        invariant forall x :: x in items && x != key ==> View(x) == old(View(x)) && items[x] == old(items[x]) && Abs(x) == old(Abs(x))
      {
        var p := ps[i];
        OfferedEncodable(n, items[key].mem, p);
        CountUnfolds(n, items[key].mem, ps[i..]);
        assert ps[i..][1..] == ps[i + 1..] && ps[..i + 1] == ps[..i] + [p];
        FlushStep(n, items[key].mem, ps[i..]);
        FedUnfolds(n, Abs(key), ps[i..]);
        ghost var mid, done := Now(), trace;
        var st := WritePoint(key, p);
        AdvancedTwice(old(Now()), |old(trace)|, done, mid, trace, Now());
        if st != Added {
          return AddFailed(st);
        }
        i := i + 1;
      }
      CountUnfolds(n, items[key].mem, ps[i..]);
      FedUnfolds(n, Abs(key), ps[i..]);
      assert ps[..i] == ps;
      err := ErrOk;
    }

    /** One point: tsc_add, and once more on a new block when the old one is full. */
    method WritePoint(key: Key, p: Point) returns (st: AddStatus)
      requires Valid() && key in items && IsInt64(p.t) && Encodable(items[key].mem)
      requires Offered(n, items[key].mem, p).0 ==> items[key].mem != [] && items[key].mem[0].t > 0
      modifies this
      ensures Valid() && old(trace) <= trace && items.Keys == old(items.Keys) && list == old(list)
      ensures Since(old(Now()), |old(trace)|)
      ensures var r := Offered(n, old(items[key].mem), p); st == r.2 && items[key].mem == r.1
      ensures View(key) == old(View(key)) + if st == Added then [p] else []
      ensures forall x :: x in items && x != key ==> View(x) == old(View(x)) && items[x] == old(items[x]) && Abs(x) == old(Abs(x))
      ensures Abs(key) == FedOne(n, old(Abs(key)), p)
    {
      hide AbsOf, StoreOk, ItemOk, Contents, AddOutcome, Encodable, Advanced, Follows;
      OfferedEncodable(n, items[key].mem, p);
      AdvancedNone(Now(), trace);
      st := AddOutcome(n, items[key].mem, p);
      if st == BlockFull {
        NextBlock(key, p);
        st := AddOutcome(n, items[key].mem, p);
      }
      if st != Added {
        return;
      }
      ghost var mid, done := Now(), trace;
      AddToMemory(key, p);
      AdvancedTwice(old(Now()), |old(trace)|, done, mid, trace, Now());
    }

    /** A full block goes to disk, after which the point is accepted. */
    method NextBlock(key: Key, p: Point)
      requires Valid() && key in items && IsInt64(p.t) && Encodable(items[key].mem)
      requires items[key].mem != [] && items[key].mem[0].t > 0
      modifies this
      ensures Valid() && old(trace) <= trace && items.Keys == old(items.Keys) && list == old(list)
      ensures Since(old(Now()), |old(trace)|)
      ensures items[key].mem == [] && Encodable([]) && AddOutcome(n, [], p) == Added && Encodable([p]) && [] + [p] == [p]
      ensures View(key) == old(View(key))
      ensures forall x :: x in items && x != key ==> View(x) == old(View(x)) && items[x] == old(items[x]) && Abs(x) == old(Abs(x))
      ensures Abs(key) == WrittenSeries(old(Abs(key)), true)
    {
      hide AbsOf, StoreOk, ItemOk, Contents, AddOutcome, Encodable, Advanced;
      WriteDisk(key, true);
      RetryAdds(n, p);
    }

    /** A successful tsc_add on the series' compressor. */
    method AddToMemory(key: Key, p: Point)
      requires Valid() && key in items && Encodable(items[key].mem + [p])
      modifies this`items
      ensures Valid() && items == old(items)[key := old(items[key]).(mem := old(items[key].mem) + [p])]
      ensures View(key) == old(View(key)) + [p]
      ensures forall x :: x in items && x != key ==> View(x) == old(View(x)) && Abs(x) == old(Abs(x))
      ensures Abs(key) == old(Abs(key)).(mem := old(items[key].mem) + [p])
      ensures Since(old(Now()), |old(trace)|)
    {
      hide AbsOf, StoreOk, ItemOk, Contents, Encodable, Advanced, Follows, SavedPoints;
      ghost var before := Now();
      ItemsOk(items, list, nextId, data, keys, names, key);
      AddedOk(data, items[key], p);
      OwnBlocks(items, list, nextId, data, keys, names, key);
      var item := items[key].(mem := items[key].mem + [p]);
      UpdateSeries(items, list, nextId, data, keys, names, key, item, data);
      items := items[key := item];
      AddedFollows(before, Now(), key);
      AdvancedOnce(before, trace, Now());
    }

    /** storage_sync: afterwards every series' memory is also in its ACTIVE block. The C
        code asserts that no series has an empty compressor or starts a block at a time of zero
        or below. */
    method Sync()
      requires Valid() && forall k :: k in items ==> items[k].mem != [] && items[k].mem[0].t > 0
      modifies this
      ensures Valid() && list == old(list) && old(trace) <= trace
      ensures items.Keys == old(items.Keys)
      ensures forall k :: k in items ==> View(k) == old(View(k)) && items[k].mem == old(items[k].mem)
      ensures forall k :: k in items ==> SyncedItem(data, items[k])
      ensures forall k :: k in items ==> Abs(k) == WrittenSeries(old(Abs(k)), false)
      ensures Since(old(Now()), |old(trace)|)
    {
      hide AbsOf, WrittenSeries, StoreOk, ItemOk, Contents, Encodable, Advanced, Follows, SavedOf, HeldOf, SyncedItem,
           SyncedUpTo;
      AdvancedNone(Now(), trace);
      ListedItems(items, list, nextId, data, keys, names);
      NoneSynced(Now());
      var i := 0;
      while i < |list|
        invariant 0 <= i <= |list| && list == old(list) && items.Keys == old(items.Keys)
        invariant Valid() && old(trace) <= trace && Since(old(Now()), |old(trace)|)
        invariant SyncedUpTo(old(Now()), Now(), i)
      {
        ghost var mid, done := Now(), trace;
        SyncNext(old(Now()), mid, i);
        WriteDisk(list[i], false);
        SyncStep(old(Now()), mid, Now(), i);
        AdvancedTwice(old(Now()), |old(trace)|, done, mid, trace, Now());
        i := i + 1;
      }
      AllSynced(old(Now()), Now());
    }

    /** storage_get: complete blocks from disk, then memory. */
    method Get(key: Key, maxPts: nat) returns (err: Error, out: seq<Point>)
      requires Valid()
      ensures err == if key !in items then LookupFailed else if |View(key)| > maxPts then TooManyPoints else ErrOk
      ensures err == ErrOk ==> out == View(key)
    {
      hide StoreOk, ItemOk, Encodable;
      out := [];
      if key !in items {
        return LookupFailed, out;
      }
      var item := items[key];
      ItemsOk(items, list, nextId, data, keys, names, key);
      var i := 0;
      ghost var closed := Closed(item.offsets);
      assert closed[..0] == [];
      while i < |item.offsets|
        invariant 0 <= i <= |item.offsets|
        invariant i <= |closed| ==> out == Points(data, closed[..i])
        invariant i > |closed| ==> out == Points(data, closed)
        invariant |out| <= maxPts
      {
        SlotKind(data, item, i);
        var off := item.offsets[i].offset;
        if off != 0 {
          if !data[off].complete {
            assert i == |item.offsets| - 1;
            assert closed[..i] == closed;
            break;
          }
          assert i < |closed| && closed[..i + 1][..i] == closed[..i] && closed[..i + 1][i] == item.offsets[i];
          assert Points(data, closed[..i + 1]) == Points(data, closed[..i]) + data[off].pts;
          if |out| + |data[off].pts| > maxPts {
            PointsPrefix(data, closed, i + 1);
            return TooManyPoints, [];
          }
          out := out + data[off].pts;
        } else {
          assert closed[..i] == closed;
        }
        i := i + 1;
      }
      assert closed[..|closed|] == closed;
      if |out| + |item.mem| > maxPts {
        return TooManyPoints, [];
      }
      out := out + item.mem;
      err := ErrOk;
    }

    /** storage_trim_and_write_to_disk: whole blocks older than the cut are released; the
        series is marked for deletion by the last timestamp in memory alone. */
    method Trim(key: Key, t: int) returns (shouldDelete: bool)
      requires Valid() && key in items
      modifies this
      ensures Valid() && old(trace) <= trace && items.Keys == old(items.Keys) && list == old(list)
      ensures shouldDelete <==> LastTime(old(items[key].mem)) < t
      ensures shouldDelete ==> items == old(items) && data == old(data)
      ensures !shouldDelete ==> var save := SaveIndex(old(items[key].offsets), t);
        && items == old(items)[key := old(items[key]).(offsets := old(items[key].offsets)[save..])]
        && (forall o :: o in data <==> o in old(data) && !Among(old(items[key].offsets)[..save], o))
        && old(View(key)) == Points(old(data), old(items[key].offsets)[..save]) + View(key)
        && Abs(key) == Trimmed(old(Abs(key)), t) && Tight(Abs(key), t)
      ensures forall x :: x in items && x != key ==> View(x) == old(View(x)) && Abs(x) == old(Abs(x))
      ensures Receded(old(Now()), |old(trace)|, trace, Now())
    {
      hide StoreOk, ItemOk, Contents, Encodable, Points, SavedPoints, SaveIndex, Holds, Among, Receded, AbsOf, Trimmed, Tight;
      var item := items[key];
      ItemsOk(items, list, nextId, data, keys, names, key);
      if LastTime(item.mem) < t {
        RecededNone(Now(), trace);
        return true;
      }
      shouldDelete := false;
      var save := FindSave(data, item, t);
      ghost var data0 := data;
      ReleaseSlots(key, save);
      TrimmedOk(data0, data, item, save);
      TrimmedSeries(data0, data, item, t);
      TrimmedTight(AbsOf(data0, item), t);
      ghost var it' := item.(offsets := item.offsets[save..]);
      UpdateSeries(items, list, nextId, data0, keys, names, key, it', data);
      items := items[key := item.(offsets := item.offsets[save..])];
    }

    /** The loop that releases the first blocks of a series, oldest first. */
    method ReleaseSlots(key: Key, count: nat)
      requires Valid() && key in items && count <= |items[key].offsets|
      requires forall i :: 0 <= i < count ==> items[key].offsets[i].offset != 0
      modifies this`data, this`trace
      ensures old(trace) <= trace && forall j :: 0 <= j < |trace| ==> MomentOk(trace[j])
      ensures forall o :: o in data ==> o in old(data) && data[o] == old(data)[o]
      ensures forall o :: o in data <==> o in old(data) && !Among(items[key].offsets[..count], o)
      ensures StoreOk(items[key := items[key].(offsets := items[key].offsets[count..])], list, nextId, data, keys, names)
      ensures Receded(old(Now()), |old(trace)|, trace,
                      Moment(items[key := items[key].(offsets := items[key].offsets[count..])], list, nextId, data, keys, names))
    {
      hide StoreOk, Shrinks, Receded;
      ghost var at := Now();
      RecededNone(at, trace);
      var item := items[key];
      assert item.offsets[0..] == item.offsets && items[key := item] == items;
      var i := 0;
      while i < count
        invariant 0 <= i <= count && old(trace) <= trace
        invariant StoreOk(items[key := item.(offsets := item.offsets[i..])], list, nextId, data, keys, names)
        invariant forall o :: o in data ==> o in old(data) && data[o] == old(data)[o]
        invariant forall o :: o in data <==> o in old(data) && !Among(item.offsets[..i], o)
        invariant forall j :: 0 <= j < |trace| ==> MomentOk(trace[j])
        invariant at == Moment(items[key := item.(offsets := item.offsets[i..])], list, nextId, data, keys, names)
        invariant Receded(old(Now()), |old(trace)|, trace, at)
      {
        AmongNext(item.offsets, i);
        ReleaseFirst(items, list, nextId, data, keys, names, key, i);
        ghost var next := Moment(items[key := item.(offsets := item.offsets[i + 1..])], list, nextId,
                                 data - {item.offsets[i].offset}, keys, names);
        RecededStep(old(Now()), |old(trace)|, trace, at, next);
        at := next;
        ReleaseData(item.offsets[i].offset, items[key := item.(offsets := item.offsets[i + 1..])]);
        i := i + 1;
      }
    }

    /** The same for all blocks of a series; a slot that was never written ends the loop. */
    method ReleaseAll(key: Key) returns (ghost at: Moment)
      requires Valid() && key in items
      modifies this`data, this`trace
      ensures old(trace) <= trace && forall j :: 0 <= j < |trace| ==> MomentOk(trace[j])
      ensures forall o :: o in data ==> o in old(data) && data[o] == old(data)[o]
      ensures forall o :: o in data <==> o in old(data) && !Among(items[key].offsets, o)
      ensures Receded(old(Now()), |old(trace)|, trace, at) && at.data == data
      ensures at.items - {key} == items - {key}
    {
      hide StoreOk, ItemOk, Receded, Contents;
      var offsets := items[key].offsets;
      ItemsOk(items, list, nextId, data, keys, names, key);
      var count := 0;
      while count < |offsets| && offsets[count].offset != 0
        invariant 0 <= count <= |offsets| && forall i :: 0 <= i < count ==> offsets[i].offset != 0
        modifies {}
      {
        count := count + 1;
      }
      if count < |offsets| {
        SlotKind(data, items[key], count);
        assert count == |offsets| - 1;
        NoZeroBlock(items, list, nextId, data, keys, names);
        AmongNext(offsets, count);
      }
      assert offsets[..|offsets|] == offsets;
      ReleaseSlots(key, count);
      at := Moment(items[key := items[key].(offsets := offsets[count..])], list, nextId, data, keys, names);
    }

    /** storage_delete_item: data blocks first, the key block last. */
    method DeleteItem(key: Key)
      requires Valid() && key in items && Storable(key)
      modifies this
      ensures Valid() && old(trace) <= trace && items == old(items) - {key}
      ensures list == Without(old(list), key)
      ensures forall x :: x in items ==> View(x) == old(View(x)) && Abs(x) == old(Abs(x))
      ensures forall o :: o in data <==> o in old(data) && !Among(old(items[key].offsets), o)
      ensures Receded(old(Now()), |old(trace)|, trace, Now())
    {
      hide StoreOk, ItemOk, Contents, Encodable, Points, Receded, Shrinks, AbsOf;
      var item := items[key];
      ItemsOk(items, list, nextId, data, keys, names, key);
      ghost var data0 := data;
      ghost var at := ReleaseAll(key);
      RemoveSeries(items, list, nextId, data0, keys, names, key, data);
      keys := keys - {item.keyOffset};
      items := items - {key};
      list := Without(list, key);
      GoneShrinks(at, Now(), key);
      RecededStep(old(Now()), |old(trace)|, trace, at, Now());
      trace := trace + [Now()];
    }
  }

  /** A series that is gone has lost all its points. */
  lemma GoneShrinks(a: Moment, b: Moment, key: Key)
    requires b.data == a.data && b.items == a.items - {key}
    ensures Shrinks(a, b)
  {
    hide Contents, SavedPoints;
  }

  /** A new, empty series loses nothing. */
  lemma NewSeriesFollows(a: Moment, b: Moment, key: Key)
    requires key !in a.items && b.data == a.data && (forall k :: k in a.items ==> k in b.items && b.items[k] == a.items[k])
    ensures Follows(a, b)
  {
    hide Contents, SavedPoints;
  }

  /** A write to disk changes what is saved of one series, to all of it. */
  lemma WrittenFollows(a: Moment, b: Moment, key: Key)
    requires key in a.items && a.items.Keys == b.items.Keys
    requires SavedPoints(a.data, a.items[key]) <= Contents(a.data, a.items[key])
    requires Contents(b.data, b.items[key]) == Contents(a.data, a.items[key]) == SavedPoints(b.data, b.items[key])
    requires forall k :: k in a.items && k != key ==>
      Contents(b.data, b.items[k]) == Contents(a.data, a.items[k]) && SavedPoints(b.data, b.items[k]) == SavedPoints(a.data, a.items[k])
    ensures Follows(a, b)
  {
    hide Contents, SavedPoints;
  }

  /** An accepted point extends one series; nothing more is saved. */
  lemma AddedFollows(a: Moment, b: Moment, key: Key)
    requires key in a.items && a.items.Keys == b.items.Keys && a.data == b.data
    requires Contents(a.data, a.items[key]) <= Contents(b.data, b.items[key])
    requires SavedPoints(b.data, b.items[key]) == SavedPoints(a.data, a.items[key])
    requires forall k :: k in a.items && k != key ==> b.items[k] == a.items[k]
    ensures Follows(a, b)
  {
    hide Contents, SavedPoints;
  }

  /** A series whose last slot is an ACTIVE block equal to its memory. */
  ghost predicate SyncedItem(data: map<nat, DataBlock>, it: Item)
  {
    && it.offsets != [] && var o := it.offsets[|it.offsets| - 1].offset;
    && o != 0 && o in data && !data[o].complete && data[o].pts == it.mem
  }

  lemma ItemsOk(items: map<Key, Item>, list: seq<Key>, nextId: nat, data: map<nat, DataBlock>,
                keys: map<nat, KeyBlock>, names: map<nat, Key>, key: Key)
    requires StoreOk(items, list, nextId, data, keys, names) && key in items
    ensures ItemOk(data, items[key]) && items[key].id in names && names[items[key].id] == key
    ensures forall k :: k in items <==> k in list
  {
  }

  lemma ListedItems(items: map<Key, Item>, list: seq<Key>, nextId: nat, data: map<nat, DataBlock>,
                    keys: map<nat, KeyBlock>, names: map<nat, Key>)
    requires StoreOk(items, list, nextId, data, keys, names)
    ensures Distinct(list) && forall k :: k in items <==> k in list
  {
  }

  lemma CurrentStart(data: map<nat, DataBlock>, it: Item)
    requires ItemOk(data, it) && it.offsets != [] && it.offsets[|it.offsets| - 1].offset != 0
    ensures it.mem != [] && it.offsets[|it.offsets| - 1].start == it.mem[0].t
    ensures it.offsets[|it.offsets| - 1].offset in data
  {
  }

  /** A sync has come to entry i of the list. */
  ghost predicate SyncedUpTo(a: Moment, b: Moment, i: nat)
  {
    && a.items.Keys == b.items.Keys && a.list == b.list && Distinct(a.list) && (forall k :: k in a.items <==> k in a.list)
    && forall j :: 0 <= j < |a.list| ==> SyncedEntry(a, b, a.list[j], j < i)
  }

  ghost predicate SyncedEntry(a: Moment, b: Moment, key: Key, done: bool)
  {
    && key in a.items && key in b.items
    && AbsOf(b.data, b.items[key]) == var s := AbsOf(a.data, a.items[key]); if done then WrittenSeries(s, false) else s
  }

  lemma NoneSynced(m: Moment)
    requires Distinct(m.list) && forall k :: k in m.items <==> k in m.list
    ensures SyncedUpTo(m, m, 0)
  {
    hide AbsOf, Distinct;
  }

  lemma SyncNext(a: Moment, b: Moment, i: nat)
    requires SyncedUpTo(a, b, i) && i < |a.list|
    ensures a.list[i] in a.items && a.list[i] in b.items && b.items[a.list[i]].mem == a.items[a.list[i]].mem
  {
    hide AbsOf, Distinct;
    assert SyncedEntry(a, b, a.list[i], false);
  }

  lemma SyncStep(a: Moment, b: Moment, c: Moment, i: nat)
    requires SyncedUpTo(a, b, i) && i < |a.list| && c.items.Keys == b.items.Keys && c.list == b.list && a.list[i] in b.items
    requires forall k :: k in b.items && k != a.list[i] ==> AbsOf(c.data, c.items[k]) == AbsOf(b.data, b.items[k])
    requires AbsOf(c.data, c.items[a.list[i]]) == WrittenSeries(AbsOf(b.data, b.items[a.list[i]]), false)
    ensures SyncedUpTo(a, c, i + 1)
  {
    hide AbsOf;
    forall j | 0 <= j < |a.list| ensures SyncedEntry(a, c, a.list[j], j < i + 1) {
      assert SyncedEntry(a, b, a.list[j], j < i);
    }
  }

  lemma AllSynced(a: Moment, b: Moment)
    requires SyncedUpTo(a, b, |a.list|) && MomentOk(b) && forall k :: k in a.items ==> a.items[k].mem != []
    ensures a.items.Keys == b.items.Keys
    ensures forall k :: k in b.items ==> SyncedItem(b.data, b.items[k])
    ensures forall k :: k in b.items ==>
      Contents(b.data, b.items[k]) == Contents(a.data, a.items[k]) && b.items[k].mem == a.items[k].mem
    ensures forall k :: k in b.items ==> AbsOf(b.data, b.items[k]) == WrittenSeries(AbsOf(a.data, a.items[k]), false)
  {
    hide AbsOf, StoreOk, ItemOk, Contents, SyncedItem, WrittenSeries, Distinct;
    forall k | k in b.items
      ensures SyncedItem(b.data, b.items[k]) && Contents(b.data, b.items[k]) == Contents(a.data, a.items[k])
      ensures b.items[k].mem == a.items[k].mem
      ensures AbsOf(b.data, b.items[k]) == WrittenSeries(AbsOf(a.data, a.items[k]), false)
    {
      var j :| 0 <= j < |a.list| && a.list[j] == k;
      assert SyncedEntry(a, b, a.list[j], true);
      ItemsOk(b.items, b.list, b.nextId, b.data, b.keys, b.names, k);
      SyncedByAbs(a.data, a.items[k], b.data, b.items[k]);
    }
  }

  /** A series whose ACTIVE block equals its memory is synced, and returns what it did. */
  lemma SyncedByAbs(data: map<nat, DataBlock>, it: Item, data': map<nat, DataBlock>, it': Item)
    requires ItemOk(data', it') && it.mem != [] && AbsOf(data', it') == WrittenSeries(AbsOf(data, it), false)
    ensures SyncedItem(data', it') && it'.mem == it.mem && Contents(data', it') == Contents(data, it)
  {
    hide Encodable, Contents;
    ContentsTotal(data, it);
    ContentsTotal(data', it');
  }

  /** The blocks of a store, split by whether a given series holds them. */
  lemma OwnBlocks(items: map<Key, Item>, list: seq<Key>, nextId: nat, data: map<nat, DataBlock>,
                  keys: map<nat, KeyBlock>, names: map<nat, Key>, key: Key)
    requires StoreOk(items, list, nextId, data, keys, names) && key in items
    ensures forall it: Item, o :: it.offsets == items[key].offsets && o in data ==> !Holds(items[key], o) || Holds(it, o)
  {
  }

  lemma FedUnfolds(n: nat, s: Series, ps: seq<Point>)
    requires n >= 192 && Encodable(s.mem) && (forall i :: 0 <= i < |ps| ==> IsInt64(ps[i].t))
    ensures ps == [] ==> Fed(n, s, ps) == s
    ensures ps != [] ==>
      (Fed(n, s, ps) == if Offered(n, s.mem, ps[0]).2 != Added then s else Fed(n, FedOne(n, s, ps[0]), ps[1..]))
    ensures ps != [] && Offered(n, s.mem, ps[0]).2 != Added ==> FedOne(n, s, ps[0]) == s
  {
    hide Encodable, AddOutcome;
  }

  lemma CountUnfolds(n: nat, mem: seq<Point>, ps: seq<Point>)
    requires n >= 192 && Encodable(mem) && (forall i :: 0 <= i < |ps| ==> IsInt64(ps[i].t))
    ensures ps == [] ==> AcceptedCount(n, mem, ps) == 0 && MemAfter(n, mem, ps) == mem
    ensures ps != [] ==> Encodable(Offered(n, mem, ps[0]).1)
    ensures ps != [] ==>
      (AcceptedCount(n, mem, ps)
       == if Offered(n, mem, ps[0]).2 != Added then 0 else 1 + AcceptedCount(n, Offered(n, mem, ps[0]).1, ps[1..]))
    ensures ps != [] ==>
      (MemAfter(n, mem, ps)
       == if Offered(n, mem, ps[0]).2 != Added then mem else MemAfter(n, Offered(n, mem, ps[0]).1, ps[1..]))
  {
    hide Encodable, AddOutcome;
    if ps != [] { OfferedEncodable(n, mem, ps[0]); }
  }

  /** A slot is a complete block, except perhaps the last one. */
  lemma SlotKind(data: map<nat, DataBlock>, it: Item, i: nat)
    requires ItemOk(data, it) && i < |it.offsets|
    ensures var off := it.offsets[i].offset;
      off != 0 ==> off in data && (data[off].complete <==> i < |it.offsets| - 1)
    ensures i < |it.offsets| - 1 ==> it.offsets[i].offset != 0
  {
    assert i < |it.offsets| - 1 ==> ClosedOk(data, it.id, it.offsets[i]);
  }

  lemma {:induction false} PointsPrefix(data: map<nat, DataBlock>, closed: seq<OffTime>, i: nat)
    requires i <= |closed|
    ensures Points(data, closed[..i]) <= Points(data, closed)
    decreases |closed|
  {
    if i == |closed| {
      assert closed[..i] == closed;
    } else {
      PointsPrefix(data, closed[..|closed| - 1], i);
      assert closed[..|closed| - 1][..i] == closed[..i];
    }
  }

  /** A new, empty series. */
  lemma InsertOk(items: map<Key, Item>, list: seq<Key>, id: nat, data: map<nat, DataBlock>,
                 keys: map<nat, KeyBlock>, names: map<nat, Key>, key: Key, off: nat)
    requires StoreOk(items, list, id, data, keys, names) && key !in items && id > 0
    requires Storable(key) ==> off !in keys
    ensures var it := Item(id, if Storable(key) then off else 0, [], []);
      StoreOk(items[key := it], list + [key], id + 1, data,
              if Storable(key) then keys[off := KeyBlock(key, id)] else keys, names[id := key])
  {
    hide Storable, Holds, ItemOk, Distinct;
    var it := Item(id, if Storable(key) then off else 0, [], []);
    EmptyItem(data, it);
    ListGrows(items, list, key, it);
  }

  lemma EmptyItem(data: map<nat, DataBlock>, it: Item)
    requires it.mem == [] && it.offsets == []
    ensures ItemOk(data, it) && Contents(data, it) == [] && SavedPoints(data, it) == [] && AbsOf(data, it) == NEW_SERIES
  {
    EmptyHeader();
  }

  lemma ListGrows(items: map<Key, Item>, list: seq<Key>, key: Key, it: Item)
    requires Distinct(list) && (forall k :: k in items <==> k in list) && key !in items
    ensures Distinct(list + [key]) && forall k :: k in items[key := it] <==> k in list + [key]
  {
    forall i, j | 0 <= i < j < |list + [key]| ensures (list + [key])[i] != (list + [key])[j] {
      assert list[i] in list;
    }
  }

  // ----- trimming -----

  /** last_timestamp of a compressor: 0 when it is clear. */
  function LastTime(mem: seq<Point>): int { if mem == [] then 0 else mem[|mem| - 1].t }

  /** The leading slots that are written and start before t. */
  function OldPrefix(offsets: seq<OffTime>, t: int): (r: nat)
    ensures r <= |offsets|
  {
    if offsets != [] && offsets[0].offset != 0 && offsets[0].start < t then 1 + OldPrefix(offsets[1..], t) else 0
  }

  /** How many leading blocks a trim at t releases: all but the last that starts before t. */
  function SaveIndex(offsets: seq<OffTime>, t: int): (r: nat)
    ensures r <= |offsets| && (offsets != [] ==> r < |offsets|)
  {
    if OldPrefix(offsets, t) == 0 then 0 else OldPrefix(offsets, t) - 1
  }

  ghost predicate Among(slots: seq<OffTime>, o: nat)
  {
    exists i :: 0 <= i < |slots| && slots[i].offset == o
  }

  lemma AmongNext(slots: seq<OffTime>, i: nat)
    requires i < |slots|
    ensures forall o :: Among(slots[..i + 1], o) <==> Among(slots[..i], o) || o == slots[i].offset
  {
    forall o ensures Among(slots[..i + 1], o) <==> Among(slots[..i], o) || o == slots[i].offset {
      if Among(slots[..i + 1], o) {
        var j :| 0 <= j < i + 1 && slots[..i + 1][j].offset == o;
        if j < i { assert slots[..i][j].offset == o; }
      }
      if Among(slots[..i], o) {
        var j :| 0 <= j < i && slots[..i][j].offset == o;
        assert slots[..i + 1][j].offset == o;
      }
      if o == slots[i].offset { assert slots[..i + 1][i].offset == o; }
    }
  }

  lemma {:induction false} PointsSplit(data: map<nat, DataBlock>, closed: seq<OffTime>, i: nat)
    requires i <= |closed|
    ensures Points(data, closed) == Points(data, closed[..i]) + Points(data, closed[i..])
    decreases |closed|
  {
    if i == |closed| {
      assert closed[..i] == closed && closed[i..] == [];
    } else {
      var init := closed[..|closed| - 1];
      PointsSplit(data, init, i);
      assert init[..i] == closed[..i] && init[i..] == closed[i..][..|closed| - i - 1];
      assert closed[i..][|closed| - i - 1] == closed[|closed| - 1];
    }
  }

  /** The loop of the trim that finds the first block to keep. The C code asserts that an
      unwritten slot is the last one. */
  method FindSave(ghost data: map<nat, DataBlock>, item: Item, t: int) returns (save: nat)
    requires ItemOk(data, item)
    ensures save == SaveIndex(item.offsets, t)
    ensures forall i :: 0 <= i < save ==> item.offsets[i].offset != 0
    ensures save > 0 ==> item.offsets[save].offset != 0 && item.offsets[save].start < t
    ensures save + 1 < |item.offsets| && item.offsets[save].offset != 0 && item.offsets[save].start < t ==>
      item.offsets[save + 1].offset == 0 || item.offsets[save + 1].start >= t
  {
    hide ItemOk;
    save := 0;
    var i := 0;
    while i < |item.offsets|
      invariant 0 <= i <= |item.offsets| && save == if i == 0 then 0 else i - 1
      invariant OldPrefix(item.offsets, t) == i + OldPrefix(item.offsets[i..], t)
      invariant forall j :: 0 <= j < i ==> item.offsets[j].offset != 0 && item.offsets[j].start < t
    {
      SlotKind(data, item, i);
      if item.offsets[i].offset == 0 {
        assert i == |item.offsets| - 1;
        break;
      }
      if item.offsets[i].start < t {
        save := i;
        assert item.offsets[i..][1..] == item.offsets[i + 1..];
      } else {
        break;
      }
      i := i + 1;
    }
  }

  /** Dropping the first blocks of a series and releasing exactly those. */
  lemma TrimmedOk(data: map<nat, DataBlock>, data': map<nat, DataBlock>, it: Item, save: nat)
    requires ItemOk(data, it) && save <= |it.offsets| && (it.offsets != [] ==> save < |it.offsets|)
    requires forall o :: o in data' ==> o in data && data'[o] == data[o]
    requires forall o :: o in data' <==> o in data && !Among(it.offsets[..save], o)
    ensures var it' := it.(offsets := it.offsets[save..]);
      && ItemOk(data', it')
      && Contents(data, it) == Points(data, it.offsets[..save]) + Contents(data', it')
      && (forall o :: o in data && !Holds(it, o) ==> o in data' && data'[o] == data[o])
      && (forall o :: o in data' ==> (o in data && data'[o] == data[o] && !Holds(it, o)) || Holds(it', o))
  {
    hide Encodable, Points;
    var it' := it.(offsets := it.offsets[save..]);
    forall i | save <= i < |it.offsets| && it.offsets[i].offset != 0
      ensures it.offsets[i].offset in data && !Among(it.offsets[..save], it.offsets[i].offset)
    {
      SlotKind(data, it, i);
      forall j | 0 <= j < save ensures it.offsets[..save][j].offset != it.offsets[i].offset {
        assert it.offsets[..save][j] == it.offsets[j];
      }
    }
    forall i | 0 <= i < |it'.offsets| - 1 ensures ClosedOk(data', it.id, it'.offsets[i]) {
      assert it'.offsets[i] == it.offsets[save + i] && ClosedOk(data, it.id, it.offsets[save + i]);
    }
    assert it'.offsets != [] ==> it'.offsets[|it'.offsets| - 1] == it.offsets[|it.offsets| - 1];
    TrimmedPoints(data, data', it, save);
    TrimmedHolds(it, save);
    forall o | o in data && !Holds(it, o) ensures !Among(it.offsets[..save], o) {
      forall j | 0 <= j < save ensures it.offsets[..save][j].offset != o {
        assert it.offsets[..save][j] == it.offsets[j] && ClosedOk(data, it.id, it.offsets[j]);
        assert Holds(it, it.offsets[j].offset);
      }
    }
  }

  /** Releasing the first of the blocks a series still has, from slot i on. */
  lemma ReleaseFirst(items: map<Key, Item>, list: seq<Key>, nextId: nat, data: map<nat, DataBlock>,
                     keys: map<nat, KeyBlock>, names: map<nat, Key>, key: Key, i: nat)
    requires key in items && i < |items[key].offsets| && items[key].offsets[i].offset != 0
    requires StoreOk(items[key := items[key].(offsets := items[key].offsets[i..])], list, nextId, data, keys, names)
    ensures StoreOk(items[key := items[key].(offsets := items[key].offsets[i + 1..])], list, nextId,
                    data - {items[key].offsets[i].offset}, keys, names)
    ensures Shrinks(Moment(items[key := items[key].(offsets := items[key].offsets[i..])], list, nextId, data, keys, names),
                    Moment(items[key := items[key].(offsets := items[key].offsets[i + 1..])], list, nextId,
                           data - {items[key].offsets[i].offset}, keys, names))
  {
    hide StoreOk, ItemOk, Contents, Points, Holds, Suffix, SavedPoints;
    var it := items[key].(offsets := items[key].offsets[i..]);
    var it' := items[key].(offsets := items[key].offsets[i + 1..]);
    var items0 := items[key := it];
    ItemsOk(items0, list, nextId, data, keys, names, key);
    assert it.offsets[1..] == it'.offsets;
    FirstDropped(data, it);
    UpdateSeries(items0, list, nextId, data, keys, names, key, it', data - {it.offsets[0].offset});
    assert items0[key := it'] == items[key := it'];
    SameSuffixes(Moment(items0, list, nextId, data, keys, names),
                 Moment(items[key := it'], list, nextId, data - {it.offsets[0].offset}, keys, names), key);
  }

  /** One key loses old points, the others none. */
  lemma SameSuffixes(a: Moment, b: Moment, key: Key)
    requires a.items.Keys == b.items.Keys && Suffix(HeldOf(b, key), HeldOf(a, key)) && Suffix(SavedOf(b, key), SavedOf(a, key))
    requires forall k :: k in a.items && k != key ==>
      Contents(b.data, b.items[k]) == Contents(a.data, a.items[k]) && SavedPoints(b.data, b.items[k]) == SavedPoints(a.data, a.items[k])
    ensures Shrinks(a, b)
  {
    hide Contents, SavedPoints;
  }

  lemma FirstDropped(data: map<nat, DataBlock>, it: Item)
    requires ItemOk(data, it) && it.offsets != [] && it.offsets[0].offset != 0
    ensures var data', it' := data - {it.offsets[0].offset}, it.(offsets := it.offsets[1..]);
      && ItemOk(data', it') && Suffix(Contents(data', it'), Contents(data, it))
      && Suffix(SavedPoints(data', it'), SavedPoints(data, it))
      && (forall o :: o in data && !Holds(it, o) ==> o in data' && data'[o] == data[o])
      && (forall o :: o in data' ==> (o in data && data'[o] == data[o] && !Holds(it, o)) || Holds(it', o))
  {
    hide Encodable, Points, SavedPoints;
    var data', it' := data - {it.offsets[0].offset}, it.(offsets := it.offsets[1..]);
    FirstDroppedPoints(data, it);
    FirstDroppedSaved(data, it);
    assert Holds(it, it.offsets[0].offset);
    forall i | 0 <= i < |it'.offsets| - 1 ensures ClosedOk(data', it.id, it'.offsets[i]) {
      assert it'.offsets[i] == it.offsets[i + 1] && ClosedOk(data, it.id, it.offsets[i + 1]);
    }
    assert it'.offsets != [] ==> it'.offsets[|it'.offsets| - 1] == it.offsets[|it.offsets| - 1];
    forall o | Holds(it, o) && o != it.offsets[0].offset ensures Holds(it', o) {
      var i :| 0 <= i < |it.offsets| && it.offsets[i].offset == o;
      assert it'.offsets[i - 1].offset == o;
    }
  }

  lemma FirstDroppedPoints(data: map<nat, DataBlock>, it: Item)
    requires ItemOk(data, it) && it.offsets != [] && it.offsets[0].offset != 0
    ensures Suffix(Contents(data - {it.offsets[0].offset}, it.(offsets := it.offsets[1..])), Contents(data, it))
  {
    hide Encodable, Points, ItemOk;
    var data', it' := data - {it.offsets[0].offset}, it.(offsets := it.offsets[1..]);
    if |it.offsets| > 1 {
      assert it.offsets[..1] == [it.offsets[0]];
      forall o ensures Among(it.offsets[..1], o) <==> o == it.offsets[0].offset {
        if o == it.offsets[0].offset { assert it.offsets[..1][0].offset == o; }
      }
      TrimmedOk(data, data', it, 1);
    } else {
      NoPoints(data);
      NoPoints(data');
      assert Closed(it.offsets) == [] && Closed(it'.offsets) == [];
    }
  }

  lemma FirstDroppedSaved(data: map<nat, DataBlock>, it: Item)
    requires ItemOk(data, it) && it.offsets != [] && it.offsets[0].offset != 0
    ensures Suffix(SavedPoints(data - {it.offsets[0].offset}, it.(offsets := it.offsets[1..])), SavedPoints(data, it))
  {
    hide Encodable, Points, ItemOk;
    var data', it' := data - {it.offsets[0].offset}, it.(offsets := it.offsets[1..]);
    if |it.offsets| > 1 {
      var s := Saved(data, it);
      SavedOk(data, it);
      FirstDroppedPoints(data, s);
      assert it.offsets[|it.offsets| - 1].offset != it.offsets[0].offset by { SlotsApart(data, it); }
      assert it'.offsets[|it'.offsets| - 1] == it.offsets[|it.offsets| - 1];
      assert Saved(data', it') == s.(offsets := s.offsets[1..]);
    } else {
      NoPoints(data');
      assert Closed(it'.offsets) == [] && SavedPoints(data', it') == [];
    }
  }

  lemma SlotsApart(data: map<nat, DataBlock>, it: Item)
    requires ItemOk(data, it)
    ensures forall i, j :: 0 <= i < j < |it.offsets| ==> it.offsets[i].offset != it.offsets[j].offset
  {
  }

  /** The blocks that a trim counts are those of the series' slots. */
  lemma OldSlots(data: map<nat, DataBlock>, it: Item, t: int)
    requires ItemOk(data, it)
    ensures OldPrefix(it.offsets, t) == OldBlocks(OnDisk(AbsOf(data, it)), t)
  {
    hide Encodable;
    var blocks: seq<seq<Point>> := OnDisk(AbsOf(data, it));
    forall i | 0 <= i < |it.offsets|
      ensures it.offsets[i].offset != 0 <==> i < |blocks|
      ensures i < |blocks| ==> blocks[i] != [] && blocks[i][0].t == it.offsets[i].start
    {
      if i < |it.offsets| - 1 { assert ClosedOk(data, it.id, it.offsets[i]); }
    }
    OldFrom(it.offsets, blocks, t);
  }

  lemma {:induction false} OldFrom(slots: seq<OffTime>, blocks: seq<seq<Point>>, t: int)
    requires |blocks| <= |slots|
    requires forall i :: 0 <= i < |slots| ==> (slots[i].offset != 0 <==> i < |blocks|)
    requires forall i :: 0 <= i < |blocks| ==> blocks[i] != [] && blocks[i][0].t == slots[i].start
    ensures OldPrefix(slots, t) == OldBlocks(blocks, t)
  {
    if blocks != [] {
      OldFrom(slots[1..], blocks[1..], t);
    }
  }

  /** A trim keeps of a series what it keeps of its blocks. */
  lemma TrimmedSeries(data: map<nat, DataBlock>, data': map<nat, DataBlock>, it: Item, t: int)
    requires ItemOk(data, it) && ItemOk(data', it.(offsets := it.offsets[SaveIndex(it.offsets, t)..]))
    requires forall o :: o in data' ==> o in data && data'[o] == data[o]
    ensures AbsOf(data', it.(offsets := it.offsets[SaveIndex(it.offsets, t)..])) == Trimmed(AbsOf(data, it), t)
  {
    hide Encodable, OldBlocks, OldPrefix;
    OldSlots(data, it, t);
    var save := SaveIndex(it.offsets, t);
    var it' := it.(offsets := it.offsets[save..]);
    var closed, closed' := Closed(it.offsets), Closed(it'.offsets);
    assert closed' == closed[save..];
    forall i | 0 <= i < |closed'| ensures closed'[i].offset in data' && closed[save + i] == closed'[i] {
      assert closed'[i] == it'.offsets[i] && ClosedOk(data', it.id, it'.offsets[i]);
    }
    assert BlockPoints(data', closed') == BlockPoints(data, closed)[save..];
  }

  lemma TrimmedPoints(data: map<nat, DataBlock>, data': map<nat, DataBlock>, it: Item, save: nat)
    requires ItemOk(data, it) && save <= |it.offsets| && (it.offsets != [] ==> save < |it.offsets|)
    requires ItemOk(data', it.(offsets := it.offsets[save..]))
    requires forall o :: o in data' ==> o in data && data'[o] == data[o]
    ensures Points(data, Closed(it.offsets))
         == Points(data, it.offsets[..save]) + Points(data', Closed(it.offsets[save..]))
  {
    hide Encodable, Points;
    var closed, closed', slots' := Closed(it.offsets), Closed(it.offsets[save..]), it.offsets[save..];
    if it.offsets == [] {
      assert it.offsets[..save] == [] && closed == closed' == [];
      assert Points(data, []) == [] && Points(data', []) == [] by { NoPoints(data); NoPoints(data'); }
    } else {
      assert closed[..save] == it.offsets[..save] && closed[save..] == closed';
      PointsSplit(data, closed, save);
      forall i | 0 <= i < |closed'| ensures closed'[i].offset in data' && closed'[i].offset in data {
        assert closed'[i] == slots'[i] && ClosedOk(data', it.id, slots'[i]);
      }
      PointsFrame(data, data', closed');
    }
  }

  lemma NoPoints(data: map<nat, DataBlock>)
    ensures Points(data, []) == []
  {
  }

  lemma TrimmedHolds(it: Item, save: nat)
    requires save <= |it.offsets|
    ensures var it' := it.(offsets := it.offsets[save..]);
      forall o :: Holds(it, o) ==> Among(it.offsets[..save], o) || Holds(it', o)
  {
    var it' := it.(offsets := it.offsets[save..]);
    forall o | Holds(it, o) ensures Among(it.offsets[..save], o) || Holds(it', o) {
      var i :| 0 <= i < |it.offsets| && it.offsets[i].offset == o;
      if i < save {
        assert it.offsets[..save][i].offset == o;
      } else {
        assert it'.offsets[i - save].offset == o;
      }
    }
  }

  /** Strictly increasing timestamps. */
  ghost predicate Increasing(ps: seq<Point>)
  {
    forall i, j :: 0 <= i < j < |ps| ==> ps[i].t < ps[j].t
  }

  /** On a series in time order a trim loses only points before the cut. */
  lemma TrimKeepsRecent(data: map<nat, DataBlock>, it: Item, t: int)
    requires ItemOk(data, it) && Increasing(Contents(data, it))
    ensures forall i :: 0 <= i < |Points(data, it.offsets[..SaveIndex(it.offsets, t)])| ==>
      Points(data, it.offsets[..SaveIndex(it.offsets, t)])[i].t < t
  {
    hide Encodable, Points;
    var save := SaveIndex(it.offsets, t);
    var dropped := Points(data, it.offsets[..save]);
    if save > 0 {
      OldPrefixOld(it.offsets, t, save);
      SlotKind(data, it, save);
      BlockFollows(data, it, save);
    } else {
      assert it.offsets[..save] == [];
      NoPoints(data);
    }
  }

  lemma {:induction false} OldPrefixOld(offsets: seq<OffTime>, t: int, i: nat)
    requires i < OldPrefix(offsets, t)
    ensures offsets[i].offset != 0 && offsets[i].start < t
    decreases |offsets|
  {
    if i > 0 {
      OldPrefixOld(offsets[1..], t, i - 1);
      assert offsets[1..][i - 1] == offsets[i];
    }
  }

  /** The first point of block i comes right after the points of the blocks before it. */
  lemma BlockFollows(data: map<nat, DataBlock>, it: Item, i: nat)
    requires ItemOk(data, it) && i < |it.offsets| && it.offsets[i].offset != 0
    ensures var before := Points(data, it.offsets[..i]);
      |before| < |Contents(data, it)| && before == Contents(data, it)[..|before|]
      && Contents(data, it)[|before|].t == it.offsets[i].start
  {
    hide Encodable;
    var closed := Closed(it.offsets);
    var before := Points(data, it.offsets[..i]);
    assert it.offsets[..i] == closed[..i];
    if i < |closed| {
      assert ClosedOk(data, it.id, it.offsets[i]);
      assert closed[..i + 1][..i] == closed[..i] && closed[..i + 1][i] == it.offsets[i];
      var upto := Points(data, closed[..i + 1]);
      assert upto == before + data[it.offsets[i].offset].pts;
      PointsPrefix(data, closed, i + 1);
      hide Points;
      assert upto[|before|] == data[it.offsets[i].offset].pts[0];
    } else {
      assert closed[..i] == closed;
    }
  }

  ghost predicate AllOlder(ps: seq<Point>, t: int)
  {
    forall i :: 0 <= i < |ps| ==> ps[i].t < t
  }

  /** With points in memory and times increasing, the deletion test is exact. */
  lemma DeleteTestExact(data: map<nat, DataBlock>, it: Item, t: int)
    requires ItemOk(data, it) && Increasing(Contents(data, it)) && it.mem != []
    ensures LastTime(it.mem) < t <==> AllOlder(Contents(data, it), t)
  {
    hide Encodable, Points;
    var all := Contents(data, it);
    assert all[|all| - 1] == it.mem[|it.mem| - 1];
  }

  /** The deletion test answers right at every cut if and only if the compressor is not clear,
      or there is nothing on disk either. */
  lemma DeleteTestRight(data: map<nat, DataBlock>, it: Item)
    requires ItemOk(data, it) && Increasing(Contents(data, it))
    ensures (forall t :: t > 0 ==> (LastTime(it.mem) < t <==> AllOlder(Contents(data, it), t)))
       <==> it.mem != [] || Contents(data, it) == []
  {
    hide Encodable, Points;
    if it.mem != [] {
      forall t ensures LastTime(it.mem) < t <==> AllOlder(Contents(data, it), t) { DeleteTestExact(data, it, t); }
    } else if Contents(data, it) != [] {
      FirstIsPositive(data, it);
      var t := Contents(data, it)[0].t;
      assert t > 0 && LastTime(it.mem) < t && !AllOlder(Contents(data, it), t);
    }
  }

  /** The first point of a series with a clear compressor starts its first block. */
  lemma FirstIsPositive(data: map<nat, DataBlock>, it: Item)
    requires ItemOk(data, it) && it.mem == [] && Contents(data, it) != []
    ensures Contents(data, it)[0].t > 0
  {
    hide Encodable;
    assert ClosedOk(data, it.id, it.offsets[0]);
    BlockFollows(data, it, 0);
    NoPoints(data);
    assert it.offsets[..0] == [];
  }

  // ----- deleting -----

  lemma NextIdPositive(items: map<Key, Item>, list: seq<Key>, nextId: nat, data: map<nat, DataBlock>,
                       keys: map<nat, KeyBlock>, names: map<nat, Key>)
    requires StoreOk(items, list, nextId, data, keys, names)
    ensures nextId > 0
  {
    hide ItemOk, Storable, Holds, Distinct;
  }

  lemma NoZeroBlock(items: map<Key, Item>, list: seq<Key>, nextId: nat, data: map<nat, DataBlock>,
                    keys: map<nat, KeyBlock>, names: map<nat, Key>)
    requires StoreOk(items, list, nextId, data, keys, names)
    ensures 0 !in data
  {
    hide ItemOk, Storable;
  }

  lemma RemoveSeries(items: map<Key, Item>, list: seq<Key>, nextId: nat, data: map<nat, DataBlock>,
                     keys: map<nat, KeyBlock>, names: map<nat, Key>, key: Key, data': map<nat, DataBlock>)
    requires StoreOk(items, list, nextId, data, keys, names) && key in items && Storable(key)
    requires forall o :: o in data' ==> o in data && data'[o] == data[o]
    requires forall o :: o in data' <==> o in data && !Among(items[key].offsets, o)
    ensures StoreOk(items - {key}, Without(list, key), nextId, data', keys - {items[key].keyOffset}, names)
    ensures forall k :: k in items && k != key ==> Contents(data', items[k]) == Contents(data, items[k]) && AbsOf(data', items[k]) == AbsOf(data, items[k])
  {
    hide StoreOk, ItemOk, Storable, Contents, Distinct, Holds, Among, Without;
    RemovedItems(items, list, nextId, data, keys, names, key, data');
    RemovedData(items, list, nextId, data, keys, names, key, data');
    RemovedKeys(items, list, nextId, data, keys, names, key);
    StoreFrom(items - {key}, Without(list, key), nextId, data', keys - {items[key].keyOffset}, names);
  }

  lemma RemovedItems(items: map<Key, Item>, list: seq<Key>, nextId: nat, data: map<nat, DataBlock>,
                     keys: map<nat, KeyBlock>, names: map<nat, Key>, key: Key, data': map<nat, DataBlock>)
    requires StoreOk(items, list, nextId, data, keys, names) && key in items
    requires forall o :: o in data' ==> o in data && data'[o] == data[o]
    requires forall o :: o in data' <==> o in data && !Among(items[key].offsets, o)
    ensures forall k :: k in items && k != key ==> Contents(data', items[k]) == Contents(data, items[k]) && AbsOf(data', items[k]) == AbsOf(data, items[k])
    ensures var rest := items - {key};
      forall k :: k in rest ==> ItemOk(data', rest[k]) && rest[k].id in names && names[rest[k].id] == k
  {
    hide ItemOk, Storable, Contents, Distinct, Holds, Among;
    NoZeroBlock(items, list, nextId, data, keys, names);
    forall k | k in items && k != key
      ensures ItemOk(data', items[k]) && Contents(data', items[k]) == Contents(data, items[k]) && AbsOf(data', items[k]) == AbsOf(data, items[k])
    {
      OtherSeriesKept(items, list, nextId, data, keys, names, key, data', k);
    }
  }

  lemma RemovedData(items: map<Key, Item>, list: seq<Key>, nextId: nat, data: map<nat, DataBlock>,
                    keys: map<nat, KeyBlock>, names: map<nat, Key>, key: Key, data': map<nat, DataBlock>)
    requires StoreOk(items, list, nextId, data, keys, names) && key in items
    requires forall o :: o in data' ==> o in data && data'[o] == data[o]
    requires forall o :: o in data' <==> o in data && !Among(items[key].offsets, o)
    ensures var rest := items - {key};
      forall o :: o in data' ==> data'[o].id in names && names[data'[o].id] in rest
                                 && rest[names[data'[o].id]].id == data'[o].id && Holds(rest[names[data'[o].id]], o)
  {
    hide ItemOk, Storable, Contents, Distinct, Holds, Among;
    NoZeroBlock(items, list, nextId, data, keys, names);
    forall o | o in data' ensures names[data[o].id] != key {
      HeldAmong(items[key], o);
      assert Holds(items[names[data[o].id]], o);
    }
  }

  lemma RemovedKeys(items: map<Key, Item>, list: seq<Key>, nextId: nat, data: map<nat, DataBlock>,
                    keys: map<nat, KeyBlock>, names: map<nat, Key>, key: Key)
    requires StoreOk(items, list, nextId, data, keys, names) && key in items && Storable(key)
    ensures var rest, live := items - {key}, keys - {items[key].keyOffset};
      && (forall k :: k in rest && Storable(k) ==> rest[k].keyOffset in live && live[rest[k].keyOffset] == KeyBlock(k, rest[k].id))
      && (forall o :: o in live ==> live[o].key in rest && Storable(live[o].key) && rest[live[o].key].id == live[o].id
                                    && rest[live[o].key].keyOffset == o)
      && Distinct(Without(list, key)) && (forall k :: k in rest <==> k in Without(list, key))
      && 0 < nextId && (forall id :: id in names ==> 0 < id < nextId)
  {
    hide ItemOk, Storable, Distinct, Holds, Without;
    WithoutMembers(list, key);
  }

  lemma HeldAmong(it: Item, o: nat)
    requires o != 0
    ensures Holds(it, o) <==> Among(it.offsets, o)
  {
  }

  lemma OtherSeriesKept(items: map<Key, Item>, list: seq<Key>, nextId: nat, data: map<nat, DataBlock>,
                        keys: map<nat, KeyBlock>, names: map<nat, Key>, key: Key, data': map<nat, DataBlock>, k: Key)
    requires StoreOk(items, list, nextId, data, keys, names) && key in items && k in items && k != key && 0 !in data
    requires forall o :: o in data' ==> o in data && data'[o] == data[o]
    requires forall o :: o in data' <==> o in data && !Among(items[key].offsets, o)
    ensures ItemOk(data', items[k]) && Contents(data', items[k]) == Contents(data, items[k]) && AbsOf(data', items[k]) == AbsOf(data, items[k])
  {
    hide AbsOf, ItemOk, Storable, Contents, Distinct, Holds, Among;
    forall o | o in data && Holds(items[k], o) ensures o in data' && data'[o] == data[o] {
      HeldIsOwn(data, items[k], o);
      HeldAmong(items[key], o);
      if Holds(items[key], o) { HeldIsOwn(data, items[key], o); }
    }
    ItemFrame(data, data', items[k]);
  }

  /** A key too long for the key record: its data is on disk under an id that no key block
      names, which storage_load refuses. */
  method LongKeyLosesItsName() returns (store: Storage)
    ensures store.Valid()
    ensures exists o :: o in store.data && !HasKeyBlock(store.keys, store.data[o].id)
  {
    hide StoreOk, Covered, Contents, Encodable;
    store := new Storage(192);
    var key: Key := seq(10231, i => 65);
    var p := Point(1, Zero());
    RetryAdds(192, p);
    store.GetItem(key);
    assert store.items[key].mem + [p] == [p];
    store.AddToMemory(key, p);
    store.WriteDisk(key, false);
    ghost var o := store.items[key].offsets[|store.items[key].offsets| - 1].offset;
    ItemsOk(store.items, store.list, store.nextId, store.data, store.keys, store.names, key);
    StoreCovered(store.items, store.list, store.nextId, store.data, store.keys, store.names);
    NotCovered(store.data, store.keys, store.names, o, key);
  }

  lemma NotCovered(data: map<nat, DataBlock>, keys: map<nat, KeyBlock>, names: map<nat, Key>, o: nat, key: Key)
    requires Covered(data, keys, names) && o in data && data[o].id in names && names[data[o].id] == key && !Storable(key)
    ensures !HasKeyBlock(keys, data[o].id)
  {
  }
}
