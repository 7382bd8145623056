/** Crashes between disk operations of the series store, and what storage_load makes of the files
    they leave (storage.c:175-340). */
module StoreCrashes {
  import opened TscCodec
  import opened TscBlock
  import opened Words
  import opened SeriesStore
  import opened SeriesOps
  import opened Reload
  import opened StoreRuns

  /** All keys of a moment have key blocks, and what is saved under each is in time order. */
  ghost predicate Orderly(m: Moment)
  {
    forall k :: k in m.items ==> Storable(k) && Increasing(SavedOf(m, k))
  }

  lemma PrefixIncreasing(a: seq<Point>, b: seq<Point>)
    requires a <= b && Increasing(b)
    ensures Increasing(a)
  {
  }

  lemma OrderlySaved(m: Moment)
    requires MomentOk(m) && Orderly(m)
    ensures forall k :: k in m.items ==> ItemOk(m.data, m.items[k]) && Storable(k) && Increasing(SavedPoints(m.data, m.items[k]))
  {
    hide StoreOk, ItemOk, Storable, Contents, SavedPoints, Increasing;
    forall k | k in m.items ensures ItemOk(m.data, m.items[k]) && Increasing(SavedPoints(m.data, m.items[k])) {
      ItemsOk(m.items, m.list, m.nextId, m.data, m.keys, m.names, k);
    }
  }

  /** The files of every orderly moment are files storage_load accepts. */
  lemma MomentLoadable(m: Moment)
    requires MomentOk(m) && Orderly(m)
    ensures LoadableData(m.data) && KeysCover(m.keys, m.names, m.data)
  {
    hide StoreOk, Storable, SavedPoints, Orderly, LoadableData, KeysCover, Increasing;
    OrderlySaved(m);
    StoreLoadable(m.items, m.list, m.nextId, m.data, m.keys, m.names);
  }

  /** Trims and deletes keep their moments orderly. */
  lemma ShrunkOrderly(a: Moment, b: Moment)
    requires Orderly(a) && Shrinks(a, b)
    ensures Orderly(b)
  {
    hide HeldOf, SavedOf, Storable, Suffix, Increasing;
    forall k | k in b.items ensures Storable(k) && Increasing(SavedOf(b, k)) {
      SuffixIncreasing(SavedOf(b, k), SavedOf(a, k));
    }
  }

  lemma SuffixIncreasing(x: seq<Point>, y: seq<Point>)
    requires Suffix(x, y) && Increasing(y)
    ensures Increasing(x)
  {
    assert forall i :: 0 <= i < |x| ==> x[i] == y[|y| - |x| + i];
  }

  /** A crash at an orderly moment, a restart and storage_load: each key returns exactly its
      saved points, and keys without any are gone. */
  method LoadMoment(n: nat, data: map<nat, DataBlock>, keys: map<nat, KeyBlock>, dataScan: seq<nat>, keyScan: seq<nat>,
                    ghost m: Moment) returns (store: Storage)
    requires n >= 192 && MomentOk(m) && Orderly(m) && m.data == data && m.keys == keys
    requires Scans(dataScan, data.Keys) && Scans(keyScan, keys.Keys)
    ensures fresh(store) && store.Valid() && store.n == n
    ensures forall k :: k in store.items <==> SavedOf(m, k) != []
    ensures forall k :: k in store.items ==> store.View(k) == SavedOf(m, k)
    ensures forall k :: k in store.items ==> k in m.items && store.Abs(k) == Reloaded(AbsOf(m.data, m.items[k]))
  {
    hide AbsOf, Reloaded, StoreOk, ItemOk, Contents, SavedOf, Saved, LoadableData, LoadableKeys, HasKeyBlock, Storable, HasData, Loaded, Increasing,
         Orderly, HeldOf;
    MomentLoadable(m);
    ghost var steps;
    store, steps := Load(n, data, keys, dataScan, keyScan, m.names);
    forall k ensures k in store.items <==> SavedOf(m, k) != []
             ensures k in store.items ==> store.View(k) == SavedOf(m, k)
             ensures k in store.items ==> k in m.items && store.Abs(k) == Reloaded(AbsOf(m.data, m.items[k]))
    {
      LoadedSeries(m, store.items, k);
    }
  }

  /** One key of a loaded moment. */
  lemma LoadedSeries(m: Moment, loaded: map<Key, Item>, key: Key)
    requires MomentOk(m) && Orderly(m) && LoadableData(m.data)
    requires forall k :: k in m.keys ==> (m.keys[k].key in loaded <==> HasData(m.data, m.keys[k].id))
    requires forall k :: k in m.keys && HasData(m.data, m.keys[k].id) ==> Loaded(m.data, m.keys[k].id, loaded[m.keys[k].key])
    requires forall x :: x in loaded ==> exists k :: k in m.keys && m.keys[k].key == x
    ensures key in loaded <==> SavedOf(m, key) != []
    ensures key in loaded ==> Contents(m.data, loaded[key]) == SavedOf(m, key)
    ensures key in loaded ==> key in m.items && AbsOf(m.data, loaded[key]) == Reloaded(AbsOf(m.data, m.items[key]))
  {
    hide AbsOf, Reloaded, StoreOk, ItemOk, Contents, LoadableData, Storable, HasData, Loaded, Increasing, Orderly, SavedPoints;
    if key in m.items {
      OrderlySaved(m);
      StoredSeries(m.items, m.list, m.nextId, m.data, m.keys, m.names, key);
      var it := m.items[key];
      SavedHasData(m.data, it);
      if key in loaded {
        LoadedView(m.data, it, loaded[key]);
      }
    } else if key in loaded {
      var k :| k in m.keys && m.keys[k].key == key;
      StoredKey(m.items, m.list, m.nextId, m.data, m.keys, m.names, k);
    }
  }

  /** A series has saved points exactly when it has a block. */
  lemma SavedHasData(data: map<nat, DataBlock>, it: Item)
    requires ItemOk(data, it) && forall o :: o in data && data[o].id == it.id ==> Holds(it, o)
    ensures HasData(data, it.id) <==> SavedPoints(data, it) != []
  {
    hide Encodable, Points;
    NoPoints(data);
    if |it.offsets| > 1 { assert ClosedOk(data, it.id, it.offsets[0]); }
    if HasData(data, it.id) {
      var o :| o in data && data[o].id == it.id;
      assert Holds(it, o);
      var i :| 0 <= i < |it.offsets| && it.offsets[i].offset == o;
      FirstBlockPoints(data, it, i);
    } else if it.offsets != [] {
      assert it.offsets[|it.offsets| - 1].offset == 0 && Closed(it.offsets) == [];
    }
  }

  lemma FirstBlockPoints(data: map<nat, DataBlock>, it: Item, i: nat)
    requires ItemOk(data, it) && i < |it.offsets| && it.offsets[i].offset != 0
    ensures SavedPoints(data, it) != []
  {
    hide Encodable;
    SavedOk(data, it);
    BlockFollows(data, Saved(data, it), i);
  }

  lemma LoadedView(data: map<nat, DataBlock>, it: Item, got: Item)
    requires ItemOk(data, it) && Increasing(SavedPoints(data, it)) && LoadableData(data)
    requires forall o :: o in data && data[o].id == it.id ==> Holds(it, o)
    requires Loaded(data, it.id, got)
    ensures Contents(data, got) == SavedPoints(data, it) && AbsOf(data, got) == Reloaded(AbsOf(data, it))
  {
    hide ItemOk, Increasing, Points, LoadableData, Gathered, Encodable;
    var s := Saved(data, it);
    SavedOk(data, it);
    var g: Item :| Gathered(data, data.Keys, it.id, g) && g.offsets != [] && got == Finished(g).(keyOffset := got.keyOffset);
    assert forall o :: Holds(it, o) ==> Holds(s, o);
    SavedReloads(data, s, g);
    SavedSlots(data, s);
    assert g.mem == [] ==> Closed(g.offsets + [OffTime(0, 0)]) == g.offsets;
  }

  /** What the files know of a series has a compressor exactly when its last slot is written. */
  lemma SavedSlots(data: map<nat, DataBlock>, s: Item)
    requires ItemOk(data, s) && s == Saved(data, s)
    ensures s.mem == [] ==> OnDiskSlots(s.offsets) == Closed(s.offsets)
    ensures s.mem != [] ==> OnDiskSlots(s.offsets) == s.offsets
  {
    hide Encodable;
  }

  /** A crash at any disk operation i of any run of writes and syncs, inside operation j: the
      files load, each key then has a prefix of what was accepted by the end of operation j,
      and this prefix holds everything accepted up to any completed sync. */
  lemma CrashedRunLoads(n: nat, ops: seq<Op>, trace: seq<Moment>, stops: seq<Moment>, marks: seq<nat>, j: nat, i: nat)
    requires n >= 192 && Requests(ops) && Recorded(n, ops, trace, stops, marks)
    requires j < |ops| && marks[j] <= i < marks[j + 1]
    requires forall k :: k in stops[|ops|].items ==> Storable(k)
    requires forall k :: Increasing(Replay(n, ops, k).all)
    ensures i < |trace| && MomentOk(trace[i]) && Orderly(trace[i])
    ensures LoadableData(trace[i].data) && KeysCover(trace[i].keys, trace[i].names, trace[i].data)
    ensures forall k :: SavedOf(trace[i], k) <= Replay(n, ops[..j + 1], k).all
    ensures forall k, sync :: 0 <= sync < j && ops[sync].SyncOp? ==> Replay(n, ops[..sync + 1], k).all <= SavedOf(trace[i], k)
  {
    hide Replay, StoreOk, Storable, Increasing, HeldOf, SavedOf, LoadableData, KeysCover, Follows;
    assert StepOk(trace, stops, marks, j);
    var m := trace[i];
    StopsFollow(n, ops, trace, stops, marks, j + 1, |ops|);
    FollowsTransitive(m, stops[j + 1], stops[|ops|]);
    assert StopOk(n, ops, stops, |ops|) && ops[..|ops|] == ops;
    forall k | k in m.items ensures Storable(k) && Increasing(SavedOf(m, k)) {
      FollowsKey(m, stops[|ops|], k);
      SavedPrefix(m, k);
      PrefixTransitive(SavedOf(m, k), HeldOf(m, k), Replay(n, ops, k).all);
      PrefixIncreasing(SavedOf(m, k), Replay(n, ops, k).all);
    }
    MomentLoadable(m);
    forall k ensures SavedOf(m, k) <= Replay(n, ops[..j + 1], k).all {
      SavedUpper(n, ops, trace, stops, marks, j, i, k);
      PrefixTransitive(SavedOf(m, k), HeldOf(m, k), Replay(n, ops[..j + 1], k).all);
    }
    forall k, sync | 0 <= sync < j && ops[sync].SyncOp?
      ensures Replay(n, ops[..sync + 1], k).all <= SavedOf(m, k)
    {
      SavedLower(n, ops, trace, stops, marks, j, i, sync, k);
    }
  }

  lemma FollowsKey(a: Moment, b: Moment, key: Key)
    requires Follows(a, b)
    ensures HeldOf(a, key) <= HeldOf(b, key) && (key in a.items ==> key in b.items)
  {
    hide HeldOf, SavedOf;
  }

  lemma PrefixTransitive(a: seq<Point>, b: seq<Point>, c: seq<Point>)
    requires a <= b <= c
    ensures a <= c
  {
  }

  // ----- the deletion test after a restart -----

  /** A series of one complete block, reloaded: the trim at time 50 asks for its deletion
      although it returns a point of time 100. */
  method ReloadedSeriesDeleted() returns (shouldDelete: bool, pts: seq<Point>)
    ensures shouldDelete && pts == [Point(100, Zero())]
  {
    hide StoreOk, ItemOk, Contents, Encodable, Orderly, SavedOf, Points;
    var key: Key := [65];
    var p := Point(100, Zero());
    var m := OneBlock(key, p);
    OneBlockMoment(key, p);
    var dataScan := Enumerate(m.data.Keys);
    var keyScan := Enumerate(m.keys.Keys);
    var store := LoadMoment(192, m.data, m.keys, dataScan, keyScan, m);
    var err;
    err, pts := store.Get(key, 1);
    shouldDelete := store.Trim(key, 50);
  }

  /** Files with one complete block of one point. */
  function OneBlock(key: Key, p: Point): Moment
  {
    Moment(map[key := Item(1, 64, [], [OffTime(64, p.t), OffTime(0, 0)])], [key], 2,
           map[64 := DataBlock(true, 1, [p])], map[64 := KeyBlock(key, 1)], map[1 := key])
  }

  lemma OneBlockMoment(key: Key, p: Point)
    requires 0 < p.t < TWO63 && Storable(key)
    ensures MomentOk(OneBlock(key, p)) && Orderly(OneBlock(key, p)) && SavedOf(OneBlock(key, p), key) == [p]
    ensures Saved(OneBlock(key, p).data, OneBlock(key, p).items[key]).mem == []
  {
    hide Storable, ItemOk, Contents, Encodable;
    var m := OneBlock(key, p);
    var it := m.items[key];
    OneBlockItem(m.data, it, p);
    assert it.offsets[0].offset == 64 && Holds(it, 64);
  }

  lemma OneBlockItem(data: map<nat, DataBlock>, it: Item, p: Point)
    requires 0 < p.t < TWO63 && data == map[64 := DataBlock(true, 1, [p])] && it == Item(1, 64, [], [OffTime(64, p.t), OffTime(0, 0)])
    ensures ItemOk(data, it) && Contents(data, it) == [p] && Saved(data, it) == it
  {
    hide Encodable;
    EmptyHeader();
    RetryAdds(192, p);
    assert Closed(it.offsets) == [OffTime(64, p.t)] && [OffTime(64, p.t)][..0] == [];
    NoPoints(data);
    assert Points(data, [OffTime(64, p.t)]) == [] + [p];
  }
}
