/** storage_load (storage.c:175-340, 629-725): rebuilding the series from the two files,
    and the proof that a synced store comes back as it was. */
module Reload {
  import opened Basics
  import opened TscCodec
  import opened TscBlock
  import opened SeriesStore
  import opened SeriesOps

  function Start(b: DataBlock): int { if b.pts == [] then 0 else b.pts[0].t }

  /** Data files storage_load accepts: usable blocks, whose start times tell the blocks of
      a series apart, the ACTIVE one being the latest. */
  ghost predicate LoadableData(data: map<nat, DataBlock>)
  {
    && (forall o :: o in data ==> BlockUsable(o, data[o]))
    && (forall o, p :: o in data && p in data && o != p && data[o].id == data[p].id ==>
          Start(data[o]) != Start(data[p]) && (!data[o].complete ==> Start(data[p]) < Start(data[o])))
  }

  ghost predicate BlockUsable(o: nat, b: DataBlock)
  {
    o != 0 && b.pts != [] && Start(b) > 0 && Encodable(b.pts)
  }

  /** Key files: one block per id and per key, under the names the ids were given. */
  ghost predicate LoadableKeys(keys: map<nat, KeyBlock>, names: map<nat, Key>)
  {
    && (forall k :: k in keys ==> Storable(keys[k].key) && keys[k].id > 0 && keys[k].id in names && names[keys[k].id] == keys[k].key)
    && (forall k, l :: k in keys && l in keys && keys[k].id == keys[l].id ==> k == l)
    && (forall k, l :: k in keys && l in keys && keys[k].key == keys[l].key ==> k == l)
  }

  /** A scan of a block store yields every live block once (DiskStorage.Store.ScanAll). */
  ghost predicate Scans(scan: seq<nat>, live: set<nat>)
  {
    && (forall o :: o in live <==> o in scan)
    && (forall i, j :: 0 <= i < j < |scan| ==> scan[i] != scan[j])
  }

  // ----- data blocks -----

  ghost predicate ByStart(slots: seq<OffTime>)
  {
    forall i, j :: 0 <= i < j < |slots| ==> slots[i].start < slots[j].start
  }

  /** The slots of series `id` after the blocks in `done`: one per block, by start time, and
      the compressor of its ACTIVE block. */
  ghost predicate Gathered(data: map<nat, DataBlock>, done: set<nat>, id: nat, it: Item)
  {
    && it.id == id && ByStart(it.offsets)
    && (forall i :: 0 <= i < |it.offsets| ==> it.offsets[i].offset in done && SlotOf(data, id, it.offsets[i]))
    && (forall o :: o in done && o in data && data[o].id == id ==> OffTime(o, Start(data[o])) in it.offsets)
    && (forall o :: o in done && o in data && data[o].id == id && !data[o].complete ==> it.mem == data[o].pts)
    && ((forall o :: o in done && o in data && data[o].id == id ==> data[o].complete) ==> it.mem == [])
  }

  ghost predicate SlotOf(data: map<nat, DataBlock>, id: nat, s: OffTime)
  {
    s.offset in data && data[s.offset].id == id && s.start == Start(data[s.offset])
  }

  /** The insertion loop of storage_insert_data_block_during_initial_load. */
  method InsertSlot(slots: seq<OffTime>, s: OffTime) returns (r: seq<OffTime>, last: bool)
    requires ByStart(slots) && forall i :: 0 <= i < |slots| ==> slots[i].start != s.start
    ensures ByStart(r) && (forall x :: x in r <==> x in slots || x == s)
    ensures last <==> forall i :: 0 <= i < |slots| ==> slots[i].start < s.start
  {
    var i := 0;
    while i < |slots|
      invariant 0 <= i <= |slots| && forall j :: 0 <= j < i ==> slots[j].start < s.start
    {
      if s.start < slots[i].start {
        break;
      }
      i := i + 1;
    }
    r := slots[..i] + [s] + slots[i..];
    last := i == |slots|;
    assert slots == slots[..i] + slots[i..];
    if i < |slots| {
      assert forall j :: i <= j < |slots| ==> s.start < slots[j].start;
    }
  }

  /** One more block goes into its series. */
  lemma GatherStep(data: map<nat, DataBlock>, done: set<nat>, o: nat, it: Item, it': Item)
    requires LoadableData(data) && o in data && o !in done && Gathered(data, done, data[o].id, it)
    requires it'.id == it.id && ByStart(it'.offsets)
    requires forall x :: x in it'.offsets <==> x in it.offsets || x == OffTime(o, Start(data[o]))
    requires it'.mem == if data[o].complete then it.mem else data[o].pts
    ensures Gathered(data, done + {o}, data[o].id, it')
  {
    hide ByStart, Encodable;
    var id := data[o].id;
    forall i | 0 <= i < |it'.offsets| ensures it'.offsets[i].offset in done + {o} && SlotOf(data, id, it'.offsets[i]) {
      assert it'.offsets[i] in it'.offsets;
      if it'.offsets[i] in it.offsets {
        var j :| 0 <= j < |it.offsets| && it.offsets[j] == it'.offsets[i];
      }
    }
  }

  /** A series that block o does not belong to is not affected by it. */
  lemma GatherOther(data: map<nat, DataBlock>, done: set<nat>, o: nat, id: nat, it: Item)
    requires o in data && data[o].id != id && Gathered(data, done, id, it)
    ensures Gathered(data, done + {o}, id, it)
  {
    hide ByStart;
  }

  lemma GatherNone(data: map<nat, DataBlock>, done: set<nat>, id: nat)
    requires forall o :: o in done && o in data ==> data[o].id != id
    ensures Gathered(data, done, id, Item(id, 0, [], []))
  {
  }

  /** Everything gathered so far, by id. */
  ghost predicate GatheredAll(data: map<nat, DataBlock>, done: set<nat>, pending: map<nat, Item>)
  {
    && (forall id :: id in pending ==> Gathered(data, done, id, pending[id]) && pending[id].offsets != [])
    && (forall o :: o in done && o in data ==> data[o].id in pending)
  }

  method GatherBlocks(data: map<nat, DataBlock>, scan: seq<nat>) returns (pending: map<nat, Item>)
    requires LoadableData(data) && Scans(scan, data.Keys)
    ensures GatheredAll(data, data.Keys, pending)
  {
    hide Gathered, LoadableData, Encodable;
    pending := map[];
    ghost var done: set<nat> := {};
    var i := 0;
    while i < |scan|
      invariant 0 <= i <= |scan| && (forall o :: o in done <==> o in scan[..i])
      invariant GatheredAll(data, done, pending)
    {
      var o := scan[i];
      assert o in scan && o !in done;
      assert scan[..i + 1] == scan[..i] + [o];
      var b := data[o];
      Usable(data, o);
      assert Start(b) != 0;
      if b.id !in pending {
        GatherNone(data, done, b.id);
      }
      var it := if b.id in pending then pending[b.id] else Item(b.id, 0, [], []);
      SlotFree(data, done, o, it);
      var slots, last := InsertSlot(it.offsets, OffTime(o, Start(b)));
      if !b.complete {
        assert last by { ActiveLast(data, done, o, it); }
      }
      var it' := it.(offsets := slots, mem := if b.complete then it.mem else b.pts);
      GatherStep(data, done, o, it, it');
      assert OffTime(o, Start(b)) in slots;
      forall id | id in pending && id != b.id ensures Gathered(data, done + {o}, id, pending[id]) {
        GatherOther(data, done, o, id, pending[id]);
      }
      pending := pending[b.id := it'];
      done := done + {o};
      i := i + 1;
    }
    assert scan[..|scan|] == scan;
    assert done == data.Keys;
  }

  lemma Usable(data: map<nat, DataBlock>, o: nat)
    requires LoadableData(data) && o in data
    ensures BlockUsable(o, data[o])
  {
  }

  lemma SlotFree(data: map<nat, DataBlock>, done: set<nat>, o: nat, it: Item)
    requires LoadableData(data) && o in data && o !in done && Gathered(data, done, data[o].id, it)
    ensures ByStart(it.offsets) && forall i :: 0 <= i < |it.offsets| ==> it.offsets[i].start != Start(data[o])
  {
    hide ByStart, Encodable;
    forall i | 0 <= i < |it.offsets| ensures it.offsets[i].start != Start(data[o]) {
      assert SlotOf(data, data[o].id, it.offsets[i]);
    }
  }

  lemma ActiveLast(data: map<nat, DataBlock>, done: set<nat>, o: nat, it: Item)
    requires LoadableData(data) && o in data && o !in done && !data[o].complete && Gathered(data, done, data[o].id, it)
    ensures forall i :: 0 <= i < |it.offsets| ==> it.offsets[i].start < Start(data[o])
  {
    hide ByStart, Encodable;
    forall i | 0 <= i < |it.offsets| ensures it.offsets[i].start < Start(data[o]) {
      assert SlotOf(data, data[o].id, it.offsets[i]);
    }
  }

  // ----- the loaded series -----

  /** The last step of the load: a series without ACTIVE block gets an unwritten slot. */
  function Finished(it: Item): Item
  {
    if it.mem == [] then it.(offsets := it.offsets + [OffTime(0, 0)]) else it
  }

  /** A slot is complete unless it is the last slot of a series with an ACTIVE block. */
  lemma GatheredKinds(data: map<nat, DataBlock>, id: nat, it: Item)
    requires LoadableData(data) && Gathered(data, data.Keys, id, it) && it.offsets != []
    ensures it.mem == [] ==> forall i :: 0 <= i < |it.offsets| ==> data[it.offsets[i].offset].complete
    ensures it.mem != [] ==>
      (forall i :: 0 <= i < |it.offsets| ==> (data[it.offsets[i].offset].complete <==> i < |it.offsets| - 1))
    ensures it.mem != [] ==> data[it.offsets[|it.offsets| - 1].offset].pts == it.mem
  {
    hide Encodable;
    var last := |it.offsets| - 1;
    forall i | 0 <= i < |it.offsets| && !data[it.offsets[i].offset].complete
      ensures i == last && it.mem == data[it.offsets[i].offset].pts && it.mem != []
    {
      assert SlotOf(data, id, it.offsets[i]) && SlotOf(data, id, it.offsets[last]);
      Usable(data, it.offsets[i].offset);
    }
    if it.mem != [] {
      var o :| o in data && data[o].id == id && !data[o].complete;
      var j :| 0 <= j < |it.offsets| && it.offsets[j] == OffTime(o, Start(data[o]));
    }
  }

  lemma FinishedOk(data: map<nat, DataBlock>, id: nat, it: Item)
    requires LoadableData(data) && Gathered(data, data.Keys, id, it) && it.offsets != []
    ensures ItemOk(data, Finished(it))
  {
    hide Encodable, ByStart;
    GatheredKinds(data, id, it);
    GatheredDistinct(data, id, it);
    var f := Finished(it);
    forall i | 0 <= i < |it.offsets| ensures SlotOf(data, id, it.offsets[i]) && BlockUsable(it.offsets[i].offset, data[it.offsets[i].offset]) {
      assert SlotOf(data, id, it.offsets[i]);
      Usable(data, it.offsets[i].offset);
    }
    forall i | 0 <= i < |f.offsets| - 1 ensures ClosedOk(data, id, f.offsets[i]) {
      assert f.offsets[i] == it.offsets[i];
    }
    EmptyHeader();
    if it.mem != [] {
      assert CurrentOk(data, f, f.offsets[|f.offsets| - 1]);
    }
  }

  lemma GatheredDistinct(data: map<nat, DataBlock>, id: nat, it: Item)
    requires Gathered(data, data.Keys, id, it) && LoadableData(data)
    ensures var s := Finished(it).offsets; forall i, j :: 0 <= i < j < |s| ==> s[i].offset != s[j].offset
  {
    hide Encodable;
    var s := Finished(it).offsets;
    forall i, j | 0 <= i < j < |s| ensures s[i].offset != s[j].offset {
      assert s[i] == it.offsets[i] && SlotOf(data, id, it.offsets[i]);
      Usable(data, it.offsets[i].offset);
      if j < |it.offsets| {
        assert s[j] == it.offsets[j] && SlotOf(data, id, it.offsets[j]);
      }
    }
  }

  // ----- a synced store comes back -----

  lemma {:induction false} SortedUnique(a: seq<OffTime>, b: seq<OffTime>)
    requires ByStart(a) && ByStart(b) && forall x :: x in a <==> x in b
    ensures a == b
    decreases |a|
  {
    assert (a != [] ==> a[0] in b) && (b != [] ==> b[0] in a);
    if a != [] && b != [] {
      HeadFirst(a, b[0]);
      HeadFirst(b, a[0]);
      var ta, tb := a[1..], b[1..];
      assert a == [a[0]] + ta && b == [b[0]] + tb;
      forall x ensures x in ta <==> x in tb {
        TailMembers(a, x);
        TailMembers(b, x);
      }
      SortedUnique(ta, tb);
    }
  }

  lemma HeadFirst(a: seq<OffTime>, x: OffTime)
    requires ByStart(a) && x in a
    ensures x == a[0] || x.start > a[0].start
  {
    var i :| 0 <= i < |a| && a[i] == x;
    assert i > 0 ==> a[0].start < a[i].start;
  }

  lemma TailMembers(a: seq<OffTime>, x: OffTime)
    requires a != [] && ByStart(a)
    ensures x in a[1..] <==> x in a && x != a[0]
  {
    assert a == [a[0]] + a[1..];
    if x in a[1..] {
      var i :| 0 <= i < |a[1..]| && a[1..][i] == x;
      assert a[i + 1] == x;
    }
  }

  /** The slots of blocks on disk. */
  function OnDiskSlots(offsets: seq<OffTime>): seq<OffTime>
  {
    if offsets != [] && offsets[|offsets| - 1].offset == 0 then Closed(offsets) else offsets
  }

  /** A slot records the start time of its block, which is complete unless it is the last. */
  lemma SlotStart(data: map<nat, DataBlock>, it: Item, i: nat)
    requires ItemOk(data, it) && i < |it.offsets| && it.offsets[i].offset != 0
    ensures SlotOf(data, it.id, it.offsets[i])
    ensures data[it.offsets[i].offset].complete <==> i < |it.offsets| - 1
  {
    hide Encodable;
    SlotKind(data, it, i);
    assert i < |it.offsets| - 1 ==> ClosedOk(data, it.id, it.offsets[i]);
  }

  /** The written slots of a series in time order are sorted by start time. */
  lemma WrittenByStart(data: map<nat, DataBlock>, it: Item)
    requires ItemOk(data, it) && Increasing(Contents(data, it))
    ensures ByStart(OnDiskSlots(it.offsets))
  {
    hide Encodable, Points, ItemOk, Contents;
    var s := OnDiskSlots(it.offsets);
    forall i, j | 0 <= i < j < |s| ensures s[i].start < s[j].start {
      SlotKind(data, it, i);
      SlotKind(data, it, j);
      BlockFollows(data, it, i);
      BlockFollows(data, it, j);
      PointsGrow(data, it, i, j);
    }
  }

  lemma PointsGrow(data: map<nat, DataBlock>, it: Item, i: nat, j: nat)
    requires ItemOk(data, it) && i < j < |it.offsets|
    ensures |Points(data, it.offsets[..i])| < |Points(data, it.offsets[..j])|
  {
    hide Encodable;
    assert ClosedOk(data, it.id, it.offsets[i]);
    assert it.offsets[..i + 1][..i] == it.offsets[..i] && it.offsets[..i + 1][i] == it.offsets[i];
    assert it.offsets[..j][..i + 1] == it.offsets[..i + 1];
    PointsPrefix(data, it.offsets[..j], i + 1);
  }

  /** What the load gathers for a series is what its files know of it. */
  lemma SavedReloads(data: map<nat, DataBlock>, it: Item, got: Item)
    requires ItemOk(data, it) && it == Saved(data, it) && Increasing(Contents(data, it)) && LoadableData(data)
    requires forall o :: o in data && data[o].id == it.id ==> Holds(it, o)
    requires Gathered(data, data.Keys, it.id, got)
    ensures got.offsets == OnDiskSlots(it.offsets) && got.mem == it.mem
  {
    hide Encodable, Points, ItemOk, Contents;
    WrittenByStart(data, it);
    WrittenSlotsOf(data, it);
    var slots := OnDiskSlots(it.offsets);
    forall x ensures x in got.offsets <==> x in slots {
      if x in got.offsets {
        var i :| 0 <= i < |got.offsets| && got.offsets[i] == x;
        assert SlotOf(data, it.id, got.offsets[i]);
        assert Holds(it, x.offset);
        HeldWritten(it, x.offset);
        var j :| 0 <= j < |slots| && slots[j].offset == x.offset;
        assert SlotOf(data, it.id, slots[j]);
      }
      if x in slots {
        var i :| 0 <= i < |slots| && slots[i] == x;
        assert SlotOf(data, it.id, slots[i]);
      }
    }
    SortedUnique(got.offsets, slots);
    SavedMemory(data, it, got);
  }

  lemma HeldWritten(it: Item, o: nat)
    requires Holds(it, o)
    ensures exists j :: 0 <= j < |OnDiskSlots(it.offsets)| && OnDiskSlots(it.offsets)[j].offset == o
  {
    var j :| 0 <= j < |it.offsets| && it.offsets[j].offset == o;
    assert OnDiskSlots(it.offsets)[j].offset == o;
  }

  lemma WrittenSlotsOf(data: map<nat, DataBlock>, it: Item)
    requires ItemOk(data, it)
    ensures var slots := OnDiskSlots(it.offsets); forall i :: 0 <= i < |slots| ==> slots[i].offset != 0 && SlotOf(data, it.id, slots[i])
  {
    hide Encodable, ItemOk;
    var slots := OnDiskSlots(it.offsets);
    forall i | 0 <= i < |slots| ensures slots[i].offset != 0 && SlotOf(data, it.id, slots[i]) {
      SlotKind(data, it, i);
      SlotStart(data, it, i);
    }
  }

  /** The compressor comes from the ACTIVE block, or is clear when there is none. */
  lemma SavedMemory(data: map<nat, DataBlock>, it: Item, got: Item)
    requires ItemOk(data, it) && it == Saved(data, it) && Gathered(data, data.Keys, it.id, got)
    requires forall o :: o in data && data[o].id == it.id ==> Holds(it, o)
    ensures got.mem == it.mem
  {
    hide Encodable, ItemOk;
    var last := |it.offsets| - 1;
    if it.offsets != [] && it.offsets[last].offset != 0 {
      SlotStart(data, it, last);
      assert !data[it.offsets[last].offset].complete;
    } else {
      forall o | o in data && data[o].id == it.id ensures data[o].complete {
        assert Holds(it, o);
        var i :| 0 <= i < |it.offsets| && it.offsets[i].offset == o;
        SlotStart(data, it, i);
      }
    }
  }

  // ----- keys -----

  ghost predicate HasData(data: map<nat, DataBlock>, id: nat)
  {
    exists o :: o in data && data[o].id == id
  }

  /** What the load built for id: the gathered slots, and an unwritten one after them when
      there is no ACTIVE block. */
  ghost predicate Loaded(data: map<nat, DataBlock>, id: nat, it: Item)
  {
    exists g: Item :: Gathered(data, data.Keys, id, g) && g.offsets != []
      && it == Finished(g).(keyOffset := it.keyOffset)
  }

  lemma LoadedOk(data: map<nat, DataBlock>, id: nat, it: Item)
    requires LoadableData(data) && Loaded(data, id, it)
    ensures ItemOk(data, it) && it.id == id
    ensures forall o :: o in data && data[o].id == id ==> Holds(it, o)
  {
    hide Encodable, ByStart, LoadableData;
    var g: Item :| Gathered(data, data.Keys, id, g) && g.offsets != [] && it == Finished(g).(keyOffset := it.keyOffset);
    FinishedOk(data, id, g);
    forall o | o in data && data[o].id == id ensures Holds(it, o) {
      var i :| 0 <= i < |g.offsets| && g.offsets[i] == OffTime(o, Start(data[o]));
      Usable(data, o);
      assert it.offsets[i].offset == o;
    }
  }

  /** The series attached after the key blocks in `done`. */
  ghost predicate Attached(data: map<nat, DataBlock>, keys: map<nat, KeyBlock>, done: set<nat>,
                           items: map<Key, Item>, list: seq<Key>, live: map<nat, KeyBlock>)
  {
    && (forall k :: k in done && k in keys && HasData(data, keys[k].id) ==>
          keys[k].key in items && Loaded(data, keys[k].id, items[keys[k].key]) && items[keys[k].key].keyOffset == k)
    && (forall x :: x in items ==> exists k :: k in done && k in keys && keys[k].key == x && HasData(data, keys[k].id))
    && (forall k :: k in live <==> k in keys && (k in done ==> HasData(data, keys[k].id)))
    && (forall k :: k in live ==> live[k] == keys[k])
    && Distinct(list) && (forall x :: x in items <==> x in list)
  }

  /** A key file that storage_load accepts with the data: loadable, and with a key for every
      block. */
  ghost predicate KeysCover(keys: map<nat, KeyBlock>, names: map<nat, Key>, data: map<nat, DataBlock>)
  {
    LoadableKeys(keys, names) && forall o :: o in data ==> HasKeyBlock(keys, data[o].id)
  }

  /** storage_load. The asserts of the C code (a usable start time, the ACTIVE block last,
      one key per item, a key for every item) hold under the requires. The files stay as they
      are but for released keys without data; `steps` are the key files after each release,
      and a load that is interrupted there can be run again. */
  method Load(bits: nat, data: map<nat, DataBlock>, keys: map<nat, KeyBlock>,
              dataScan: seq<nat>, keyScan: seq<nat>, ghost names: map<nat, Key>)
      returns (store: Storage, ghost steps: seq<map<nat, KeyBlock>>)
    requires bits >= 192 && LoadableData(data) && LoadableKeys(keys, names)
    requires forall o :: o in data ==> HasKeyBlock(keys, data[o].id)
    requires Scans(dataScan, data.Keys) && Scans(keyScan, keys.Keys)
    ensures fresh(store) && store.Valid() && store.n == bits && store.data == data
    ensures forall k :: k in keys ==> (keys[k].key in store.items <==> HasData(data, keys[k].id))
    ensures forall k :: k in keys && HasData(data, keys[k].id) ==>
      Loaded(data, keys[k].id, store.items[keys[k].key]) && store.items[keys[k].key].keyOffset == k
    ensures forall x :: x in store.items ==> exists k :: k in keys && keys[k].key == x
    ensures forall i :: 0 <= i < |steps| ==> KeysCover(steps[i], names, data)
  {
    hide LoadableData, LoadableKeys, Gathered, GatheredAll, Encodable, KeysCover, Loaded, HasKeyBlock, Storable, HasData, StoreOk,
         ItemOk, Attached;
    var pending := GatherBlocks(data, dataScan);
    var items: map<Key, Item>, list: seq<Key>, live, nextId := map[], [], keys, 1;
    ghost var done: set<nat> := {};
    steps := [];
    AttachedNone(data, keys);
    var i := 0;
    while i < |keyScan|
      invariant 0 <= i <= |keyScan| && (forall k :: k in done <==> k in keyScan[..i])
      invariant Attached(data, keys, done, items, list, live)
      invariant nextId > 0 && forall k :: k in done && k in keys ==> keys[k].id < nextId
      invariant forall j :: 0 <= j < |steps| ==> KeysCover(steps[j], names, data)
    {
      var k := keyScan[i];
      assert k in keyScan && k !in done;
      assert keyScan[..i + 1] == keyScan[..i] + [k];
      var kb := keys[k];
      if kb.id >= nextId {
        nextId := kb.id + 1;
      }
      PendingHasData(data, pending, kb.id);
      if kb.id in pending {
        var item := Finished(pending[kb.id]).(keyOffset := k);
        AttachStep(data, keys, names, done, items, list, live, k, pending[kb.id]);
        items := items[kb.key := item];
        list := list + [kb.key];
      } else {
        // a key without data is released
        DropStep(data, keys, names, done, items, list, live, k);
        live := live - {k};
        steps := steps + [live];
      }
      done := done + {k};
      i := i + 1;
    }
    assert keyScan[..|keyScan|] == keyScan;
    assert done == keys.Keys;
    ghost var known := map id | id in names && 0 < id < nextId :: names[id];
    LoadOk(data, keys, names, items, list, live, nextId, known);
    AttachedEnd(data, keys, items, list, live);
    store := new Storage.Restart(bits, data, live, known);
    store.items, store.list, store.nextId := items, list, nextId;
  }

  lemma PendingHasData(data: map<nat, DataBlock>, pending: map<nat, Item>, id: nat)
    requires GatheredAll(data, data.Keys, pending)
    ensures id in pending <==> HasData(data, id)
    ensures id in pending ==> Gathered(data, data.Keys, id, pending[id]) && pending[id].offsets != []
  {
    if id in pending {
      var it := pending[id];
      assert it.offsets[0].offset in data.Keys && SlotOf(data, id, it.offsets[0]);
    }
  }

  /** Key files that keep a block for every id with data can still be loaded. */
  lemma LiveCovers(data: map<nat, DataBlock>, keys: map<nat, KeyBlock>, live: map<nat, KeyBlock>, names: map<nat, Key>)
    requires KeysCover(keys, names, data)
    requires forall k :: k in live ==> k in keys && live[k] == keys[k]
    requires forall k :: k in keys && HasData(data, keys[k].id) ==> k in live
    ensures KeysCover(live, names, data)
  {
    forall o | o in data ensures HasKeyBlock(live, data[o].id) {
      var k :| k in keys && keys[k].id == data[o].id;
      assert HasData(data, keys[k].id);
      assert k in live && live[k].id == data[o].id;
    }
  }

  lemma AttachStep(data: map<nat, DataBlock>, keys: map<nat, KeyBlock>, names: map<nat, Key>, done: set<nat>,
                   items: map<Key, Item>, list: seq<Key>, live: map<nat, KeyBlock>, k: nat, g: Item)
    requires LoadableKeys(keys, names) && Attached(data, keys, done, items, list, live) && k in keys && k !in done
    requires HasData(data, keys[k].id) && Gathered(data, data.Keys, keys[k].id, g) && g.offsets != []
    ensures keys[k].key !in items
    ensures Attached(data, keys, done + {k}, items[keys[k].key := Finished(g).(keyOffset := k)], list + [keys[k].key], live)
  {
    hide Gathered, HasData, Storable, Distinct;
    var key, it := keys[k].key, Finished(g).(keyOffset := k);
    assert Loaded(data, keys[k].id, it);
    hide Loaded;
    assert key !in items;
    ListGrows(items, list, key, it);
    var items' := items[key := it];
    AttachedNames(data, keys, done, items, list, live, k);
    var done' := done + {k};
    forall l | l in done' && l in keys && HasData(data, keys[l].id)
      ensures keys[l].key in items' && Loaded(data, keys[l].id, items'[keys[l].key]) && items'[keys[l].key].keyOffset == l
    {
      if l != k { assert l in done && keys[l].key != key; }
    }
  }

  lemma AttachedNames(data: map<nat, DataBlock>, keys: map<nat, KeyBlock>, done: set<nat>,
                      items: map<Key, Item>, list: seq<Key>, live: map<nat, KeyBlock>, k: nat)
    requires Attached(data, keys, done, items, list, live) && k in keys && HasData(data, keys[k].id)
    ensures forall x :: x in items || x == keys[k].key ==>
      exists l :: l in done + {k} && l in keys && keys[l].key == x && HasData(data, keys[l].id)
  {
    hide HasData, Loaded, Distinct;
    forall x | x in items || x == keys[k].key
      ensures exists l :: l in done + {k} && l in keys && keys[l].key == x && HasData(data, keys[l].id)
    {
      if x != keys[k].key {
        var l :| l in done && l in keys && keys[l].key == x && HasData(data, keys[l].id);
        assert l in done + {k};
      } else {
        assert k in done + {k};
      }
    }
  }

  lemma AttachedNone(data: map<nat, DataBlock>, keys: map<nat, KeyBlock>)
    ensures Attached(data, keys, {}, map[], [], keys)
  {
  }

  lemma AttachedEnd(data: map<nat, DataBlock>, keys: map<nat, KeyBlock>, items: map<Key, Item>, list: seq<Key>,
                    live: map<nat, KeyBlock>)
    requires Attached(data, keys, keys.Keys, items, list, live)
    ensures forall k :: k in keys && HasData(data, keys[k].id) ==>
      keys[k].key in items && Loaded(data, keys[k].id, items[keys[k].key]) && items[keys[k].key].keyOffset == k
    ensures forall x :: x in items ==> exists k :: k in keys && keys[k].key == x
  {
    hide Loaded, HasData, Distinct;
    forall x | x in items ensures exists k :: k in keys && keys[k].key == x {
      var k :| k in keys.Keys && k in keys && keys[k].key == x && HasData(data, keys[k].id);
    }
  }

  lemma DropStep(data: map<nat, DataBlock>, keys: map<nat, KeyBlock>, names: map<nat, Key>, done: set<nat>,
                 items: map<Key, Item>, list: seq<Key>, live: map<nat, KeyBlock>, k: nat)
    requires Attached(data, keys, done, items, list, live) && k in keys && k !in done && !HasData(data, keys[k].id)
    requires LoadableKeys(keys, names) && (forall o :: o in data ==> HasKeyBlock(keys, data[o].id))
    ensures Attached(data, keys, done + {k}, items, list, live - {k})
    ensures KeysCover(live - {k}, names, data)
  {
    hide Loaded, HasData, Distinct, LoadableKeys, HasKeyBlock;
    LiveCovers(data, keys, live - {k}, names);
    forall x | x in items ensures exists l :: l in done + {k} && l in keys && keys[l].key == x && HasData(data, keys[l].id) {
      var l :| l in done && l in keys && keys[l].key == x && HasData(data, keys[l].id);
      assert l in done + {k};
    }
  }

  lemma LoadOk(data: map<nat, DataBlock>, keys: map<nat, KeyBlock>, names: map<nat, Key>, items: map<Key, Item>,
               list: seq<Key>, live: map<nat, KeyBlock>, nextId: nat, known: map<nat, Key>)
    requires LoadableData(data) && LoadableKeys(keys, names) && Attached(data, keys, keys.Keys, items, list, live)
    requires forall o :: o in data ==> HasKeyBlock(keys, data[o].id)
    requires nextId > 0 && forall k :: k in keys ==> keys[k].id < nextId
    requires known == map id | id in names && 0 < id < nextId :: names[id]
    ensures StoreOk(items, list, nextId, data, live, known)
    ensures forall k :: k in keys ==> (keys[k].key in items <==> HasData(data, keys[k].id))
  {
    hide LoadableData, Loaded, ItemOk, Storable, HasData, Distinct, Holds, StoreOk;
    forall x | x in items
      ensures ItemOk(data, items[x]) && items[x].id in known && known[items[x].id] == x
      ensures items[x].keyOffset in live && live[items[x].keyOffset] == KeyBlock(x, items[x].id)
    {
      var k :| k in keys && keys[k].key == x && HasData(data, keys[k].id);
      LoadedOk(data, keys[k].id, items[x]);
    }
    forall k | k in keys && keys[k].key in items ensures HasData(data, keys[k].id) {
      var l :| l in keys && keys[l].key == keys[k].key && HasData(data, keys[l].id);
      assert l == k;
    }
    forall k | k in live ensures live[k].key in items && items[live[k].key].id == live[k].id && items[live[k].key].keyOffset == k {
      LoadedOk(data, keys[k].id, items[keys[k].key]);
    }
    forall o | o in data
      ensures data[o].id in known && known[data[o].id] in items
      ensures items[known[data[o].id]].id == data[o].id && Holds(items[known[data[o].id]], o)
    {
      var k :| k in keys && keys[k].id == data[o].id;
      assert HasData(data, keys[k].id) by { BlockIsData(data, o); }
      LoadedOk(data, keys[k].id, items[keys[k].key]);
    }
    StoreFrom(items, list, nextId, data, live, known);
  }

  lemma BlockIsData(data: map<nat, DataBlock>, o: nat)
    requires o in data
    ensures HasData(data, data[o].id)
  {
  }

  // ----- sync, restart, load -----

  /** The files of a store with storable keys and increasing times are what storage_load
      accepts, synced or not. */
  lemma StoreLoadable(items: map<Key, Item>, list: seq<Key>, nextId: nat, data: map<nat, DataBlock>,
                      keys: map<nat, KeyBlock>, names: map<nat, Key>)
    requires StoreOk(items, list, nextId, data, keys, names)
    requires forall k :: k in items ==> Storable(k) && Increasing(SavedPoints(data, items[k]))
    ensures LoadableData(data) && KeysCover(keys, names, data)
  {
    hide ItemOk, Storable, Distinct, Contents, SavedPoints, Encodable;
    StoreCovered(items, list, nextId, data, keys, names);
    forall o | o in data ensures BlockUsable(o, data[o]) {
      var it := items[names[data[o].id]];
      HeldUsable(data, it, o);
    }
    forall o, p | o in data && p in data && o != p && data[o].id == data[p].id
      ensures Start(data[o]) != Start(data[p]) && (!data[o].complete ==> Start(data[p]) < Start(data[o]))
    {
      HeldApart(data, items[names[data[o].id]], o, p);
    }
    forall k, l | k in keys && l in keys && keys[k].id == keys[l].id ensures k == l {
      assert names[keys[k].id] == keys[k].key && names[keys[l].id] == keys[l].key;
    }
  }

  lemma HeldUsable(data: map<nat, DataBlock>, it: Item, o: nat)
    requires ItemOk(data, it) && Holds(it, o)
    ensures o in data && BlockUsable(o, data[o])
  {
    hide Encodable, Points;
    SavedOk(data, it);
    var i :| 0 <= i < |it.offsets| && it.offsets[i].offset == o;
    SlotKind(data, it, i);
    if i < |it.offsets| - 1 {
      assert ClosedOk(data, it.id, it.offsets[i]);
    } else {
      assert Saved(data, it).mem == data[o].pts;
    }
  }

  lemma HeldApart(data: map<nat, DataBlock>, it: Item, o: nat, p: nat)
    requires ItemOk(data, it) && Increasing(SavedPoints(data, it))
    requires Holds(it, o) && Holds(it, p) && o != p
    ensures o in data && p in data
    ensures Start(data[o]) != Start(data[p]) && (!data[o].complete ==> Start(data[p]) < Start(data[o]))
  {
    hide ItemOk, Contents, Increasing;
    var s := Saved(data, it);
    SavedOk(data, it);
    WrittenByStart(data, s);
    var i :| 0 <= i < |it.offsets| && it.offsets[i].offset == o;
    var j :| 0 <= j < |it.offsets| && it.offsets[j].offset == p;
    SlotStart(data, s, i);
    SlotStart(data, s, j);
    assert s.offsets[i] == OnDiskSlots(s.offsets)[i] && s.offsets[j] == OnDiskSlots(s.offsets)[j];
  }

  /** Every element of a finite set once, in some order. */
  method Enumerate(live: set<nat>) returns (scan: seq<nat>)
    ensures Scans(scan, live)
  {
    scan := [];
    var rest := live;
    while rest != {}
      invariant rest <= live && (forall o :: o in live <==> o in scan || o in rest)
      invariant forall o :: o in scan ==> o !in rest
      invariant forall i, j :: 0 <= i < j < |scan| ==> scan[i] != scan[j]
      decreases rest
    {
      var o :| o in rest;
      scan := scan + [o];
      rest := rest - {o};
    }
  }

  /** storage_sync, a restart and storage_load: every series is back exactly as it was, so
      that whatever follows behaves as if there had been no restart. */
  method SyncAndReload(store: Storage) returns (store': Storage)
    requires store.Valid() && (forall k :: k in store.items ==> Storable(k) && store.items[k].mem != [] && store.items[k].mem[0].t > 0)
    requires forall k :: k in store.items ==> Increasing(store.View(k))
    modifies store
    ensures store'.Valid() && store'.n == store.n
    ensures store'.items == store.items && store'.data == store.data
    ensures store'.items.Keys == old(store.items.Keys)
    ensures forall k :: k in store'.items ==> store'.View(k) == old(store.View(k))
    ensures forall k :: k in store'.items ==> store'.items[k].mem == old(store.items[k].mem)
  {
    hide StoreOk, ItemOk, Contents, Encodable, LoadableData, LoadableKeys, HasKeyBlock, Storable, HasData, Loaded,
         SyncedItem, Increasing, Advanced;
    store.Sync();
    SyncedSaved(store.items, store.data);
    StoreLoadable(store.items, store.list, store.nextId, store.data, store.keys, store.names);
    var dataScan := Enumerate(store.data.Keys);
    var keyScan := Enumerate(store.keys.Keys);
    ghost var steps;
    store', steps := Load(store.n, store.data, store.keys, dataScan, keyScan, store.names);
    ReloadedItems(store.items, store.list, store.nextId, store.data, store.keys, store.names, store'.items);
  }

  /** In a synced series everything is saved. */
  lemma SyncedSaved(items: map<Key, Item>, data: map<nat, DataBlock>)
    requires forall k :: k in items ==> SyncedItem(data, items[k])
    ensures forall k :: k in items ==> Saved(data, items[k]) == items[k] && SavedPoints(data, items[k]) == Contents(data, items[k])
    ensures forall k :: k in items ==> OnDiskSlots(items[k].offsets) == items[k].offsets && items[k].offsets != []
  {
  }

  lemma ReloadedItems(items: map<Key, Item>, list: seq<Key>, nextId: nat, data: map<nat, DataBlock>,
                      keys: map<nat, KeyBlock>, names: map<nat, Key>, loaded: map<Key, Item>)
    requires StoreOk(items, list, nextId, data, keys, names) && LoadableData(data)
    requires forall k :: k in items ==> Storable(k) && SyncedItem(data, items[k]) && Increasing(Contents(data, items[k]))
    requires forall k :: k in keys ==> (keys[k].key in loaded <==> HasData(data, keys[k].id))
    requires forall k :: k in keys && HasData(data, keys[k].id) ==>
      Loaded(data, keys[k].id, loaded[keys[k].key]) && loaded[keys[k].key].keyOffset == k
    requires forall x :: x in loaded ==> exists k :: k in keys && keys[k].key == x
    ensures loaded == items
  {
    hide StoreOk, ItemOk, Storable, Contents, LoadableData, Loaded, Increasing, HasData, SyncedItem;
    forall x | x in items ensures x in loaded && loaded[x] == items[x] {
      StoredSeries(items, list, nextId, data, keys, names, x);
      SyncedHasData(data, items[x]);
      SameItem(data, items[x], loaded[x]);
    }
    forall x | x in loaded ensures x in items {
      var k :| k in keys && keys[k].key == x;
      StoredKey(items, list, nextId, data, keys, names, k);
    }
    assert loaded.Keys == items.Keys;
  }

  lemma StoredSeries(items: map<Key, Item>, list: seq<Key>, nextId: nat, data: map<nat, DataBlock>,
                     keys: map<nat, KeyBlock>, names: map<nat, Key>, x: Key)
    requires StoreOk(items, list, nextId, data, keys, names) && x in items && Storable(x)
    ensures ItemOk(data, items[x]) && items[x].keyOffset in keys && keys[items[x].keyOffset] == KeyBlock(x, items[x].id)
    ensures forall o :: o in data && data[o].id == items[x].id ==> Holds(items[x], o)
  {
    hide ItemOk, Storable, Distinct, Holds;
    forall o | o in data && data[o].id == items[x].id ensures Holds(items[x], o) {
      assert names[data[o].id] == x;
    }
  }

  lemma StoredKey(items: map<Key, Item>, list: seq<Key>, nextId: nat, data: map<nat, DataBlock>,
                  keys: map<nat, KeyBlock>, names: map<nat, Key>, k: nat)
    requires StoreOk(items, list, nextId, data, keys, names) && k in keys
    ensures keys[k].key in items
  {
  }

  lemma SyncedHasData(data: map<nat, DataBlock>, it: Item)
    requires ItemOk(data, it) && SyncedItem(data, it)
    ensures HasData(data, it.id)
  {
    hide Encodable;
    var o := it.offsets[|it.offsets| - 1].offset;
    assert o in data && data[o].id == it.id;
  }

  lemma SameItem(data: map<nat, DataBlock>, it: Item, got: Item)
    requires ItemOk(data, it) && SyncedItem(data, it) && Increasing(Contents(data, it)) && LoadableData(data)
    requires forall o :: o in data && data[o].id == it.id ==> Holds(it, o)
    requires Loaded(data, it.id, got) && got.keyOffset == it.keyOffset
    ensures got == it
  {
    hide ItemOk, Increasing, Contents, LoadableData, Gathered, Holds, Encodable;
    var g: Item :| Gathered(data, data.Keys, it.id, g) && g.offsets != [] && got == Finished(g).(keyOffset := got.keyOffset);
    SavedReloads(data, it, g);
    GatheredId(data, it.id, g);
    CurrentStart(data, it);
  }

  lemma GatheredId(data: map<nat, DataBlock>, id: nat, g: Item)
    requires Gathered(data, data.Keys, id, g)
    ensures g.id == id
  {
  }
}
