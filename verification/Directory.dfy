/** The catalogue as the store uses it (storage.c:557-627, 1108-1151, 1309-1454): items are found
    by key, created with ascending ids, deleted, and looked up by label or scanned. */
module Directory {
  import opened Basics
  import opened Bytes
  import opened Words
  import opened RbTree
  import opened RbOps
  import opened RbHeap
  import opened TreeIter
  import opened ItemOrder
  import opened LfmBinary
  import opened Labels
  import opened Catalog
  import opened Lookup
  import opened Scan

  function KeyQuery(key: seq<Byte>): Entry { Entry(0, key, (i: nat) => None) }

  /** Looking for a key in the LFM index: the item with exactly that key, if there is one. */
  method FindByKey(cat: Catalogue, key: seq<Byte>) returns (r: Addr)
    requires cat.Valid()
    ensures r == 0 <==> forall x :: x in cat.list ==> cat.at(x).key != key
    ensures r != 0 ==> r in cat.list && cat.at(r).key == key
  {
    hide Linked, Repr, RedBlack, InOrder, IsComparator, Fits, LexCmp;
    var t := cat.trees[LFM_INDEX];
    ghost var at := cat.at;
    assert Holds(t, at, LFM_INDEX, InTree(cat.list, cat.pending, LFM_INDEX));
    var q := ProbeOf(cat.at, KeyQuery(key), LFM_INDEX);
    ProbeFits(at, KeyQuery(key), LFM_INDEX);
    r := FindMember(t, q);
    ghost var all := InOrder(t.shape);
    forall x ensures (x in all <==> x in cat.list) && (q(x) == 0 <==> at(x).key == key) {
      SameMembers(all, cat.list, x);
      LexAntisymmetric(key, at(x).key);
    }
  }

  /** Ids ascend along the list and stay below the next one; no key occurs twice. */
  ghost predicate DirectoryOk(at: Addr -> Entry, list: seq<Addr>, nextId: nat)
  {
    && nextId > 0 && Ascending(at, list)
    && (forall i :: 0 <= i < |list| ==> IdOf(at, list[i]) < nextId)
    && (forall i, j :: 0 <= i < j < |list| ==> at(list[i]).key != at(list[j]).key)
  }

  /** The entry storage_item_new makes: id, key, and the label values get_key_value finds. */
  ghost predicate Made(e: Entry, indices: seq<seq<Byte>>, id: nat, key: seq<Byte>)
  {
    e.internalId == id && e.key == key && forall i :: 0 <= i < |indices| ==> e.indexVal(i) == ValueIn(key, indices[i])
  }

  lemma InsertKeeps(at: Addr -> Entry, list: seq<Addr>, nextId: nat, p: Addr)
    requires DirectoryOk(at, list, nextId) && at(p).internalId == nextId
    requires forall x :: x in list ==> at(x).key != at(p).key
    ensures DirectoryOk(at, list + [p], nextId + 1)
  {
    var l := list + [p];
    forall i | 0 <= i < |l| ensures IdOf(at, l[i]) < nextId + 1 && IdOf(at, l[i]) > 0 { }
    forall i, j | 0 <= i < j < |l| ensures IdOf(at, l[i]) < IdOf(at, l[j]) && at(l[i]).key != at(l[j]).key {
      assert l[i] == list[i] && list[i] in list;
    }
  }

  lemma DeleteKeeps(at: Addr -> Entry, list: seq<Addr>, nextId: nat, p: Addr)
    requires DirectoryOk(at, list, nextId) && Distinct(list) && p in list
    ensures DirectoryOk(at, Without(list, p), nextId)
  {
    hide Without;
    var i :| 0 <= i < |list| && list[i] == p;
    UnlinkedWithout(list, i);
    var l := Unlinked(list, i);
    assert forall k :: 0 <= k < |l| ==> l[k] == list[if k < i then k else k + 1];
  }

  class Directory {
    const cat: Catalogue
    const indices: seq<seq<Byte>>
    var nextId: nat

    ghost predicate Valid()
      reads this, cat, cat.trees
    {
      && cat.Valid() && cat.pending == [] && |cat.trees| == |indices| + NUM_SPECIAL_INDICES
      && DirectoryOk(cat.at, cat.list, nextId)
      && forall x :: x in cat.list ==> Made(cat.at(x), indices, IdOf(cat.at, x), cat.at(x).key)
    }

    /** storage_init on empty files. */
    constructor (at: Addr -> Entry, indices: seq<seq<Byte>>)
      ensures Valid() && cat.list == [] && nextId == 1 && cat.at == at && this.indices == indices
      ensures fresh(cat) && fresh(cat.trees)
    {
      this.indices := indices;
      cat := new Catalogue(at, |indices|);
      nextId := 1;
    }

    /** storage_get_item with insertion. The memory p is what the allocator gives for a new item,
        filled in by storage_item_new. */
    method GetItem(key: seq<Byte>, p: Addr) returns (item: Addr, isNew: bool)
      requires Valid() && key != []
      requires p != 0 && p !in cat.list && Made(cat.at(p), indices, nextId, key)
      modifies this, cat, cat.trees
      ensures Valid() && item in cat.list && cat.at(item).key == key
      ensures isNew <==> forall x :: x in old(cat.list) ==> cat.at(x).key != key
      ensures !isNew ==> cat.list == old(cat.list) && nextId == old(nextId)
      ensures isNew ==> cat.list == old(cat.list) + [p] && item == p && nextId == old(nextId) + 1
    {
      hide Linked, Holds, DirectoryOk, Made;
      item := FindByKey(cat, key);
      isNew := item == 0;
      if isNew {
        assert cat.at(p).internalId == nextId && cat.at(p).key == key by { MadeFields(cat.at(p), indices, nextId, key); }
        InsertKeeps(cat.at, cat.list, nextId, p);
        cat.Insert(p);
        item := p;
        nextId := nextId + 1;
      }
    }

    /** storage_delete_item, as far as memory goes. */
    method Delete(item: Addr) returns (nx: Addr)
      requires Valid() && item in cat.list
      modifies cat, cat.trees
      ensures Valid() && cat.list == Without(old(cat.list), item) && nx == ItemAfter(old(cat.list), item)
    {
      hide Holds, DirectoryOk, Made, Without;
      LinkedDistinct(cat.list, cat.next, cat.prev, cat.first, cat.last);
      DeleteKeeps(cat.at, cat.list, nextId, item);
      WithoutMembers(cat.list, item);
      nx := cat.Delete(item);
    }
  }

  lemma MadeFields(e: Entry, indices: seq<seq<Byte>>, id: nat, key: seq<Byte>)
    requires Made(e, indices, id, key)
    ensures e.internalId == id && e.key == key
  {
  }

  // ----- lookups -----

  function MatcherOf(ms: seq<Label>): Matcher { (key: seq<Byte>) => MatchesAll(key, ms) }

  /** The items a client asks for: by name or by an indexed label, and by further matchers. */
  ghost function AskedFor(at: Addr -> Entry, indices: seq<seq<Byte>>, index: nat, value: seq<Byte>, ms: seq<Label>): Addr -> bool
    requires index == NAME_INDEX || NUM_SPECIAL_INDICES <= index < NUM_SPECIAL_INDICES + |indices|
  {
    (x: Addr) =>
      && (if index == NAME_INDEX then CString(at(x).key) == value
          else ValueIn(at(x).key, indices[index - NUM_SPECIAL_INDICES]) == Some(value))
      && MatchesAll(at(x).key, ms)
  }

  lemma {:induction false} SameFilter(list: seq<Addr>, a: Addr -> bool, b: Addr -> bool)
    requires forall x :: x in list ==> a(x) == b(x)
    ensures LinearLookup(list, a) == LinearLookup(list, b)
  {
    if list != [] {
      assert list[0] in list && forall x :: x in list[1..] ==> x in list;
      SameFilter(list[1..], a, b);
    }
  }

  /** storage_lookup with its matchers, on the keys themselves: the window of the items whose key
      has the value under the indexed label and matches. */
  method QueryLabels(dir: Directory, index: int, value: seq<Byte>, ms: seq<Label>, room: nat, offset: nat, limit: nat)
      returns (res: Outcome, out: seq<Byte>)
    requires dir.Valid() && |dir.cat.list| < Pow2(64) && Sendable(dir.cat.at, dir.cat.list) && 0 !in value
    ensures res == BadIndex <==> !(NAME_INDEX <= index < NUM_SPECIAL_INDICES + |dir.indices|)
    ensures res != BadIndex ==>
      Filled(dir.cat.at, Window(LinearLookup(dir.cat.list, AskedFor(dir.cat.at, dir.indices, index, value, ms)), offset, limit),
             room, res, out)
  {
    hide Linked, Holds, Pow2, Sendable, Filled, LinearLookup, Window, MatchesAll, DirectoryOk, ValueIn, CString;
    var cat := dir.cat;
    res, out := IndexLookup(cat, index, value, MatcherOf(ms), room, offset, limit);
    if res != BadIndex {
      ghost var a, b := Wanted(cat.at, index, value, MatcherOf(ms)), AskedFor(cat.at, dir.indices, index, value, ms);
      forall x | x in cat.list ensures a(x) == b(x) {
        assert Made(cat.at(x), dir.indices, IdOf(cat.at, x), cat.at(x).key);
      }
      SameFilter(cat.list, a, b);
    }
  }

  /** A full scan of any store opened empty: all matching items once, in the order in which
      their series were created. */
  method QueryAll(dir: Directory, ms: seq<Label>, room: nat, limit: nat) returns (res: Outcome, out: seq<Byte>)
    requires dir.Valid() && Sendable(dir.cat.at, dir.cat.list) && limit >= 1
    ensures var hits := Selected(Passing(dir.cat.at, MatcherOf(ms)), dir.cat.list);
      if res == Done then out == Packed(dir.cat.at, hits)
      else res == BufTooSmall && PageTooBig(dir.cat.at, hits, limit, room)
  {
    hide Linked, Holds, Sendable, Selected, Packed, PageTooBig, Ascending, Made;
    res, out := ScanPages(dir.cat, MatcherOf(ms), room, limit, (n: nat) => n);
  }

  /** Who is asked for, on label sets: an item whose key encodes a label set is found exactly when it is
      listed, has the name or label value sought, and every matcher holds of the label set. */
  lemma QueryMeaning(at: Addr -> Entry, list: seq<Addr>, indices: seq<seq<Byte>>, index: nat, value: seq<Byte>, ms: seq<Label>,
                     x: Addr, lfm: Lfm)
    requires index == NAME_INDEX || NUM_SPECIAL_INDICES <= index < NUM_SPECIAL_INDICES + |indices|
    requires Distinct(list) && CStrings(lfm) && at(x).key == EncodedBinary(lfm)
    requires 0 !in value && forall i :: 0 <= i < |ms| ==> NulFree(ms[i])
    ensures x in LinearLookup(list, AskedFor(at, indices, index, value, ms)) <==>
      && x in list && (forall i :: 0 <= i < |ms| ==> HoldsOf(lfm, ms[i]))
      && (if index == NAME_INDEX then NameOf(lfm) == value
          else FirstLabel(Searchable(lfm.labels), indices[index - NUM_SPECIAL_INDICES]) == Some(value))
  {
    hide Distinct, LinearLookup, MatchesAll, ValueIn, CString, CStrings, HoldsOf, EncodedBinary, FirstLabel, Searchable;
    LinearMembers(list, AskedFor(at, indices, index, value, ms));
    AllMatchersMeaning(lfm, ms);
    NameMeaning(lfm, value);
    if index >= NUM_SPECIAL_INDICES { LabelIndexed(lfm, indices[index - NUM_SPECIAL_INDICES]); }
  }

  /** The same for the full scan. */
  lemma ScanMeaning(at: Addr -> Entry, list: seq<Addr>, ms: seq<Label>, x: Addr, lfm: Lfm)
    requires CStrings(lfm) && at(x).key == EncodedBinary(lfm) && forall i :: 0 <= i < |ms| ==> NulFree(ms[i])
    ensures x in Selected(Passing(at, MatcherOf(ms)), list) <==> x in list && forall i :: 0 <= i < |ms| ==> HoldsOf(lfm, ms[i])
  {
    hide MatchesAll, CStrings, HoldsOf, EncodedBinary, Selected;
    SelectedMember(Passing(at, MatcherOf(ms)), list, x);
    AllMatchersMeaning(lfm, ms);
  }

  // ----- a scan that ends early -----

  /** Two items in memory: id 1 with key A, and id 2 with key B. */
  function TwoItems(x: Addr): Entry { if x == 8 then Entry(1, [65], (i: nat) => None) else Entry(2, [66], (i: nat) => None) }

  /** Two series are created; a page of one reports the first; the first is deleted; the next
      page reports nothing, although the second was never reported. */
  method ScanMissesItem() returns (dir: Directory, page: seq<Byte>, last: nat, next: seq<Byte>, res: Outcome)
    ensures dir.Valid() && dir.cat.list == [16] && dir.cat.at(16).key == [66]
    ensures page == Record([65]) && last == 1
    ensures res == Done && next == []
  {
    hide Linked, Holds, DirectoryOk, Packed, Selected, Window, FilledTo, ResumesAt, PageFrom;
    var all: Matcher := (key: seq<Byte>) => true;
    dir := new Directory(TwoItems, []);
    var item, isNew;
    item, isNew := dir.GetItem([65], 8);
    item, isNew := dir.GetItem([66], 16);
    assert dir.cat.list == [8, 16];
    res, page, last := ScanPage(dir.cat, all, 100, 0, 1);
    FirstPage(all, res, page, last);
    var nx := dir.Delete(8);
    WithoutFirst();
    var last';
    res, next, last' := ScanPage(dir.cat, all, 100, last, 1);
    SecondPage(all, res, next, last');
  }

  lemma WithoutFirst()
    ensures Without([8, 16], 8) == [16]
  {
    assert [8, 16][1..] == [16];
  }

  lemma FirstPage(all: Matcher, res: Outcome, out: seq<Byte>, last: nat)
    requires forall key :: all(key)
    requires exists from: nat, k: nat ::
      ResumesAt(TwoItems, [8, 16], 0, from) && PageFrom(TwoItems, [8, 16], all, 100, 0, 1, res, out, last, from, k)
    ensures res == Done && out == Record([65]) && last == 1
  {
    var from: nat, k: nat :|
      ResumesAt(TwoItems, [8, 16], 0, from) && PageFrom(TwoItems, [8, 16], all, 100, 0, 1, res, out, last, from, k);
    var list: seq<Addr> := [8, 16];
    var keep := Passing(TwoItems, all);
    assert list[0..] == list && list[1..] == [16];
    assert Selected(keep, [16]) == [16];
    assert Selected(keep, list) == [8] + [16];
    var want := Window(Selected(keep, list), 0, 1);
    assert want == [8] && want[..1] == [8] && want[..0] == [];
    PackedOne(TwoItems, 8);
  }

  lemma SecondPage(all: Matcher, res: Outcome, out: seq<Byte>, last: nat)
    requires exists from: nat, k: nat ::
      ResumesAt(TwoItems, [16], 1, from) && PageFrom(TwoItems, [16], all, 100, 1, 1, res, out, last, from, k)
    ensures res == Done && out == []
  {
    var from: nat, k: nat :|
      ResumesAt(TwoItems, [16], 1, from) && PageFrom(TwoItems, [16], all, 100, 1, 1, res, out, last, from, k);
    var list: seq<Addr> := [16];
    assert forall x :: x in list ==> x == 16 && IdOf(TwoItems, x) == 2;
    assert from == 1 && list[1..] == [];
  }
}
