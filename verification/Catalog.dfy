/** The in-memory catalogue of series (storage.c:585-725, 1108-1151): one tree per index and the
    linked list, kept together by every insert and delete. */
module Catalog {
  import opened Basics
  import opened RbTree
  import opened RbOps
  import opened RbHeap
  import opened ItemOrder

  // ----- the doubly linked list -----

  /** next, prev, list_root and list_root_last spell out the sequence. */
  ghost predicate Linked(list: seq<Addr>, next: map<Addr, Addr>, prev: map<Addr, Addr>, first: Addr, last: Addr)
  {
    && first == (if list == [] then 0 else list[0]) && last == (if list == [] then 0 else list[|list| - 1])
    && 0 !in list && Distinct(list)
    && (forall i :: 0 <= i < |list| ==> LinkOk(list, next, prev, i))
  }

  ghost predicate LinkOk(list: seq<Addr>, next: map<Addr, Addr>, prev: map<Addr, Addr>, i: nat)
    requires i < |list|
  {
    && list[i] in next && next[list[i]] == (if i + 1 < |list| then list[i + 1] else 0)
    && list[i] in prev && prev[list[i]] == (if i > 0 then list[i - 1] else 0)
  }

  lemma LinkAppend(list: seq<Addr>, next: map<Addr, Addr>, prev: map<Addr, Addr>, first: Addr, last: Addr, p: Addr)
    requires Linked(list, next, prev, first, last) && p != 0 && p !in list
    ensures var next' := (if last == 0 then next else next[last := p])[p := 0];
      Linked(list + [p], next', prev[p := last], if first == 0 then p else first, p)
  {
    var next' := (if last == 0 then next else next[last := p])[p := 0];
    var prev', l := prev[p := last], list + [p];
    forall i | 0 <= i < |l| ensures LinkOk(l, next', prev', i) {
      if i < |list| {
        assert LinkOk(list, next, prev, i) && l[i] == list[i] && list[i] in list;
        assert i < |list| - 1 ==> list[i] != last;
      }
    }
    assert list != [] ==> list[0] in list && list[|list| - 1] in list;
  }

  /** The list without its element i. */
  ghost function Unlinked(list: seq<Addr>, i: nat): seq<Addr>
    requires i < |list|
  {
    list[..i] + list[i + 1..]
  }

  /** The links of one remaining item after unlinking element i. */
  lemma LinkRemoveAt(list: seq<Addr>, next: map<Addr, Addr>, prev: map<Addr, Addr>, i: nat, j: nat)
    requires i < |list| && j < |list| - 1 && Distinct(list) && 0 !in list
    requires LinkOk(list, next, prev, i) && LinkOk(list, next, prev, if j < i then j else j + 1)
    ensures var p := list[i];
      var next' := if prev[p] != 0 then next[prev[p] := next[p]] else next;
      var prev' := if next[p] != 0 then prev[next[p] := prev[p]] else prev;
      LinkOk(Unlinked(list, i), next', prev', j)
  {
    var l, k := Unlinked(list, i), if j < i then j else j + 1;
    assert l[j] == list[k];
    assert j + 1 < |l| ==> l[j + 1] == list[if j + 1 < i then j + 1 else j + 2];
    assert j > 0 ==> l[j - 1] == list[if j - 1 < i then j - 1 else j];
    if i > 0 { assert list[i - 1] in list; }
    if i + 1 < |list| { assert list[i + 1] in list; }
  }

  /** Unlinking element i as storage_delete_item does. */
  lemma LinkRemove(list: seq<Addr>, next: map<Addr, Addr>, prev: map<Addr, Addr>, first: Addr, last: Addr, i: nat)
    requires Linked(list, next, prev, first, last) && i < |list|
    ensures LinkOk(list, next, prev, i)
    ensures var p := list[i];
      var next' := if prev[p] != 0 then next[prev[p] := next[p]] else next;
      var prev' := if next[p] != 0 then prev[next[p] := prev[p]] else prev;
      Linked(Unlinked(list, i), next', prev', if p == first then next[p] else first, if p == last then prev[p] else last)
  {
    var p := list[i];
    assert LinkOk(list, next, prev, i);
    var next' := if prev[p] != 0 then next[prev[p] := next[p]] else next;
    var prev' := if next[p] != 0 then prev[next[p] := prev[p]] else prev;
    var l := Unlinked(list, i);
    forall j | 0 <= j < |l| ensures LinkOk(l, next', prev', j) {
      assert LinkOk(list, next, prev, if j < i then j else j + 1);
      LinkRemoveAt(list, next, prev, i, j);
    }
    UnlinkedDistinct(list, i);
    UnlinkedEnds(list, i);
    hide LinkOk;
  }

  lemma UnlinkedDistinct(list: seq<Addr>, i: nat)
    requires i < |list| && Distinct(list) && 0 !in list
    ensures Distinct(Unlinked(list, i)) && 0 !in Unlinked(list, i)
  {
    assert list == list[..i] + [list[i]] + list[i + 1..];
    DistinctMiddle(list[..i], list[i], list[i + 1..]);
  }

  lemma UnlinkedEnds(list: seq<Addr>, i: nat)
    requires i < |list| && Distinct(list)
    ensures var l := Unlinked(list, i);
      && (l != [] ==> l[0] == (if i == 0 then list[1] else list[0]))
      && (l != [] ==> l[|l| - 1] == (if i == |list| - 1 then list[|list| - 2] else list[|list| - 1]))
    ensures list[i] == list[0] ==> i == 0
    ensures list[i] == list[|list| - 1] ==> i == |list| - 1
  {
  }

  lemma UnlinkedMultiset(list: seq<Addr>, i: nat)
    requires i < |list|
    ensures multiset(Unlinked(list, i)) == multiset(list) - multiset{list[i]}
  {
    assert list == list[..i] + [list[i]] + list[i + 1..];
  }

  lemma {:induction false} UnlinkedWithout(list: seq<Addr>, i: nat)
    requires i < |list| && Distinct(list)
    ensures Without(list, list[i]) == Unlinked(list, i)
  {
    if i > 0 {
      var t := list[1..];
      assert forall k :: 0 <= k < |t| ==> t[k] == list[k + 1];
      UnlinkedWithout(t, i - 1);
      assert list[0] != list[i] && [list[0]] + Unlinked(t, i - 1) == Unlinked(list, i);
    }
  }

  // ----- the catalogue -----

  class Catalogue {
    /** The items as they lie in memory. */
    const at: Addr -> Entry
    /** One tree per index: internal id, LFM, name, then the configured labels. */
    const trees: seq<Index>
    var next: map<Addr, Addr>
    var prev: map<Addr, Addr>
    var first: Addr
    var last: Addr
    ghost var list: seq<Addr>
    /** Items a load has met in the data file and whose keys it does not know yet: they are in
        the internal-id tree alone. */
    ghost var pending: seq<Addr>

    constructor (at: Addr -> Entry, numIndices: nat)
      ensures Valid() && list == [] && pending == [] && this.at == at && |trees| == numIndices + NUM_SPECIAL_INDICES
      ensures fresh(trees)
    {
      var ts: seq<Index> := [];
      while |ts| < numIndices + NUM_SPECIAL_INDICES
        invariant |ts| <= numIndices + NUM_SPECIAL_INDICES && fresh(ts)
        invariant forall i, j :: 0 <= i < j < |ts| ==> ts[i] != ts[j]
        invariant forall i :: 0 <= i < |ts| ==> Holds(ts[i], at, i, [])
      {
        ComparatorOk(at, |ts|);
        var t := new Index(CmpOf(at, |ts|));
        assert Holds(t, at, |ts|, []);
        ts := ts + [t];
      }
      this.at, trees := at, ts;
      next, prev, first, last, list, pending := map[], map[], 0, 0, [], [];
    }

    ghost predicate Valid()
      reads this, trees
    {
      && |trees| >= NUM_SPECIAL_INDICES && (forall i, j :: 0 <= i < j < |trees| ==> trees[i] != trees[j])
      && Linked(list, next, prev, first, last)
      && (forall i :: 0 <= i < |trees| ==> Holds(trees[i], at, i, InTree(list, pending, i)))
    }

    /** storage_insert_item: the item enters every tree and the end of the list. */
    method Insert(p: Addr)
      requires Valid() && p != 0 && p !in list && p !in pending
      modifies this, trees
      ensures Valid() && list == old(list) + [p] && pending == old(pending)
    {
      hide Linked, Holds;
      ghost var items := list;
      var i := 0;
      while i < |trees|
        invariant 0 <= i <= |trees| && list == items && Linked(list, next, prev, first, last)
        invariant forall j :: 0 <= j < i ==> Holds(trees[j], at, j, InTree(items + [p], pending, j))
        invariant forall j :: i <= j < |trees| ==> Holds(trees[j], at, j, InTree(items, pending, j))
        modifies trees
      {
        AddTo(trees[i], at, i, InTree(items, pending, i), InTree(items + [p], pending, i), p);
        i := i + 1;
      }
      LinkAppend(list, next, prev, first, last, p);
      EmptyEnds(list, next, prev, first, last);
      if first == 0 {
        next, prev := next[p := 0], prev[p := 0];
        first, last := p, p;
      } else {
        next := next[last := p];
        prev := prev[p := last];
        next := next[p := 0];
        last := p;
      }
      list := list + [p];
    }

    /** storage_insert_item without a key: the item enters the internal-id tree only. */
    method InsertPlaceholder(p: Addr)
      requires Valid() && p != 0 && p !in list && p !in pending
      modifies this`pending, trees
      ensures Valid() && list == old(list) && pending == old(pending) + [p]
    {
      hide Linked, Holds;
      ghost var was := pending;
      AddTo(trees[INTERNAL_ID_INDEX], at, INTERNAL_ID_INDEX, list + was, list + (was + [p]), p);
      pending := was + [p];
      forall i | 0 < i < |trees| ensures Holds(trees[i], at, i, InTree(list, pending, i)) {
        assert InTree(list, pending, i) == InTree(list, was, i);
      }
    }

    /** storage_attach_key_to_item: the placeholder leaves the internal-id tree, and an item
        with its id and the key takes its place everywhere. */
    method AttachKey(p: Addr, q: Addr)
      requires Valid() && p in pending && q != 0 && q !in list && q !in pending
      modifies this, trees
      ensures Valid() && list == old(list) + [q] && pending == Without(old(pending), p)
    {
      hide Linked, Holds, Without;
      ghost var was := pending;
      WithoutOne(was, p);
      DeleteFrom(trees[INTERNAL_ID_INDEX], at, INTERNAL_ID_INDEX, list + was, list + Without(was, p), p);
      pending := Without(was, p);
      forall i | 0 < i < |trees| ensures Holds(trees[i], at, i, InTree(list, pending, i)) {
        assert InTree(list, pending, i) == InTree(list, was, i);
      }
      Insert(q);
    }

    /** The list half of storage_delete_item. */
    method Unlink(p: Addr) returns (nx: Addr)
      requires Linked(list, next, prev, first, last) && p in list
      modifies this`list, this`next, this`prev, this`first, this`last
      ensures Linked(list, next, prev, first, last) && list == Without(old(list), p)
      ensures multiset(list) == multiset(old(list)) - multiset{p}
      ensures nx == ItemAfter(old(list), p)
    {
      hide LinkOk, Distinct, Linked, Without;
      LinkedDistinct(list, next, prev, first, last);
      ghost var i :| 0 <= i < |list| && list[i] == p;
      LinkRemove(list, next, prev, first, last, i);
      UnlinkedMultiset(list, i);
      UnlinkedWithout(list, i);
      ItemAfterAt(list, i);
      NextOf(list, next, prev, i);
      nx := next[p];
      var pv := prev[p];
      if pv != 0 { next := next[pv := nx]; }
      if nx != 0 { prev := prev[nx := pv]; }
      if p == first { first := nx; }
      if p == last { last := pv; }
      list := Without(list, p);
    }

    /** storage_delete_item, as far as memory goes; returns the item after p. */
    method Delete(p: Addr) returns (nx: Addr)
      requires Valid() && p in list
      modifies this, trees
      ensures Valid() && list == Without(old(list), p) && nx == ItemAfter(old(list), p) && pending == old(pending)
    {
      hide Holds, Linked;
      ghost var items := list;
      nx := Unlink(p);
      var k := 0;
      while k < |trees|
        invariant 0 <= k <= |trees|
        invariant forall j :: 0 <= j < k ==> Holds(trees[j], at, j, InTree(list, pending, j))
        invariant forall j :: k <= j < |trees| ==> Holds(trees[j], at, j, InTree(items, pending, j))
        modifies trees
      {
        DeleteFrom(trees[k], at, k, InTree(items, pending, k), InTree(list, pending, k), p);
        k := k + 1;
      }
    }
  }

  /** Tree t is a valid index i that holds exactly the given items. */
  ghost predicate Holds(t: Index, at: Addr -> Entry, i: nat, items: seq<Addr>)
    reads t
  {
    t.Valid() && t.cmp == CmpOf(at, i) && multiset(InOrder(t.shape)) == multiset(items)
  }

  /** The items tree i holds: the listed ones, and in the internal-id tree placeholders too. */
  ghost function InTree(list: seq<Addr>, pending: seq<Addr>, i: nat): seq<Addr>
  {
    if i == INTERNAL_ID_INDEX then list + pending else list
  }

  lemma {:induction false} WithoutOne(s: seq<Addr>, x: Addr)
    requires x in s
    ensures multiset(Without(s, x)) == multiset(s) - multiset{x}
    ensures forall y :: y in Without(s, x) ==> y in s
  {
    assert s == [s[0]] + s[1..];
    if s[0] != x { WithoutOne(s[1..], x); }
  }

  method AddTo(t: Index, ghost at: Addr -> Entry, ghost i: nat, ghost items: seq<Addr>, ghost more: seq<Addr>, p: Addr)
    requires Holds(t, at, i, items) && p != 0 && p !in items && multiset(more) == multiset(items) + multiset{p}
    modifies t
    ensures Holds(t, at, i, more)
  {
    hide RedBlack, IsComparator, Repr, Sorted, InOrder;
    SameMembers(InOrder(t.shape), items, p);
    AddValid(t.cmp, t.shape, p);
    t.Add(p);
  }

  method DeleteFrom(t: Index, ghost at: Addr -> Entry, ghost i: nat, ghost items: seq<Addr>, ghost rest: seq<Addr>, p: Addr)
    requires Holds(t, at, i, items) && p in items && multiset(rest) == multiset(items) - multiset{p}
    modifies t
    ensures Holds(t, at, i, rest)
  {
    hide RedBlack, IsComparator, Repr, Sorted, InOrder;
    SameMembers(InOrder(t.shape), items, p);
    DeleteValid(t.cmp, t.shape, p);
    t.Delete(p);
  }

  /** The item following p, 0 if none does. */
  function ItemAfter(list: seq<Addr>, p: Addr): Addr
  {
    if list == [] then 0
    else if list[0] == p then (if |list| > 1 then list[1] else 0)
    else ItemAfter(list[1..], p)
  }

  lemma {:induction false} ItemAfterAt(list: seq<Addr>, i: nat)
    requires i < |list| && Distinct(list)
    ensures ItemAfter(list, list[i]) == if i + 1 < |list| then list[i + 1] else 0
  {
    if i > 0 {
      assert list[0] != list[i];
      ItemAfterAt(list[1..], i - 1);
    }
  }

  lemma NextOf(list: seq<Addr>, next: map<Addr, Addr>, prev: map<Addr, Addr>, i: nat)
    requires i < |list| && LinkOk(list, next, prev, i)
    ensures list[i] in next && list[i] in prev && next[list[i]] == if i + 1 < |list| then list[i + 1] else 0
  {
  }

  lemma LinkedDistinct(list: seq<Addr>, next: map<Addr, Addr>, prev: map<Addr, Addr>, first: Addr, last: Addr)
    requires Linked(list, next, prev, first, last)
    ensures Distinct(list) && 0 !in list
  {
  }

  lemma SameMembers(s: seq<Addr>, items: seq<Addr>, p: Addr)
    requires multiset(s) == multiset(items)
    ensures p in s <==> p in items
  {
    assert p in s <==> p in multiset(s);
    assert p in items <==> p in multiset(items);
  }

  lemma EmptyEnds(list: seq<Addr>, next: map<Addr, Addr>, prev: map<Addr, Addr>, first: Addr, last: Addr)
    requires Linked(list, next, prev, first, last)
    ensures first == 0 <==> last == 0
  {
    assert list != [] ==> list[0] in list && list[|list| - 1] in list;
  }
}
