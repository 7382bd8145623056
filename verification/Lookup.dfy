/** The lookup through an index (storage.c:1374-1454) and the answer format the client reads. */
module Lookup {
  import opened Basics
  import opened Bytes
  import opened Words
  import opened RbTree
  import opened RbOps
  import opened RbHeap
  import opened TreeIter
  import opened ItemOrder
  import opened Catalog

  datatype Outcome = Done | BufTooSmall | BadIndex

  type Matcher = seq<Byte> -> bool

  // ----- the answer: length-prefixed keys -----

  function Record(key: seq<Byte>): seq<Byte> { Le(|key|, 2) + key }

  /** The bytes put into the results buffer for a sequence of items. */
  function Packed(at: Addr -> Entry, s: seq<Addr>): seq<Byte>
  {
    if s == [] then [] else Record(at(s[0]).key) + Packed(at, s[1..])
  }

  /** Every listed key has a length that fits 16 bits and is not the end marker. */
  ghost predicate Sendable(at: Addr -> Entry, s: seq<Addr>)
  {
    forall i :: 0 <= i < |s| ==> 0 < |at(s[i]).key| < 0x1_0000
  }

  /** The reading loop of the client, up to the empty key that ends the results. */
  function Unpacked(bs: seq<Byte>): Option<seq<seq<Byte>>>
    decreases |bs|
  {
    if |bs| < 2 then None
    else
      var n := FromLe(bs[..2]);
      if n == 0 then Some([])
      else if |bs| < 2 + n then None
      else
        var rest := Unpacked(bs[2 + n..]);
        if rest.None? then None else Some([bs[2..2 + n]] + rest.value)
  }

  function Keys(at: Addr -> Entry, s: seq<Addr>): seq<seq<Byte>>
  {
    if s == [] then [] else [at(s[0]).key] + Keys(at, s[1..])
  }

  lemma {:induction false} KeysExact(at: Addr -> Entry, s: seq<Addr>)
    ensures |Keys(at, s)| == |s| && forall i :: 0 <= i < |s| ==> Keys(at, s)[i] == at(s[i]).key
  {
    if s != [] { KeysExact(at, s[1..]); }
  }

  /** The client gets back exactly the keys that were packed, whatever follows them. */
  lemma {:induction false} AnswerRoundTrip(at: Addr -> Entry, s: seq<Addr>, rest: seq<Byte>)
    requires Sendable(at, s)
    ensures Unpacked(Packed(at, s) + [0, 0] + rest) == Some(Keys(at, s))
  {
    var bs := Packed(at, s) + [0, 0] + rest;
    if s == [] {
      assert bs == [0, 0] + rest && bs[..2] == [0, 0];
      assert FromLe([0, 0]) == 0 by { assert [0, 0][1..] == [0]; }
    } else {
      var key := at(s[0]).key;
      assert Sendable(at, s[1..]);
      AnswerRoundTrip(at, s[1..], rest);
      LeRoundTrip(|key|, 2);
      var tail := Packed(at, s[1..]) + [0, 0] + rest;
      assert bs == Le(|key|, 2) + key + tail;
      assert bs[..2] == Le(|key|, 2) && bs[2..2 + |key|] == key && bs[2 + |key|..] == tail;
    }
  }

  lemma {:induction false} PackedAppend(at: Addr -> Entry, s: seq<Addr>, t: seq<Addr>)
    ensures Packed(at, s + t) == Packed(at, s) + Packed(at, t)
  {
    if s == [] {
      assert s + t == t;
    } else {
      assert (s + t)[0] == s[0] && (s + t)[1..] == s[1..] + t;
      PackedAppend(at, s[1..], t);
    }
  }

  lemma PackedOne(at: Addr -> Entry, x: Addr)
    ensures Packed(at, [x]) == Record(at(x).key) && |Packed(at, [x])| == 2 + |at(x).key|
  {
  }

  /** What a lookup that wants these items leaves in a buffer of this size: all of them, or
      the longest part that fits and an error. */
  ghost predicate FilledTo(at: Addr -> Entry, want: seq<Addr>, room: nat, res: Outcome, out: seq<Byte>, k: nat)
  {
    && k <= |want| && out == Packed(at, want[..k]) && |out| <= room
    && (if k == |want| then res == Done else res == BufTooSmall && |Packed(at, want[..k + 1])| > room)
  }

  ghost predicate Filled(at: Addr -> Entry, want: seq<Addr>, room: nat, res: Outcome, out: seq<Byte>)
  {
    exists k: nat :: FilledTo(at, want, room, res, out, k)
  }

  lemma PackedPart(at: Addr -> Entry, want: seq<Addr>, a: nat, b: nat)
    requires a <= b <= |want|
    ensures |Packed(at, want[a..b])| <= |Packed(at, want)|
  {
    hide Packed;
    assert want == want[..a] + (want[a..b] + want[b..]);
    PackedAppend(at, want[..a], want[a..b] + want[b..]);
    PackedAppend(at, want[a..b], want[b..]);
  }

  /** When all records fit, all of them are there and there is no error; otherwise there is one. */
  lemma FilledFits(at: Addr -> Entry, want: seq<Addr>, room: nat, res: Outcome, out: seq<Byte>)
    requires Filled(at, want, room, res, out)
    ensures |Packed(at, want)| <= room ==> res == Done && out == Packed(at, want)
    ensures |Packed(at, want)| > room ==> res == BufTooSmall && out <= Packed(at, want) && out != Packed(at, want)
  {
    hide Packed;
    var k: nat :| FilledTo(at, want, room, res, out, k);
    assert want[..|want|] == want && want == want[..k] + want[k..];
    PackedAppend(at, want[..k], want[k..]);
    if k < |want| {
      PackedPart(at, want, 0, k + 1);
      assert want[0..k + 1] == want[..k + 1];
    }
  }

  /** Saving one LFM to the results. */
  method Emit(at: Addr -> Entry, x: Addr, out: seq<Byte>, left: nat, ghost sent: seq<Addr>)
      returns (ok: bool, out': seq<Byte>, left': nat)
    requires out == Packed(at, sent) && 0 < |at(x).key| < 0x1_0000
    ensures ok <==> |Packed(at, sent + [x])| <= |out| + left
    ensures out' == if ok then Packed(at, sent + [x]) else out
    ensures |out'| + left' == |out| + left
  {
    PackedAppend(at, sent, [x]);
    PackedOne(at, x);
    var n := |at(x).key| + 2;
    ok, out', left' := left >= n, out, left;
    if ok {
      out' := out + Le(|at(x).key|, 2) + at(x).key;
      left' := left - n;
      assert out' == out + Record(at(x).key);
    }
  }

  // ----- selections and windows -----

  /** The elements that satisfy keep, in order. */
  function Selected(keep: Addr -> bool, s: seq<Addr>): seq<Addr>
  {
    if s == [] then [] else (if keep(s[0]) then [s[0]] else []) + Selected(keep, s[1..])
  }

  lemma {:induction false} SelectedConcat(keep: Addr -> bool, a: seq<Addr>, b: seq<Addr>)
    ensures Selected(keep, a + b) == Selected(keep, a) + Selected(keep, b)
  {
    if a == [] {
      assert a + b == b;
    } else {
      assert (a + b)[0] == a[0] && (a + b)[1..] == a[1..] + b;
      SelectedConcat(keep, a[1..], b);
    }
  }

  /** In order: one more element behind the others is kept or not. */
  lemma SelectedLast(keep: Addr -> bool, s: seq<Addr>, x: Addr)
    ensures Selected(keep, s + [x]) == Selected(keep, s) + if keep(x) then [x] else []
  {
    SelectedConcat(keep, s, [x]);
    assert [x][1..] == [];
  }

  lemma {:induction false} SelectedMember(keep: Addr -> bool, s: seq<Addr>, x: Addr)
    ensures x in Selected(keep, s) <==> x in s && keep(x)
  {
    if s != [] {
      SelectedMember(keep, s[1..], x);
      assert s == [s[0]] + s[1..];
    }
  }

  /** What is left after skipping offset elements and stopping after limit more. */
  function Window(s: seq<Addr>, offset: nat, limit: nat): seq<Addr>
  {
    s[Min(offset, |s|)..Min(offset + limit, |s|)]
  }

  /** A window has the elements from offset on, at most limit of them. */
  lemma WindowExact(s: seq<Addr>, offset: nat, limit: nat)
    ensures |Window(s, offset, limit)| == if offset >= |s| then 0 else if |s| - offset <= limit then |s| - offset else limit
    ensures forall i :: 0 <= i < |Window(s, offset, limit)| ==> Window(s, offset, limit)[i] == s[offset + i]
  {
  }

  /** Consecutive windows join, so that a client that pages through them misses nothing. */
  lemma WindowsJoin(s: seq<Addr>, done: nat, limit: nat)
    ensures Window(s, 0, done) + Window(s, done, limit) == Window(s, 0, done + limit)
    ensures done >= |s| ==> Window(s, 0, done) == s
  {
    WindowExact(s, 0, done);
    WindowExact(s, done, limit);
    WindowExact(s, 0, done + limit);
  }

  lemma WindowGrows(s: seq<Addr>, x: Addr, rest: seq<Addr>, offset: nat, limit: nat)
    ensures |s| < offset ==> Window(s, offset, limit) == [] == Window(s + [x], offset, limit)
    ensures |s| >= offset && |Window(s, offset, limit)| < limit ==>
      Window(s + [x], offset, limit) == Window(s, offset, limit) + [x]
    ensures |s| >= offset && |Window(s, offset, limit)| >= limit ==>
      Window(s + [x] + rest, offset, limit) == Window(s, offset, limit)
    ensures Window(s + [x], offset, limit) <= Window(s + [x] + rest, offset, limit)
    ensures |Window(s, offset, limit)| <= limit
  {
    var all := s + [x] + rest;
    assert forall i :: 0 <= i < |s| ==> all[i] == s[i];
    assert all[..|s| + 1] == s + [x];
  }

  // ----- lookup through an index -----

  /** storage_lookup's probe item. */
  function Query(index: nat, value: seq<Byte>): Entry
  {
    if index == NAME_INDEX then Entry(0, value, (i: nat) => None)
    else Entry(0, [], (i: nat) => if i == index - NUM_SPECIAL_INDICES then Some(value) else None)
  }

  /** The value an item has for an index: its name, or one of its labels. */
  function ValueOf(e: Entry, index: nat): Option<seq<Byte>>
    requires index >= NAME_INDEX
  {
    if index == NAME_INDEX then Some(CString(e.key)) else e.indexVal(index - NUM_SPECIAL_INDICES)
  }

  /** The items a lookup is for. */
  function Wanted(at: Addr -> Entry, index: nat, value: seq<Byte>, accepts: Matcher): Addr -> bool
    requires index >= NAME_INDEX
  {
    (x: Addr) => ValueOf(at(x), index) == Some(value) && accepts(at(x).key)
  }

  function Passing(at: Addr -> Entry, accepts: Matcher): Addr -> bool
  {
    (x: Addr) => accepts(at(x).key)
  }

  /** The reference: filter the list one by one, in ascending address. */
  function LinearLookup(list: seq<Addr>, wanted: Addr -> bool): seq<Addr>
  {
    if list == [] then []
    else if wanted(list[0]) then SortedInsert(Alike, LinearLookup(list[1..], wanted), list[0])
    else LinearLookup(list[1..], wanted)
  }

  /** With all items alike, the order is that of the addresses. */
  function Alike(a: Addr, b: Addr): int { 0 }

  lemma {:induction false} CStringOf(value: seq<Byte>)
    requires 0 !in value
    ensures CString(value) == value
  {
    if value != [] {
      CStringOf(value[1..]);
      assert value == [value[0]] + value[1..];
    }
  }

  /** The probe compares equal with exactly the items whose indexed value is the one sought. */
  lemma ProbeMeaning(at: Addr -> Entry, index: nat, value: seq<Byte>, x: Addr)
    requires index >= NAME_INDEX && 0 !in value
    ensures ProbeOf(at, Query(index, value), index)(x) == 0 <==> ValueOf(at(x), index) == Some(value)
  {
    hide LexCmp, CString;
    CStringOf(value);
    LexAntisymmetric(value, CString(at(x).key));
    if index > NAME_INDEX {
      var v := at(x).indexVal(index - NUM_SPECIAL_INDICES);
      if v.Some? { LexAntisymmetric(value, v.value); }
    }
  }

  lemma {:induction false} LinearMembers(list: seq<Addr>, wanted: Addr -> bool)
    requires Distinct(list)
    ensures Sorted(Alike, LinearLookup(list, wanted))
    ensures forall x :: x in LinearLookup(list, wanted) <==> x in list && wanted(x)
  {
    hide Sorted, SortedInsert;
    if list == [] {
      assert Sorted(Alike, []) by { SortedEmpty(Alike); }
    } else {
      var t := list[1..];
      forall i, j | 0 <= i < j < |t| ensures t[i] != t[j] { assert t[i] == list[i + 1] && t[j] == list[j + 1]; }
      LinearMembers(t, wanted);
      assert list == [list[0]] + t && list[0] !in t;
      var r := LinearLookup(t, wanted);
      SortedInsertSorted(Alike, r, list[0]);
      var s := SortedInsert(Alike, r, list[0]);
      forall x ensures x in s <==> x == list[0] || x in r {
        assert x in s <==> x in multiset(s);
        assert x in r <==> x in multiset(r);
      }
    }
  }

  lemma SortedEmpty(cmp: Cmp)
    ensures Sorted(cmp, [])
  {
  }

  /** Ascending sequences with the same members are the same. */
  lemma {:induction false} AscendingUnique(a: seq<Addr>, b: seq<Addr>)
    requires Sorted(Alike, a) && Sorted(Alike, b) && (forall x :: x in a <==> x in b)
    ensures a == b
  {
    assert (a != [] ==> a[0] in b) && (b != [] ==> b[0] in a);
    if a != [] && b != [] {
      HeadLeast(a, b[0]);
      HeadLeast(b, a[0]);
      TailMembers(a, b);
      AscendingUnique(a[1..], b[1..]);
      assert a == [a[0]] + a[1..] && b == [b[0]] + b[1..];
    }
  }

  lemma HeadLeast(a: seq<Addr>, x: Addr)
    requires Sorted(Alike, a) && x in a
    ensures a[0] <= x
  {
    var i :| 0 <= i < |a| && a[i] == x;
    assert i > 0 ==> Before(Alike, a[0], a[i]);
  }

  lemma TailMembers(a: seq<Addr>, b: seq<Addr>)
    requires Sorted(Alike, a) && Sorted(Alike, b) && (forall x :: x in a <==> x in b)
    requires a != [] && b != [] && a[0] == b[0]
    ensures Sorted(Alike, a[1..]) && Sorted(Alike, b[1..]) && forall x :: x in a[1..] <==> x in b[1..]
  {
    HeadApart(a);
    HeadApart(b);
  }

  lemma HeadApart(a: seq<Addr>)
    requires Sorted(Alike, a) && a != []
    ensures forall x :: x in a[1..] <==> x in a && x != a[0]
  {
    forall x ensures x in a[1..] <==> x in a && x != a[0] {
      assert a == [a[0]] + a[1..];
      if x in a[1..] {
        var i :| 0 <= i < |a| - 1 && a[1..][i] == x;
        assert Before(Alike, a[0], a[i + 1]);
      }
    }
  }

  /** A selection of the nodes equal to a key lies in ascending address. */
  lemma {:induction false} EqualsAscend(cmp: Cmp, q: Probe, keep: Addr -> bool, s: seq<Addr>)
    requires IsComparator(cmp) && Fits(cmp, q) && Sorted(cmp, s)
    requires forall a, b :: q(a) == 0 && q(b) == 0 ==> cmp(a, b) == 0
    ensures Sorted(Alike, Selected(keep, Equals(q, s)))
  {
    if s != [] {
      var t := s[1..];
      assert forall i :: 0 <= i < |t| ==> t[i] == s[i + 1];
      EqualsAscend(cmp, q, keep, t);
      var e := Selected(keep, Equals(q, t));
      if q(s[0]) == 0 {
        assert ([s[0]] + Equals(q, t))[1..] == Equals(q, t);
        forall k | 0 <= k < |e| ensures Before(Alike, s[0], e[k]) {
          SelectedMember(keep, Equals(q, t), e[k]);
          EqualsMember(q, t, e[k]);
          var i :| 0 <= i < |t| && t[i] == e[k];
          assert Before(cmp, s[0], s[i + 1]);
        }
      }
    }
  }

  /** What the walk through an index finds is the linear filter of the list. */
  lemma IndexAgrees(cat: Catalogue, index: nat, value: seq<Byte>, accepts: Matcher)
    requires cat.Valid() && NAME_INDEX <= index < |cat.trees| && 0 !in value
    ensures Fits(cat.trees[index].cmp, ProbeOf(cat.at, Query(index, value), index))
    ensures cat.trees[index].Valid() && |InOrder(cat.trees[index].shape)| == |cat.list|
    ensures Selected(Passing(cat.at, accepts), Equals(ProbeOf(cat.at, Query(index, value), index), InOrder(cat.trees[index].shape)))
         == LinearLookup(cat.list, Wanted(cat.at, index, value, accepts))
  {
    hide Sorted, Fits, IsComparator, Repr, RedBlack, InOrder, Linked, Query, ItemCmp, LinearLookup, Equals, Selected;
    var at, tree := cat.at, cat.trees[index];
    assert Holds(tree, at, index, InTree(cat.list, cat.pending, index));
    var q, all := ProbeOf(at, Query(index, value), index), InOrder(tree.shape);
    var keep, wanted := Passing(at, accepts), Wanted(at, index, value, accepts);
    ProbeFits(at, Query(index, value), index);
    assert |all| == |multiset(all)| == |multiset(cat.list)|;
    forall a, b | q(a) == 0 && q(b) == 0 ensures tree.cmp(a, b) == 0 {
      EqualToSame(at, Query(index, value), a, b, index);
    }
    EqualsAscend(tree.cmp, q, keep, all);
    LinkedDistinct(cat.list, cat.next, cat.prev, cat.first, cat.last);
    LinearMembers(cat.list, wanted);
    var found := Selected(keep, Equals(q, all));
    forall x ensures x in found <==> x in LinearLookup(cat.list, wanted) {
      SelectedMember(keep, Equals(q, all), x);
      EqualsMember(q, all, x);
      SameMembers(all, cat.list, x);
      ProbeMeaning(at, index, value, x);
    }
    AscendingUnique(found, LinearLookup(cat.list, wanted));
  }

  lemma EqualToSame(at: Addr -> Entry, query: Entry, a: Addr, b: Addr, index: nat)
    requires ItemCmp(query, at(a), index) == 0 && ItemCmp(query, at(b), index) == 0
    ensures ItemCmp(at(a), at(b), index) == 0
  {
    hide ItemCmp;
    CmpAntisymmetric(query, at(a), index);
    CmpAntisymmetric(query, at(b), index);
    CmpAntisymmetric(at(a), query, index);
    CmpAntisymmetric(at(b), query, index);
    CmpTransitive(at(a), query, at(b), index);
    CmpTransitive(at(b), query, at(a), index);
    CmpAntisymmetric(at(a), at(b), index);
    CmpAntisymmetric(at(b), at(a), index);
  }

  /** storage_lookup: the requested window of the linear filter of the list. */
  method IndexLookup(cat: Catalogue, index: int, value: seq<Byte>, accepts: Matcher, room: nat, offset: nat, limit: nat)
      returns (res: Outcome, out: seq<Byte>)
    requires cat.Valid() && |cat.list| < Pow2(64) && Sendable(cat.at, cat.list) && 0 !in value
    ensures res == BadIndex <==> !(NAME_INDEX <= index < |cat.trees|)
    ensures res != BadIndex ==>
      Filled(cat.at, Window(LinearLookup(cat.list, Wanted(cat.at, index, value, accepts)), offset, limit), room, res, out)
  {
    hide Linked, Holds, Pow2, Fits, Repr, RedBlack, IsComparator, Equals, Pending, ValidTree, InOrder, Selected,
      LinearLookup, Packed, Query, Sendable, Window, ItemCmp, StackOk, Nodes, Record, FilledTo;
    if !(index == NAME_INDEX || NUM_SPECIAL_INDICES <= index < |cat.trees|) {
      return BadIndex, [];
    }
    var at := cat.at;
    var q := ProbeOf(at, Query(index, value), index);
    ghost var keep := Passing(at, accepts);
    ghost var want := LinearLookup(cat.list, Wanted(at, index, value, accepts));
    IndexAgrees(cat, index, value, accepts);
    ghost var cells, cmp := cat.trees[index].cells, cat.trees[index].cmp;
    var it := new EqualRange(cat.trees[index], q);
    ghost var all := Equals(q, InOrder(cat.trees[index].shape));
    ghost var seen: seq<Addr> := [];
    var skip, more, left, go := offset, limit, room, true;
    out := [];
    res := Done;
    NothingYet(at, keep, offset, limit, room);
    while it.current != 0
      invariant it.Stack(cells, cmp) && fresh(it) && fresh(it.pass) && fresh(it.path)
      invariant all == seen + if it.current == 0 then [] else [it.current] + it.Rest()
      invariant Progress(at, Selected(keep, seen), offset, limit, room, skip, more, left, out)
      decreases |all| - |seen|
    {
      ghost var rest := it.Rest();
      var x := it.current;
      assert all == seen + [x] + rest;
      SelectedNext(keep, seen, x, rest);
      if accepts(at(x).key) {
        SendableAt(cat, index, q, x);
        go, res, skip, more, left, out :=
          Offer(at, x, skip, more, left, out, Selected(keep, seen), Selected(keep, rest), offset, limit, room);
        if !go { return; }
      }
      seen := seen + [x];
      it.ComputeCurrent(cat.trees[index].cells, cmp);
    }
    assert seen == all;
    res := Done;
    FilledAll(at, Window(want, offset, limit), room, out);
  }

  /** How far the loop of storage_lookup has come over the matching items s seen so far. */
  ghost predicate Progress(at: Addr -> Entry, s: seq<Addr>, offset: nat, limit: nat, room: nat,
                           skip: nat, more: nat, left: nat, out: seq<Byte>)
  {
    && skip == (if |s| < offset then offset - |s| else 0)
    && |Window(s, offset, limit)| + more == limit
    && out == Packed(at, Window(s, offset, limit)) && |out| + left == room
  }

  /** The loop body on the next matching item x: skip it, stop at the limit, or save it. */
  method Offer(at: Addr -> Entry, x: Addr, skip: nat, more: nat, left: nat, out: seq<Byte>,
               ghost s: seq<Addr>, ghost rest: seq<Addr>, ghost offset: nat, ghost limit: nat, ghost room: nat)
      returns (go: bool, res: Outcome, skip': nat, more': nat, left': nat, out': seq<Byte>)
    requires Progress(at, s, offset, limit, room, skip, more, left, out) && 0 < |at(x).key| < 0x1_0000
    ensures go ==> Progress(at, s + [x], offset, limit, room, skip', more', left', out')
    ensures go && skip == 0 ==> skip' == 0 && |Window(s, offset, limit)| < limit
    ensures !go ==> res != BadIndex
    ensures !go ==>
      FilledTo(at, Window(s + [x] + rest, offset, limit), room, res, out', |Window(s, offset, limit)|)
  {
    hide Window, Packed, FilledTo;
    WindowGrows(s, x, rest, offset, limit);
    go, res, skip', more', left', out' := true, Done, skip, more, left, out;
    ghost var sent := Window(s, offset, limit);
    if skip > 0 {
      skip' := skip - 1;
    } else if more == 0 {
      go := false;
      FilledAll(at, sent, room, out);
    } else {
      more' := more - 1;
      go, out', left' := Emit(at, x, out, left, sent);
      if !go {
        res := BufTooSmall;
        FilledPart(at, Window(s + [x] + rest, offset, limit), sent, x, room, out);
      }
    }
  }

  lemma NothingYet(at: Addr -> Entry, keep: Addr -> bool, offset: nat, limit: nat, room: nat)
    ensures Progress(at, Selected(keep, []), offset, limit, room, offset, limit, room, [])
  {
  }

  lemma SelectedNext(keep: Addr -> bool, s: seq<Addr>, x: Addr, rest: seq<Addr>)
    ensures Selected(keep, s + [x]) == if keep(x) then Selected(keep, s) + [x] else Selected(keep, s)
    ensures keep(x) ==> Selected(keep, s + [x] + rest) == Selected(keep, s) + [x] + Selected(keep, rest)
  {
    SelectedConcat(keep, s + [x], rest);
    SelectedConcat(keep, s, [x]);
    assert Selected(keep, [x]) == if keep(x) then [x] else [];
  }

  lemma SendableAt(cat: Catalogue, index: nat, q: Probe, x: Addr)
    requires cat.Valid() && NAME_INDEX <= index < |cat.trees| && Sendable(cat.at, cat.list) && x in Equals(q, InOrder(cat.trees[index].shape))
    ensures 0 < |cat.at(x).key| < 0x1_0000
  {
    hide Linked, InOrder, Equals;
    assert Holds(cat.trees[index], cat.at, index, InTree(cat.list, cat.pending, index));
    EqualsMember(q, InOrder(cat.trees[index].shape), x);
    SameMembers(InOrder(cat.trees[index].shape), cat.list, x);
  }

  lemma FilledAll(at: Addr -> Entry, want: seq<Addr>, room: nat, out: seq<Byte>)
    requires out == Packed(at, want) && |out| <= room
    ensures FilledTo(at, want, room, Done, out, |want|)
  {
    assert want[..|want|] == want;
  }

  lemma FilledPart(at: Addr -> Entry, want: seq<Addr>, sent: seq<Addr>, x: Addr, room: nat, out: seq<Byte>)
    requires sent + [x] <= want && out == Packed(at, sent) && |out| <= room < |Packed(at, sent + [x])|
    ensures FilledTo(at, want, room, BufTooSmall, out, |sent|)
  {
    assert want[..|sent|] == sent && want[..|sent| + 1] == sent + [x];
  }
}
