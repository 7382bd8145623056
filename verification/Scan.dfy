/** The paged full scan (storage.c:1309-1372): one page, and a run of pages. */
module Scan {
  import opened Basics
  import opened Bytes
  import opened RbTree
  import opened RbOps
  import opened RbHeap
  import opened TreeIter
  import opened ItemOrder
  import opened Catalog
  import opened Lookup

  function IdOf(at: Addr -> Entry, x: Addr): nat { at(x).internalId }

  /** Where a page continues: at the start, after the item with the greatest internal id not
      above the resume id, or nowhere when there is no such item. */
  ghost predicate ResumesAt(at: Addr -> Entry, list: seq<Addr>, last: nat, from: nat)
  {
    && from <= |list|
    && (if last == 0 then from == 0
        else if forall x :: x in list ==> IdOf(at, x) > last then from == |list|
        else from > 0 && Nearest(at, list, last, list[from - 1]))
  }

  ghost predicate Nearest(at: Addr -> Entry, list: seq<Addr>, last: nat, n: Addr)
  {
    && n in list && IdOf(at, n) <= last
    && forall x :: x in list ==> IdOf(at, x) <= IdOf(at, n) || IdOf(at, x) > last
  }

  function LastId(at: Addr -> Entry, s: seq<Addr>, last: nat): nat
  {
    if s == [] then last else IdOf(at, s[|s| - 1])
  }

  function IdQuery(last: nat): Entry { Entry(last, [], (i: nat) => None) }

  /** Finding the item to resume after. */
  method FindResume(cat: Catalogue, last: nat) returns (n: Addr)
    requires cat.Valid() && cat.pending == []
    ensures n == 0 <==> forall x :: x in cat.list ==> IdOf(cat.at, x) > last
    ensures n != 0 ==> Nearest(cat.at, cat.list, last, n)
  {
    hide Linked, Repr, RedBlack, InOrder, Sorted, IsComparator, Fits, Before, CString, LexCmp;
    var t := cat.trees[INTERNAL_ID_INDEX];
    ghost var at := cat.at;
    IdTree(cat);
    var q := ProbeOf(cat.at, IdQuery(last), INTERNAL_ID_INDEX);
    ProbeFits(at, IdQuery(last), INTERNAL_ID_INDEX);
    n := FindNearestLesser(t, q);
    ghost var all := InOrder(t.shape);
    forall x ensures x in all <==> x in cat.list { SameMembers(all, cat.list, x); }
    if n != 0 {
      forall x | x in cat.list ensures IdOf(at, x) <= IdOf(at, n) || IdOf(at, x) > last {
        if q(n) != 0 { IdOrder(at, t.cmp, n, x); }
      }
    }
  }

  /** Once a load is over the internal-id tree holds the listed items. */
  lemma IdTree(cat: Catalogue)
    requires cat.Valid() && cat.pending == []
    ensures Holds(cat.trees[INTERNAL_ID_INDEX], cat.at, INTERNAL_ID_INDEX, cat.list)
  {
    hide Linked, Holds;
    assert InTree(cat.list, cat.pending, INTERNAL_ID_INDEX) == cat.list;
    assert Holds(cat.trees[INTERNAL_ID_INDEX], cat.at, INTERNAL_ID_INDEX, InTree(cat.list, cat.pending, INTERNAL_ID_INDEX));
  }

  lemma IdOrder(at: Addr -> Entry, cmp: Cmp, n: Addr, x: Addr)
    requires cmp == CmpOf(at, INTERNAL_ID_INDEX)
    ensures IdOf(at, x) > IdOf(at, n) ==> Before(cmp, n, x)
  {
  }

  /** The item a page starts at, 0 for none. */
  method Resume(cat: Catalogue, last: nat) returns (item: Addr)
    requires cat.Valid() && cat.pending == []
    ensures exists from: nat :: StartsAt(cat.at, cat.list, last, item, from)
  {
    hide Holds, Linked, Nearest;
    LinkedFirst(cat);
    ghost var from := 0;
    item := cat.first;
    if last != 0 {
      item := FindResume(cat, last);
      from := |cat.list|;
      if item != 0 {
        assert item in cat.list by { NearestListed(cat.at, cat.list, last, item); }
        from := FindIn(cat.list, item);
        LinkedNext(cat, from);
        item := cat.next[item];
        from := from + 1;
      }
    }
    assert StartsAt(cat.at, cat.list, last, item, from);
  }

  ghost predicate StartsAt(at: Addr -> Entry, list: seq<Addr>, last: nat, item: Addr, from: nat)
  {
    ResumesAt(at, list, last, from) && item == if from < |list| then list[from] else 0
  }

  lemma NearestListed(at: Addr -> Entry, list: seq<Addr>, last: nat, n: Addr)
    requires Nearest(at, list, last, n)
    ensures n in list && !(forall x :: x in list ==> IdOf(at, x) > last)
  {
  }

  /** A page that starts at position from and reports its first k hits. */
  ghost predicate PageFrom(at: Addr -> Entry, list: seq<Addr>, accepts: Matcher, room: nat, last: nat, limit: nat,
                           res: Outcome, out: seq<Byte>, last': nat, from: nat, k: nat)
  {
    && from <= |list|
    && var want := Window(Selected(Passing(at, accepts), list[from..]), 0, limit);
    FilledTo(at, want, room, res, out, k) && last' == LastId(at, want[..k], last)
  }

  /** storage_lookup_without_index: from the resume point on, the first matching items. */
  method ScanPage(cat: Catalogue, accepts: Matcher, room: nat, last: nat, limit: nat)
      returns (res: Outcome, out: seq<Byte>, last': nat)
    requires cat.Valid() && cat.pending == [] && Sendable(cat.at, cat.list)
    ensures exists from: nat, k: nat ::
      && ResumesAt(cat.at, cat.list, last, from)
      && PageFrom(cat.at, cat.list, accepts, room, last, limit, res, out, last', from, k)
  {
    hide Holds, Linked, Nearest, ResumesAt, PageFrom, Sendable;
    var item := Resume(cat, last);
    ghost var from: nat :| StartsAt(cat.at, cat.list, last, item, from);
    ResumesInside(cat.at, cat.list, last, from);
    ghost var k;
    res, out, last', k := Collect(cat, accepts, room, last, limit, item, from);
  }

  /** The loop of storage_lookup_without_index. */
  method Collect(cat: Catalogue, accepts: Matcher, room: nat, last: nat, limit: nat, start: Addr, ghost from: nat)
      returns (res: Outcome, out: seq<Byte>, last': nat, ghost k: nat)
    requires cat.Valid() && Sendable(cat.at, cat.list)
    requires from <= |cat.list| && start == if from < |cat.list| then cat.list[from] else 0
    ensures PageFrom(cat.at, cat.list, accepts, room, last, limit, res, out, last', from, k)
  {
    hide Holds, Linked, Packed, Selected, Window, FilledTo, LastId, Progress;
    var at := cat.at;
    ghost var list := cat.list;
    ghost var keep := Passing(at, accepts);
    var item := start;
    LinkedFirst(cat);
    assert list[from..from] == [];
    NothingYet(at, keep, 0, limit, room);
    NoWindow(at, keep, limit, last);
    ghost var pos, want := from, Window(Selected(keep, list[from..]), 0, limit);
    var more, left, go, none := limit, room, true, 0;
    out, res, last' := [], Done, last;
    while item != 0
      invariant from <= pos <= |list| && item == if pos < |list| then list[pos] else 0
      invariant Progress(at, Selected(keep, list[from..pos]), 0, limit, room, 0, more, left, out)
      invariant last' == LastId(at, Window(Selected(keep, list[from..pos]), 0, limit), last)
      decreases |list| - pos
    {
      ghost var s, rest := list[from..pos], list[pos + 1..];
      assert list[from..] == s + [item] + rest && list[from..pos + 1] == s + [item];
      SelectedNext(keep, s, item, rest);
      if accepts(at(item).key) {
        SentSoFar(at, Selected(keep, s), item, Selected(keep, rest), limit, last);
        go, res, none, more, left, out :=
          Offer(at, item, 0, more, left, out, Selected(keep, s), Selected(keep, rest), 0, limit, room);
        if !go {
          k := |Window(Selected(keep, s), 0, limit)|;
          return;
        }
        last' := at(item).internalId;
      }
      LinkedNext(cat, pos);
      item := cat.next[item];
      pos := pos + 1;
    }
    assert list[from..pos] == list[from..];
    res, k := Done, |want|;
    assert want[..k] == want;
    AllSent(at, Selected(keep, list[from..]), limit, room, more, left, out);
  }

  lemma ResumesInside(at: Addr -> Entry, list: seq<Addr>, last: nat, from: nat)
    requires ResumesAt(at, list, last, from)
    ensures from <= |list|
  {
  }

  lemma AllSent(at: Addr -> Entry, s: seq<Addr>, limit: nat, room: nat, more: nat, left: nat, out: seq<Byte>)
    requires Progress(at, s, 0, limit, room, 0, more, left, out)
    ensures FilledTo(at, Window(s, 0, limit), room, Done, out, |Window(s, 0, limit)|)
  {
    FilledAll(at, Window(s, 0, limit), room, out);
  }

  lemma NoWindow(at: Addr -> Entry, keep: Addr -> bool, limit: nat, last: nat)
    ensures LastId(at, Window(Selected(keep, []), 0, limit), last) == last
  {
  }

  lemma SentSoFar(at: Addr -> Entry, s: seq<Addr>, x: Addr, rest: seq<Addr>, limit: nat, last: nat)
    ensures var want := Window(s + [x] + rest, 0, limit);
      var k := |Window(s, 0, limit)|;
      && k <= |want| && want[..k] == Window(s, 0, limit)
    ensures |Window(s, 0, limit)| < limit ==> LastId(at, Window(s + [x], 0, limit), last) == IdOf(at, x)
  {
    var all := s + [x] + rest;
    assert all[..|s|] == s;
  }

  ghost function FindIn(list: seq<Addr>, x: Addr): (i: nat)
    requires x in list
    ensures i < |list| && list[i] == x
  {
    var i :| 0 <= i < |list| && list[i] == x; i
  }

  lemma LinkedFirst(cat: Catalogue)
    requires cat.Valid()
    ensures cat.first == if cat.list == [] then 0 else cat.list[0]
    ensures 0 !in cat.list
  {
  }

  lemma LinkedNext(cat: Catalogue, i: nat)
    requires cat.Valid() && i < |cat.list|
    ensures cat.list[i] in cat.next && cat.next[cat.list[i]] == if i + 1 < |cat.list| then cat.list[i + 1] else 0
  {
    assert LinkOk(cat.list, cat.next, cat.prev, i);
  }

  // ----- a run of pages -----

  /** The list lies in ascending internal id, from 1 on, as in any store opened empty
      (Directory.Directory keeps it so). */
  ghost predicate Ascending(at: Addr -> Entry, list: seq<Addr>)
  {
    && (forall i :: 0 <= i < |list| ==> IdOf(at, list[i]) > 0)
    && (forall i, j :: 0 <= i < j < |list| ==> IdOf(at, list[i]) < IdOf(at, list[j]))
  }

  /** Position p splits the list at an id: everything before is at most it, the rest above. */
  ghost predicate SplitsAt(at: Addr -> Entry, list: seq<Addr>, last: nat, p: nat)
  {
    && p <= |list|
    && (forall i :: 0 <= i < p ==> IdOf(at, list[i]) <= last)
    && (forall i :: p <= i < |list| ==> IdOf(at, list[i]) > last)
  }

  /** In an ascending list a page resumes at exactly the first item above the resume id if
      and only if the scan is at its start, or some item is not above that id, or there is
      nothing left to report anyway. */
  lemma ResumeExact(at: Addr -> Entry, list: seq<Addr>, last: nat, from: nat)
    requires Ascending(at, list) && ResumesAt(at, list, last, from)
    ensures SplitsAt(at, list, last, from) <==>
      last == 0 || list == [] || IdOf(at, list[0]) <= last
  {
    if last != 0 && list != [] {
      assert list[0] in list;
      if IdOf(at, list[0]) <= last {
        var n := list[from - 1];
        forall i | from <= i < |list| ensures IdOf(at, list[i]) > last {
          assert list[i] in list && IdOf(at, n) < IdOf(at, list[i]);
        }
      } else {
        forall x | x in list ensures IdOf(at, x) > last {
          var i :| 0 <= i < |list| && list[i] == x;
          assert i > 0 ==> IdOf(at, list[0]) < IdOf(at, list[i]);
        }
      }
    }
  }

  /** Where the k-th selected element of s ends. */
  function Position(keep: Addr -> bool, s: seq<Addr>, k: nat): (p: nat)
    requires k <= |Selected(keep, s)|
    ensures p <= |s|
  {
    if k == 0 then 0
    else if keep(s[0]) then 1 + Position(keep, s[1..], k - 1)
    else 1 + Position(keep, s[1..], k)
  }

  lemma {:induction false} PositionSplits(keep: Addr -> bool, s: seq<Addr>, k: nat)
    requires k <= |Selected(keep, s)|
    ensures var p := Position(keep, s, k);
      && Selected(keep, s[p..]) == Selected(keep, s)[k..]
      && (k > 0 ==> p > 0 && s[p - 1] == Selected(keep, s)[k - 1])
  {
    if k == 0 {
      assert s[0..] == s;
    } else {
      var k' := if keep(s[0]) then k - 1 else k;
      PositionSplits(keep, s[1..], k');
      var p := Position(keep, s[1..], k');
      assert s[1..][p..] == s[p + 1..];
    }
  }

  /** After k items of a page that resumed at from, the scan goes on behind the last one. */
  lemma PageStep(at: Addr -> Entry, keep: Addr -> bool, list: seq<Addr>, from: nat, k: nat, last: nat)
    requires Ascending(at, list) && from <= |list| && 0 < k <= |Selected(keep, list[from..])|
    ensures var got := Selected(keep, list[from..])[..k];
      var p := from + Position(keep, list[from..], k);
      && SplitsAt(at, list, LastId(at, got, last), p) && p > from
      && Selected(keep, list[from..]) == got + Selected(keep, list[p..])
  {
    hide Selected, Position;
    var s := list[from..];
    PositionSplits(keep, s, k);
    var q := Position(keep, s, k);
    assert s[q..] == list[from + q..];
    assert s[q - 1] == list[from + q - 1];
  }

  /** Splitting points are unique. */
  lemma SplitUnique(at: Addr -> Entry, list: seq<Addr>, last: nat, p: nat, q: nat)
    requires SplitsAt(at, list, last, p) && SplitsAt(at, list, last, q)
    ensures p == q
  {
    if q < |list| { assert IdOf(at, list[q]) > last; }
    if p < |list| { assert IdOf(at, list[p]) > last; }
  }

  /** A resume id may be moved on over ids that no item has. */
  ghost predicate Harmless(at: Addr -> Entry, list: seq<Addr>, nudge: nat -> nat)
  {
    forall n: nat :: n <= nudge(n) && forall i :: 0 <= i < |list| ==> IdOf(at, list[i]) <= n || IdOf(at, list[i]) > nudge(n)
  }

  /** Some page of at most limit consecutive hits does not fit the buffer. */
  ghost predicate PageTooBig(at: Addr -> Entry, hits: seq<Addr>, limit: nat, room: nat)
  {
    exists a: nat, b: nat :: a <= b <= |hits| && b - a <= limit && |Packed(at, hits[a..b])| > room
  }

  /** Paging with any limit of at least one until a page comes back empty: unless a page
      overflows its buffer, the pages together hold every matching item once, in list order. */
  method ScanPages(cat: Catalogue, accepts: Matcher, room: nat, limit: nat, nudge: nat -> nat)
      returns (res: Outcome, out: seq<Byte>)
    requires cat.Valid() && cat.pending == [] && Sendable(cat.at, cat.list) && Ascending(cat.at, cat.list) && limit >= 1
    requires Harmless(cat.at, cat.list, nudge)
    ensures var hits := Selected(Passing(cat.at, accepts), cat.list);
      if res == Done then out == Packed(cat.at, hits)
      else res == BufTooSmall && PageTooBig(cat.at, hits, limit, room)
  {
    hide Holds, Linked, Selected, Packed, Ascending, ResumesAt, SplitsAt, Sendable, Harmless, PageTooBig, Window, FilledTo;
    ghost var at, list, keep := cat.at, cat.list, Passing(cat.at, accepts);
    ghost var hits := Selected(keep, list);
    ghost var sent: seq<Addr> := [];
    ghost var pos := 0;
    var last := 0;
    out := [];
    StartOfScan(at, keep, list);
    while true
      invariant pos <= |list| && SplitsAt(at, list, last, pos) && (last == 0 || pos > 0)
      invariant hits == sent + Selected(keep, list[pos..]) && out == Packed(at, sent)
      decreases |list| - pos
    {
      var page, last';
      res, page, last' := ScanPage(cat, accepts, room, last, limit);
      ghost var from: nat, k: nat :| ResumesAt(at, list, last, from)
        && PageFrom(at, list, accepts, room, last, limit, res, page, last', from, k);
      ResumeAtSplit(at, list, last, pos, from);
      ghost var s := Selected(keep, list[pos..]);
      PageFilled(at, hits, sent, s, limit, room, res, page, k);
      if res != Done { return; }
      out := out + page;
      if page == [] {
        return;
      }
      PageStep(at, keep, list, pos, k, last);
      sent := sent + s[..k];
      pos := pos + Position(keep, list[pos..], k);
      Nudged(at, list, nudge, last', pos);
      last := nudge(last');
    }
  }

  lemma StartOfScan(at: Addr -> Entry, keep: Addr -> bool, list: seq<Addr>)
    requires Ascending(at, list)
    ensures SplitsAt(at, list, 0, 0) && Selected(keep, list) == [] + Selected(keep, list[0..]) && Packed(at, []) == []
  {
    assert list[0..] == list;
  }

  lemma ResumeAtSplit(at: Addr -> Entry, list: seq<Addr>, last: nat, pos: nat, from: nat)
    requires Ascending(at, list) && ResumesAt(at, list, last, from) && SplitsAt(at, list, last, pos)
    requires last == 0 || pos > 0
    ensures from == pos
  {
    ResumeExact(at, list, last, from);
    SplitUnique(at, list, last, from, pos);
  }

  lemma Nudged(at: Addr -> Entry, list: seq<Addr>, nudge: nat -> nat, last: nat, pos: nat)
    requires SplitsAt(at, list, last, pos) && Harmless(at, list, nudge)
    ensures SplitsAt(at, list, nudge(last), pos)
  {
  }

  /** What one page adds. */
  lemma PageFilled(at: Addr -> Entry, hits: seq<Addr>, sent: seq<Addr>, s: seq<Addr>, limit: nat, room: nat,
                   res: Outcome, page: seq<Byte>, k: nat)
    requires hits == sent + s && limit >= 1 && FilledTo(at, Window(s, 0, limit), room, res, page, k)
    ensures k <= |s| && Window(s, 0, limit)[..k] == s[..k]
    ensures res == Done || (res == BufTooSmall && PageTooBig(at, hits, limit, room))
    ensures Packed(at, sent) + page == Packed(at, sent + s[..k])
    ensures res == Done && page == [] ==> s == [] && Packed(at, sent) + page == Packed(at, hits)
    ensures page != [] ==> k > 0
  {
    hide Packed, PageTooBig;
    var want := Window(s, 0, limit);
    assert want[..k] == s[..k];
    PackedAppend(at, sent, s[..k]);
    PackedNone(at, want[..k]);
    if k < |want| {
      assert want[..k + 1] == hits[|sent|..|sent| + k + 1];
      TooBig(at, hits, limit, room, |sent|, |sent| + k + 1);
    }
    if k == |want| && page == [] {
      assert s == [] && sent + s[..k] == hits;
    }
  }

  /** When all hits fit one buffer no page is too big for it. */
  lemma RoomForAll(at: Addr -> Entry, hits: seq<Addr>, limit: nat, room: nat)
    requires |Packed(at, hits)| <= room
    ensures !PageTooBig(at, hits, limit, room)
  {
    hide Packed;
    forall a: nat, b: nat | a <= b <= |hits| ensures |Packed(at, hits[a..b])| <= room { PackedPart(at, hits, a, b); }
  }

  lemma TooBig(at: Addr -> Entry, hits: seq<Addr>, limit: nat, room: nat, a: nat, b: nat)
    requires a <= b <= |hits| && b - a <= limit && |Packed(at, hits[a..b])| > room
    ensures PageTooBig(at, hits, limit, room)
  {
  }

  lemma PackedNone(at: Addr -> Entry, s: seq<Addr>)
    ensures Packed(at, s) == [] <==> s == []
  {
  }
}
