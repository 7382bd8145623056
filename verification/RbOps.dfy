/** Insertion into and deletion from a red-black tree ordered by a comparator and, among
    equals, by node address (tree.c:670-835), as functions on shapes. */
module RbOps {
  import opened Basics
  import opened RbTree

  /** The comparator of one index on the items at two addresses. */
  type Cmp = (Addr, Addr) -> int

  /** The order of the tree: the comparator first, then the address. */
  predicate Before(cmp: Cmp, a: Addr, b: Addr)
  {
    cmp(a, b) < 0 || (cmp(a, b) == 0 && a < b)
  }

  /** A three-way comparison of a total preorder. */
  ghost predicate IsComparator(cmp: Cmp)
  {
    && (forall a, b :: cmp(a, b) < 0 <==> cmp(b, a) > 0)
    && (forall a, b, c :: cmp(a, b) <= 0 && cmp(b, c) <= 0 ==> cmp(a, c) <= 0)
  }

  lemma BeforeTransitive(cmp: Cmp, a: Addr, b: Addr, c: Addr)
    requires IsComparator(cmp) && Before(cmp, a, b) && Before(cmp, b, c)
    ensures Before(cmp, a, c)
  {
    assert cmp(a, c) <= 0;
    if cmp(a, c) == 0 {
      assert cmp(c, a) <= 0;
      assert cmp(b, a) <= 0 && cmp(c, b) <= 0;
    }
  }

  lemma BeforeTotal(cmp: Cmp, a: Addr, b: Addr)
    requires IsComparator(cmp)
    ensures Before(cmp, a, b) || Before(cmp, b, a) || a == b
    ensures !(Before(cmp, a, b) && Before(cmp, b, a))
    ensures !Before(cmp, a, a)
  {
    assert cmp(a, b) < 0 <==> cmp(b, a) > 0;
    assert cmp(b, a) < 0 <==> cmp(a, b) > 0;
    assert cmp(a, a) < 0 <==> cmp(a, a) > 0;
  }

  // ----- sorted sequences -----

  ghost predicate Sorted(cmp: Cmp, s: seq<Addr>)
  {
    forall i, j :: 0 <= i < j < |s| ==> Before(cmp, s[i], s[j])
  }

  function SortedInsert(cmp: Cmp, s: seq<Addr>, e: Addr): seq<Addr>
  {
    if s == [] then [e]
    else if Before(cmp, e, s[0]) then [e] + s
    else [s[0]] + SortedInsert(cmp, s[1..], e)
  }

  lemma {:induction false} SortedInsertSorted(cmp: Cmp, s: seq<Addr>, e: Addr)
    requires IsComparator(cmp) && Sorted(cmp, s) && e !in s
    ensures Sorted(cmp, SortedInsert(cmp, s, e))
    ensures multiset(SortedInsert(cmp, s, e)) == multiset(s) + multiset{e}
  {
    hide IsComparator, Before;
    if s == [] {
    } else if Before(cmp, e, s[0]) {
      forall j | 0 <= j < |s| ensures Before(cmp, e, s[j]) {
        if j > 0 { BeforeTransitive(cmp, e, s[0], s[j]); }
      }
    } else {
      var tail := s[1..];
      SortedInsertSorted(cmp, tail, e);
      assert s == [s[0]] + tail;
      BeforeTotal(cmp, e, s[0]);
      var r := SortedInsert(cmp, tail, e);
      forall j | 0 <= j < |r| ensures Before(cmp, s[0], r[j]) {
        assert r[j] in multiset(r);
        assert r[j] == e || r[j] in multiset(tail);
      }
    }
  }

  lemma {:induction false} WithoutSorted(cmp: Cmp, s: seq<Addr>, e: Addr)
    requires Sorted(cmp, s) && e in s
    ensures Sorted(cmp, Without(s, e))
    ensures multiset(Without(s, e)) == multiset(s) - multiset{e}
  {
    hide Before;
    assert s == [s[0]] + s[1..];
    if s[0] != e {
      var tail := s[1..];
      WithoutSorted(cmp, tail, e);
      WithoutAfter(cmp, s, Without(tail, e));
    }
  }

  /** A sorted selection of the tail goes after the head. */
  lemma WithoutAfter(cmp: Cmp, s: seq<Addr>, r: seq<Addr>)
    requires s != [] && Sorted(cmp, s) && Sorted(cmp, r) && multiset(r) <= multiset(s[1..])
    ensures Sorted(cmp, [s[0]] + r)
  {
    hide Before;
    var tail := s[1..];
    forall j | 0 <= j < |r| ensures Before(cmp, s[0], r[j]) {
      assert r[j] in multiset(r);
      assert r[j] in multiset(tail);
      var i :| 0 <= i < |tail| && tail[i] == r[j];
      assert s[i + 1] == r[j];
    }
  }

  /** What sortedness says around a node. */
  lemma SortedSplit(cmp: Cmp, a: seq<Addr>, x: Addr, b: seq<Addr>)
    requires Sorted(cmp, a + [x] + b)
    ensures Sorted(cmp, a) && Sorted(cmp, b)
    ensures forall k :: 0 <= k < |a| ==> Before(cmp, a[k], x)
    ensures forall k :: 0 <= k < |b| ==> Before(cmp, x, b[k])
  {
    hide Before;
    var s := a + [x] + b;
    forall k | 0 <= k < |a| ensures Before(cmp, a[k], x) {
      assert s[k] == a[k] && s[|a|] == x;
    }
    forall k | 0 <= k < |b| ensures Before(cmp, x, b[k]) {
      assert s[|a| + 1 + k] == b[k] && s[|a|] == x;
    }
    forall i, j | 0 <= i < j < |a| ensures Before(cmp, a[i], a[j]) {
      assert s[i] == a[i] && s[j] == a[j];
    }
    forall i, j | 0 <= i < j < |b| ensures Before(cmp, b[i], b[j]) {
      assert s[|a| + 1 + i] == b[i] && s[|a| + 1 + j] == b[j];
    }
  }

  lemma {:induction false} InsertLeftPart(cmp: Cmp, a: seq<Addr>, x: Addr, b: seq<Addr>, e: Addr)
    requires Before(cmp, e, x)
    ensures SortedInsert(cmp, a + [x] + b, e) == SortedInsert(cmp, a, e) + [x] + b
  {
    hide Before;
    var s := a + [x] + b;
    if a == [] {
      assert s[0] == x;
    } else {
      assert s[0] == a[0] && s[1..] == a[1..] + [x] + b;
      InsertLeftPart(cmp, a[1..], x, b, e);
    }
  }

  lemma {:induction false} InsertRightPart(cmp: Cmp, a: seq<Addr>, x: Addr, b: seq<Addr>, e: Addr)
    requires IsComparator(cmp) && Before(cmp, x, e) && (forall k :: 0 <= k < |a| ==> Before(cmp, a[k], x))
    ensures SortedInsert(cmp, a + [x] + b, e) == a + [x] + SortedInsert(cmp, b, e)
  {
    hide Before, IsComparator;
    var s := a + [x] + b;
    if a == [] {
      BeforeTotal(cmp, e, x);
      assert s[0] == x && s[1..] == b;
    } else {
      BeforeTransitive(cmp, a[0], x, e);
      BeforeTotal(cmp, a[0], e);
      assert s[0] == a[0] && s[1..] == a[1..] + [x] + b;
      InsertRightPart(cmp, a[1..], x, b, e);
    }
  }

  lemma {:induction false} WithoutParts(a: seq<Addr>, x: Addr, b: seq<Addr>, e: Addr)
    ensures e in a ==> Without(a + [x] + b, e) == Without(a, e) + [x] + b
    ensures e !in a && e != x ==> Without(a + [x] + b, e) == a + [x] + Without(b, e)
    ensures e !in a && e == x ==> Without(a + [x] + b, e) == a + b
  {
    var s := a + [x] + b;
    if a == [] {
      assert s[0] == x && s[1..] == b;
    } else {
      assert s[0] == a[0] && s[1..] == a[1..] + [x] + b;
      WithoutParts(a[1..], x, b, e);
      assert a == [a[0]] + a[1..];
    }
  }

  // ----- insertion -----

  /** sglib___StorageItem_add_recursive */
  function AddRec(cmp: Cmp, t: Tree, e: Addr): (r: Tree)
    ensures r.Node?
  {
    if t.Leaf? then Node(Red, Leaf, e, Leaf)
    else if Before(cmp, e, t.addr) then
      var t' := t.(left := AddRec(cmp, t.left, e));
      if t.color == Black then FixInsertion(Left, t') else t'
    else
      var t' := t.(right := AddRec(cmp, t.right, e));
      if t.color == Black then FixInsertion(Right, t') else t'
  }

  /** sglib_StorageItem_add: the root is blackened. */
  function Add(cmp: Cmp, t: Tree, e: Addr): Tree
  {
    Blacken(AddRec(cmp, t, e))
  }

  lemma {:induction false} AddRecBalances(cmp: Cmp, t: Tree, e: Addr)
    requires RedBlack(t)
    ensures AlmostRedBlack(AddRec(cmp, t, e)) && BlackHeight(AddRec(cmp, t, e)) == BlackHeight(t)
    ensures !IsRed(t) ==> RedBlack(AddRec(cmp, t, e))
  {
    if t.Node? {
      var s := if Before(cmp, e, t.addr) then Left else Right;
      Parts(s, t);
      AddRecBalances(cmp, Near(s, t), e);
      hide RedBlack, Before;
      var near := AddRec(cmp, Near(s, t), e);
      var t' := Mk(s, t.color, near, t.addr, Far(s, t));
      if t.color == Black {
        FixInsertionBalances(s, t');
        NodeAlmost(FixInsertion(s, t'));
      } else {
        assert RedBlack(near);
        RedRootAlmost(s, near, t.addr, Far(s, t));
      }
    }
  }

  lemma NodeAlmost(t: Tree)
    requires t.Node? && RedBlack(t)
    ensures AlmostRedBlack(t)
  {
  }

  lemma RedRootAlmost(s: Side, near: Tree, a: Addr, far: Tree)
    requires RedBlack(near) && RedBlack(far) && !IsRed(far) && BlackHeight(near) == BlackHeight(far)
    ensures AlmostRedBlack(Mk(s, Red, near, a, far)) && BlackHeight(Mk(s, Red, near, a, far)) == BlackHeight(far)
  {
  }

  lemma {:induction false} AddRecOrder(cmp: Cmp, t: Tree, e: Addr)
    requires IsComparator(cmp) && Sorted(cmp, InOrder(t)) && e !in InOrder(t)
    ensures InOrder(AddRec(cmp, t, e)) == SortedInsert(cmp, InOrder(t), e)
  {
    hide IsComparator, Before, FixInsertion, Sorted;
    if t.Node? {
      var a, b := InOrder(t.left), InOrder(t.right);
      SortedSplit(cmp, a, t.addr, b);
      if Before(cmp, e, t.addr) {
        AddRecOrder(cmp, t.left, e);
        FixInsertionOrder(Left, t.(left := AddRec(cmp, t.left, e)));
        InsertLeftPart(cmp, a, t.addr, b, e);
      } else {
        BeforeTotal(cmp, e, t.addr);
        AddRecOrder(cmp, t.right, e);
        FixInsertionOrder(Right, t.(right := AddRec(cmp, t.right, e)));
        InsertRightPart(cmp, a, t.addr, b, e);
      }
    }
  }

  /** A tree in the state every public operation leaves it in. */
  ghost predicate ValidTree(cmp: Cmp, t: Tree)
  {
    RedBlack(t) && !IsRed(t) && Sorted(cmp, InOrder(t))
  }

  lemma AddValid(cmp: Cmp, t: Tree, e: Addr)
    requires IsComparator(cmp) && ValidTree(cmp, t) && e !in InOrder(t)
    ensures ValidTree(cmp, Add(cmp, t, e))
    ensures InOrder(Add(cmp, t, e)) == SortedInsert(cmp, InOrder(t), e)
    ensures multiset(InOrder(Add(cmp, t, e))) == multiset(InOrder(t)) + multiset{e}
  {
    AddRecBalances(cmp, t, e);
    AddRecOrder(cmp, t, e);
    SortedInsertSorted(cmp, InOrder(t), e);
    BlackenParts(AddRec(cmp, t, e));
  }

  // ----- deletion -----

  datatype Cut = Cut(tree: Tree, leaf: Addr, short: bool)

  /** sglib___StorageItem_delete_rightmost_leaf */
  function DeleteRightmost(t: Tree): (r: Cut)
    requires t.Node? && RedBlack(t)
    ensures Deleted(BlackHeight(t), t.color, (r.tree, r.short))
  {
    if t.right.Leaf? then
      BareRight(t);
      if t.left.Node? then Cut(Blacken(t.left), t.addr, t.color == Black && t.left.color == Black)
      else Cut(Leaf, t.addr, t.color == Black)
    else
      var r := DeleteRightmost(t.right);
      Rebuild(Right, t, r.tree, r.short);
      var fixed := Rejoin(Right, t, r.tree, r.short);
      Cut(fixed.0, r.leaf, fixed.1)
  }

  /** A node whose one child is missing has at most a single red leaf as the other. */
  lemma BareRight(t: Tree)
    requires t.Node? && RedBlack(t) && (t.right.Leaf? || t.left.Leaf?)
    ensures t.right.Leaf? && t.left.Node? ==>
              (t.color == Black && IsRed(t.left) && Deleted(BlackHeight(t), t.color, (Blacken(t.left), false)))
    ensures t.left.Leaf? && t.right.Node? ==>
              (t.color == Black && IsRed(t.right) && Deleted(BlackHeight(t), t.color, (Blacken(t.right), false)))
    ensures t.left.Leaf? && t.right.Leaf? ==> Deleted(BlackHeight(t), t.color, (Leaf, t.color == Black))
  {
    Parts(Left, t);
    if t.left.Node? {
      BlackenParts(t.left);
    } else if t.right.Node? {
      BlackenParts(t.right);
    }
  }

  /** A node whose child on side s has been replaced, repaired when that child is short. */
  function Rejoin(s: Side, t: Tree, child: Tree, short: bool): (Tree, bool)
    requires t.Node?
    requires short ==> Short(s, Mk(s, t.color, child, t.addr, Far(s, t)))
  {
    var t' := Mk(s, t.color, child, t.addr, Far(s, t));
    if short then FixDeletion(s, t') else (t', false)
  }

  lemma Rebuild(s: Side, t: Tree, child: Tree, short: bool)
    requires t.Node? && RedBlack(t) && Near(s, t).Node?
    requires Deleted(BlackHeight(Near(s, t)), Near(s, t).color, (child, short))
    ensures short ==> Short(s, Mk(s, t.color, child, t.addr, Far(s, t)))
    ensures Deleted(BlackHeight(t), t.color, Rejoin(s, t, child, short))
    ensures InOrder(Rejoin(s, t, child, short).0) == InOrder(Mk(s, t.color, child, t.addr, Far(s, t)))
  {
    hide RedBlack, InOrder, FixDeletion, BlackHeight;
    Parts(s, t);
    if short {
      FixDeletionBalances(s, Mk(s, t.color, child, t.addr, Far(s, t)));
      FixDeletionOrder(s, Mk(s, t.color, child, t.addr, Far(s, t)));
    } else {
      Build(s, t.color, child, t.addr, Far(s, t));
    }
  }

  lemma {:induction false} DeleteRightmostOrder(t: Tree)
    requires t.Node? && RedBlack(t)
    ensures InOrder(DeleteRightmost(t).tree) + [DeleteRightmost(t).leaf] == InOrder(t)
  {
    hide RedBlack, FixDeletion;
    if t.right.Leaf? {
      BareRight(t);
      assert InOrder(t) == InOrder(t.left) + [t.addr];
    } else {
      Parts(Right, t);
      DeleteRightmostOrder(t.right);
      var r := DeleteRightmost(t.right);
      Rebuild(Right, t, r.tree, r.short);
      var l := InOrder(t.left);
      assert l + [t.addr] + (InOrder(r.tree) + [r.leaf]) == (l + [t.addr] + InOrder(r.tree)) + [r.leaf];
    }
  }

  /** sglib___StorageItem_delete_recursive: the new tree, and whether its black height fell. */
  function DeleteRec(cmp: Cmp, t: Tree, e: Addr): (r: (Tree, bool))
    requires RedBlack(t)
    ensures t.Node? ==> Deleted(BlackHeight(t), t.color, r)
    ensures t.Leaf? ==> r == (Leaf, false)
  {
    if t.Leaf? then (Leaf, false)
    else if Before(cmp, e, t.addr) then
      var r := DeleteRec(cmp, t.left, e);
      if t.left.Leaf? then (t, false) else
      Rebuild(Left, t, r.0, r.1);
      Rejoin(Left, t, r.0, r.1)
    else if Before(cmp, t.addr, e) then
      var r := DeleteRec(cmp, t.right, e);
      if t.right.Leaf? then (t, false) else
      Rebuild(Right, t, r.0, r.1);
      Rejoin(Right, t, r.0, r.1)
    else DeleteNode(t)
  }

  /** Removing the node t itself: its rightmost left descendant takes its place. */
  function DeleteNode(t: Tree): (r: (Tree, bool))
    requires t.Node? && RedBlack(t)
    ensures Deleted(BlackHeight(t), t.color, r)
  {
    if t.left.Leaf? then
      BareRight(t);
      if t.right.Leaf? then (Leaf, t.color == Black)
      else (Blacken(t.right), t.color == Black && t.right.color == Black)
    else
      var r := DeleteRightmost(t.left);
      Rebuild(Left, t.(addr := r.leaf), r.tree, r.short);
      Rejoin(Left, t.(addr := r.leaf), r.tree, r.short)
  }

  /** sglib_StorageItem_delete */
  function Delete(cmp: Cmp, t: Tree, e: Addr): Tree
    requires RedBlack(t)
  {
    Blacken(DeleteRec(cmp, t, e).0)
  }

  lemma DeleteNodeOrder(t: Tree)
    requires t.Node? && RedBlack(t)
    ensures InOrder(DeleteNode(t).0) == InOrder(t.left) + InOrder(t.right)
  {
    if t.left.Leaf? {
      BareRight(t);
    } else {
      DeleteRightmostOrder(t.left);
      var r := DeleteRightmost(t.left);
      Rebuild(Left, t.(addr := r.leaf), r.tree, r.short);
      hide RedBlack, DeleteRightmost;
    }
  }

  lemma {:induction false} DeleteRecOrder(cmp: Cmp, t: Tree, e: Addr)
    requires IsComparator(cmp) && RedBlack(t) && Sorted(cmp, InOrder(t)) && e in InOrder(t)
    ensures InOrder(DeleteRec(cmp, t, e).0) == Without(InOrder(t), e)
  {
    hide IsComparator, Before, RedBlack, FixDeletion, DeleteNode, Sorted;
    Parts(Left, t);
    var a, b := InOrder(t.left), InOrder(t.right);
    SortedSplit(cmp, a, t.addr, b);
    WithoutParts(a, t.addr, b, e);
    BeforeTotal(cmp, e, t.addr);
    if Before(cmp, e, t.addr) {
      NotAmong(cmp, b, t.addr, e, false);
      DeleteRecOrder(cmp, t.left, e);
      var r := DeleteRec(cmp, t.left, e);
      Rebuild(Left, t, r.0, r.1);
    } else if Before(cmp, t.addr, e) {
      NotAmong(cmp, a, t.addr, e, true);
      DeleteRecOrder(cmp, t.right, e);
      var r := DeleteRec(cmp, t.right, e);
      Rebuild(Right, t, r.0, r.1);
    } else {
      NotAmong(cmp, a, t.addr, e, true);
      DeleteNodeOrder(t);
    }
  }

  /** A node not smaller (not larger) than x is not in the part below (above) x. */
  lemma NotAmong(cmp: Cmp, s: seq<Addr>, x: Addr, e: Addr, below: bool)
    requires IsComparator(cmp)
    requires below ==> (forall k :: 0 <= k < |s| ==> Before(cmp, s[k], x)) && !Before(cmp, e, x)
    requires !below ==> (forall k :: 0 <= k < |s| ==> Before(cmp, x, s[k])) && !Before(cmp, x, e)
    ensures e !in s
  {
  }

  lemma DeleteValid(cmp: Cmp, t: Tree, e: Addr)
    requires IsComparator(cmp) && ValidTree(cmp, t) && e in InOrder(t)
    ensures ValidTree(cmp, Delete(cmp, t, e))
    ensures InOrder(Delete(cmp, t, e)) == Without(InOrder(t), e)
    ensures multiset(InOrder(Delete(cmp, t, e))) == multiset(InOrder(t)) - multiset{e}
  {
    hide FixDeletion, DeleteNode, DeleteRec;
    DeleteRecOrder(cmp, t, e);
    WithoutSorted(cmp, InOrder(t), e);
    BlackenParts(DeleteRec(cmp, t, e).0);
  }
}
