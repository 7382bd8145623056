/** Searching an index and walking the nodes equal to a key (tree.c:837-1194): the loops,
    the explicit 128-slot stack, and why that stack is deep enough. */
module TreeIter {
  import opened Words
  import opened RbTree
  import opened RbOps
  import opened RbHeap

  /** How a search key compares with the item at an address: negative, zero, positive for
      smaller, equal, larger than it. */
  type Probe = Addr -> int

  /** The key takes part in the same preorder as the items. */
  ghost predicate Fits(cmp: Cmp, q: Probe)
  {
    && (forall a, b :: cmp(a, b) <= 0 && q(a) < 0 ==> q(b) < 0)
    && (forall a, b :: cmp(a, b) <= 0 && q(b) > 0 ==> q(a) > 0)
  }

  /** The elements equal to the key, in order. */
  function Equals(q: Probe, s: seq<Addr>): (r: seq<Addr>)
  {
    if s == [] then []
    else if q(s[0]) == 0 then [s[0]] + Equals(q, s[1..])
    else Equals(q, s[1..])
  }

  lemma {:induction false} EqualsConcat(q: Probe, a: seq<Addr>, b: seq<Addr>)
    ensures Equals(q, a + b) == Equals(q, a) + Equals(q, b)
  {
    if a == [] {
      assert a + b == b;
    } else {
      assert (a + b)[0] == a[0] && (a + b)[1..] == a[1..] + b;
      EqualsConcat(q, a[1..], b);
    }
  }

  lemma {:induction false} EqualsNone(q: Probe, s: seq<Addr>)
    requires forall k :: 0 <= k < |s| ==> q(s[k]) != 0
    ensures Equals(q, s) == []
  {
    if s != [] { EqualsNone(q, s[1..]); }
  }

  lemma {:induction false} EqualsMember(q: Probe, s: seq<Addr>, x: Addr)
    ensures x in Equals(q, s) <==> x in s && q(x) == 0
  {
    if s != [] {
      EqualsMember(q, s[1..], x);
      assert s == [s[0]] + s[1..];
    }
  }

  lemma EqualsNode(q: Probe, t: Tree)
    requires t.Node?
    ensures Equals(q, InOrder(t))
         == Equals(q, InOrder(t.left)) + (if q(t.addr) == 0 then [t.addr] else []) + Equals(q, InOrder(t.right))
  {
    var l, r := InOrder(t.left), InOrder(t.right);
    assert Equals(q, [t.addr]) == if q(t.addr) == 0 then [t.addr] else [];
    hide Equals;
    EqualsConcat(q, l + [t.addr], r);
    EqualsConcat(q, l, [t.addr]);
  }

  // ----- searching -----

  /** The subtree at the topmost node equal to the key. */
  function Descend(q: Probe, t: Tree): (r: Tree)
    ensures r.Node? ==> q(r.addr) == 0
  {
    if t.Leaf? then Leaf
    else if q(t.addr) < 0 then Descend(q, t.left)
    else if q(t.addr) > 0 then Descend(q, t.right)
    else t
  }

  /** On side s of a node the key is beyond, nothing is equal to the key. */
  lemma NoEqualBeyond(cmp: Cmp, q: Probe, t: Tree)
    requires t.Node? && Fits(cmp, q) && Sorted(cmp, InOrder(t))
    ensures q(t.addr) < 0 ==> Equals(q, InOrder(t.right)) == []
    ensures q(t.addr) > 0 ==> Equals(q, InOrder(t.left)) == []
    ensures Sorted(cmp, InOrder(t.left)) && Sorted(cmp, InOrder(t.right))
  {
    hide Sorted;
    SortedSplit(cmp, InOrder(t.left), t.addr, InOrder(t.right));
    if q(t.addr) < 0 {
      EqualsNone(q, InOrder(t.right));
    } else if q(t.addr) > 0 {
      EqualsNone(q, InOrder(t.left));
    }
  }

  /** Descending loses no equal node. */
  lemma {:induction false} DescendComplete(cmp: Cmp, q: Probe, t: Tree)
    requires Fits(cmp, q) && Sorted(cmp, InOrder(t))
    ensures Equals(q, InOrder(Descend(q, t))) == Equals(q, InOrder(t))
    ensures Sorted(cmp, InOrder(Descend(q, t))) && Height(Descend(q, t)) <= Height(t) && Size(Descend(q, t)) <= Size(t)
  {
    hide Fits, Sorted, InOrder, Equals;
    if t.Node? && q(t.addr) != 0 {
      NoEqualBeyond(cmp, q, t);
      EqualsNode(q, t);
      DescendComplete(cmp, q, if q(t.addr) < 0 then t.left else t.right);
    }
  }

  /** The search loop of find_member and of every iterator step. */
  method Search(h: Heap, q: Probe, p: Addr, ghost t: Tree) returns (r: Addr)
    requires Repr(h, p, t)
    ensures Repr(h, r, Descend(q, t))
  {
    ghost var at := t;
    r := p;
    while r != 0
      invariant Repr(h, r, at) && Descend(q, at) == Descend(q, t)
      decreases at
    {
      var c := q(r);
      if c < 0 {
        r := h[r].left;
        at := at.left;
      } else if c > 0 {
        r := h[r].right;
        at := at.right;
      } else {
        break;
      }
    }
  }

  /** sglib_StorageItem_find_member: an equal node if and only if there is one. */
  method FindMember(index: Index, q: Probe) returns (r: Addr)
    requires index.Valid() && Fits(index.cmp, q)
    ensures r == 0 <==> forall x :: x in InOrder(index.shape) ==> q(x) != 0
    ensures r != 0 ==> r in InOrder(index.shape) && q(r) == 0
  {
    hide RedBlack, IsComparator, Fits, Sorted, Repr;
    ghost var t := index.shape;
    r := Search(index.cells, q, index.root, t);
    ghost var d := Descend(q, t);
    ReprTest(index.cells, r, d);
    DescendComplete(index.cmp, q, t);
    if d.Node? {
      assert d.addr in InOrder(d);
      EqualsMember(q, InOrder(d), d.addr);
      EqualsMember(q, InOrder(t), d.addr);
    } else {
      forall x | x in InOrder(t) ensures q(x) != 0 { EqualsMember(q, InOrder(t), x); }
    }
  }

  /** sglib_StorageItem_find_member_or_nearest_lesser: a node not above the key such that
      every node after it is above the key, or NULL when all are above it. */
  method FindNearestLesser(index: Index, q: Probe) returns (nearest: Addr)
    requires index.Valid() && Fits(index.cmp, q)
    ensures nearest == 0 <==> forall x :: x in InOrder(index.shape) ==> q(x) < 0
    ensures nearest != 0 ==> nearest in InOrder(index.shape) && q(nearest) >= 0
    ensures nearest != 0 && q(nearest) != 0 ==>
      forall x :: x in InOrder(index.shape) && Before(index.cmp, nearest, x) ==> q(x) < 0
    ensures nearest != 0 && q(nearest) != 0 ==> forall x :: x in InOrder(index.shape) ==> q(x) != 0
  {
    hide RedBlack, Sorted, Repr, InOrder, Before, IsComparator;
    ghost var cmp, all := index.cmp, InOrder(index.shape);
    ghost var at := index.shape;
    var s := index.root;
    nearest := 0;
    while s != 0
      invariant Repr(index.cells, s, at) && Sorted(cmp, InOrder(at))
      invariant forall x :: x in InOrder(at) ==> x in all
      invariant forall x :: x in all ==> x in InOrder(at) || (nearest != 0 && (x == nearest || Before(cmp, x, nearest))) || q(x) < 0
      invariant nearest != 0 ==> nearest in all && q(nearest) > 0
      invariant nearest != 0 ==> forall x :: x in InOrder(at) ==> Before(cmp, nearest, x)
      decreases at
    {
      ReprTest(index.cells, s, at);
      ReprParts(index.cells, Left, s, at);
      NearestStep(cmp, q, at, nearest);
      var c := q(s);
      if c < 0 {
        s := index.cells[s].left;
        at := at.left;
      } else if c > 0 {
        nearest := s;
        s := index.cells[s].right;
        at := at.right;
      } else {
        nearest := s;
        break;
      }
    }
    if nearest != 0 && q(nearest) != 0 {
      ReprTest(index.cells, s, at);
      assert forall x :: x !in InOrder(at) by { EmptyOrder(at); }
      forall x | x in all ensures q(x) != 0 && (Before(cmp, nearest, x) ==> q(x) < 0) {
        BeforeTotal(cmp, nearest, x);
        if q(x) >= 0 {
          assert x == nearest || Before(cmp, x, nearest);
          LesserIsPositive(cmp, q, x, nearest);
        }
      }
    } else if nearest == 0 {
      ReprTest(index.cells, s, at);
      EmptyOrder(at);
    }
  }

  lemma EmptyOrder(t: Tree)
    ensures t.Leaf? ==> InOrder(t) == []
  {
  }

  lemma LesserIsPositive(cmp: Cmp, q: Probe, x: Addr, n: Addr)
    requires Fits(cmp, q) && q(n) > 0 && (x == n || Before(cmp, x, n))
    ensures q(x) > 0
  {
  }

  /** One step of the nearest-lesser search. */
  lemma NearestStep(cmp: Cmp, q: Probe, at: Tree, nearest: Addr)
    requires at.Node? && IsComparator(cmp) && Fits(cmp, q) && Sorted(cmp, InOrder(at))
    requires nearest != 0 ==> forall x :: x in InOrder(at) ==> Before(cmp, nearest, x)
    ensures Sorted(cmp, InOrder(at.left)) && Sorted(cmp, InOrder(at.right)) && at.addr in InOrder(at)
    ensures forall x :: x in InOrder(at) <==> x in InOrder(at.left) || x == at.addr || x in InOrder(at.right)
    ensures q(at.addr) < 0 ==> forall x :: x in InOrder(at.right) ==> q(x) < 0
    ensures forall x :: x in InOrder(at.left) ==> Before(cmp, x, at.addr)
    ensures forall x :: x in InOrder(at.right) ==> Before(cmp, at.addr, x)
    ensures nearest != 0 ==> forall x :: Before(cmp, x, nearest) || x == nearest ==> Before(cmp, x, at.addr)
  {
    hide Sorted;
    SortedSplit(cmp, InOrder(at.left), at.addr, InOrder(at.right));
    if nearest != 0 {
      forall x | Before(cmp, x, nearest) || x == nearest ensures Before(cmp, x, at.addr) {
        if x != nearest { BeforeTransitive(cmp, x, nearest, at.addr); }
      }
    }
  }

  // ----- height -----

  function Height(t: Tree): nat
  {
    if t.Leaf? then 0 else 1 + if Height(t.left) > Height(t.right) then Height(t.left) else Height(t.right)
  }

  function Size(t: Tree): nat { if t.Leaf? then 0 else Size(t.left) + 1 + Size(t.right) }

  lemma {:induction false} SizeIsCount(t: Tree)
    ensures Size(t) == |InOrder(t)|
  {
    if t.Node? {
      SizeIsCount(t.left);
      SizeIsCount(t.right);
    }
  }

  /** A red-black tree is at most twice as high as its black height, and holds at least
      2^blackheight - 1 nodes. */
  lemma {:induction false} HeightAndSize(t: Tree)
    requires RedBlack(t)
    ensures Height(t) <= 2 * BlackHeight(t) + (if IsRed(t) then 1 else 0)
    ensures Size(t) + 1 >= Pow2(BlackHeight(t))
  {
    if t.Node? {
      Parts(Left, t);
      HeightAndSize(t.left);
      HeightAndSize(t.right);
      hide RedBlack;
    }
  }

  const MAX_PATH: nat := 128

  /** Fewer than 2^64 nodes never need more than the 128 slots of the iterator's stack. */
  lemma PathFits(cmp: Cmp, t: Tree)
    requires ValidTree(cmp, t) && |InOrder(t)| < Pow2(64)
    ensures Height(t) <= MAX_PATH
  {
    hide Sorted;
    HeightAndSize(t);
    SizeIsCount(t);
    assert Pow2(65) == 2 * Pow2(64);
    if BlackHeight(t) > 64 {
      Pow2Monotone(65, BlackHeight(t));
    }
  }

  // ----- the iterator's stack -----

  /** One slot of the stack: the subtree at an equal node and how often it was passed. */
  datatype Frame = Frame(tree: Tree, pass: nat)

  ghost predicate Nodes(fs: seq<Frame>) { forall k :: 0 <= k < |fs| ==> fs[k].tree.Node? }

  /** What is still to come from the top slot, once its node is emitted at pass 1. */
  ghost function PendingTop(q: Probe, f: Frame): seq<Addr>
    requires f.tree.Node?
  {
    if f.pass == 0 then Equals(q, InOrder(f.tree))
    else if f.pass == 1 then Equals(q, InOrder(f.tree.right))
    else []
  }

  /** What is still to come from the slots under another: at pass 1 the walk is in the
      left subtree, so the node itself is outstanding as well. */
  ghost function PendingBelow(q: Probe, fs: seq<Frame>): seq<Addr>
    requires Nodes(fs)
  {
    if fs == [] then []
    else
      var f := fs[|fs| - 1];
      (if f.pass == 1 then [f.tree.addr] + Equals(q, InOrder(f.tree.right)) else [])
      + PendingBelow(q, fs[..|fs| - 1])
  }

  ghost function Pending(q: Probe, fs: seq<Frame>): seq<Addr>
    requires Nodes(fs)
  {
    if fs == [] then [] else PendingTop(q, fs[|fs| - 1]) + PendingBelow(q, fs[..|fs| - 1])
  }

  /** Work left; it falls with every step of the walk. */
  ghost function Cost(fs: seq<Frame>): nat
    requires Nodes(fs)
  {
    if fs == [] then 0
    else
      var f := fs[|fs| - 1];
      (if f.pass == 0 then 3 * Size(f.tree) else if f.pass == 1 then 3 * Size(f.tree.right) + 2 else 1)
      + Cost(fs[..|fs| - 1])
  }

  ghost predicate FrameOk(cmp: Cmp, q: Probe, f: Frame, room: int)
  {
    && f.tree.Node? && q(f.tree.addr) == 0 && f.pass <= 2
    && Sorted(cmp, InOrder(f.tree)) && Height(f.tree) <= room
  }

  /** Every slot holds an equal node, with room left for the slots it may need above it. */
  ghost predicate StackOk(cmp: Cmp, q: Probe, fs: seq<Frame>)
  {
    && Nodes(fs) && (forall k :: 0 <= k < |fs| ==> FrameOk(cmp, q, fs[k], MAX_PATH - k))
    && (forall k :: 0 <= k < |fs| - 1 ==> fs[k].pass > 0)
  }

  /** The stack after one round of the loop in compute_current_elem. */
  ghost function Advance(q: Probe, fs: seq<Frame>): seq<Frame>
    requires fs != [] && fs[|fs| - 1].tree.Node?
  {
    var f, below := fs[|fs| - 1], fs[..|fs| - 1];
    if f.pass >= 2 then below
    else
      var s := Descend(q, if f.pass == 0 then f.tree.left else f.tree.right);
      below + [Frame(f.tree, f.pass + 1)] + if s.Node? then [Frame(s, 0)] else []
  }

  /** The node the round emits, if any: the top slot standing at pass 1. */
  ghost function Emits(fs: seq<Frame>): seq<Addr>
    requires Nodes(fs)
  {
    if fs != [] && fs[|fs| - 1].pass == 1 then [fs[|fs| - 1].tree.addr] else []
  }

  lemma AdvanceOk(cmp: Cmp, q: Probe, fs: seq<Frame>)
    requires Fits(cmp, q) && StackOk(cmp, q, fs) && fs != []
    ensures StackOk(cmp, q, Advance(q, fs)) && |Advance(q, fs)| <= MAX_PATH
    ensures Pending(q, fs) == Emits(Advance(q, fs)) + Pending(q, Advance(q, fs))
    ensures Cost(Advance(q, fs)) < Cost(fs)
  {
    hide Fits, Sorted, InOrder, Equals, Height, Pending, Cost, Emits;
    var f, below := fs[|fs| - 1], fs[..|fs| - 1];
    assert FrameOk(cmp, q, f, MAX_PATH - (|fs| - 1));
    if f.pass >= 2 {
      PopPending(q, fs);
      PopCost(fs);
      assert forall k :: 0 <= k < |below| ==> below[k] == fs[k];
    } else {
      NoEqualBeyond(cmp, q, f.tree);
      var side := if f.pass == 0 then f.tree.left else f.tree.right;
      DescendComplete(cmp, q, side);
      var s := Descend(q, side);
      var base := below + [Frame(f.tree, f.pass + 1)];
      NodeHeights(f.tree);
      MovePending(q, fs, base, s);
      MoveCost(fs, base, s);
      PushOk(cmp, q, fs, base, if s.Node? then s else f.tree);
      assert base + [] == base;
    }
  }

  lemma NodeHeights(t: Tree)
    requires t.Node?
    ensures Height(t.left) < Height(t) && Height(t.right) < Height(t)
    ensures Size(t) == Size(t.left) + 1 + Size(t.right)
  {
  }

  lemma PopCost(fs: seq<Frame>)
    requires Nodes(fs) && fs != []
    ensures Cost(fs[..|fs| - 1]) < Cost(fs)
  {
    var f := fs[|fs| - 1];
    assert f.tree.Node?;
    NodeHeights(f.tree);
  }

  lemma MoveCost(fs: seq<Frame>, base: seq<Frame>, s: Tree)
    requires Nodes(fs) && fs != [] && fs[|fs| - 1].pass < 2
    requires base == fs[..|fs| - 1] + [Frame(fs[|fs| - 1].tree, fs[|fs| - 1].pass + 1)]
    requires var f := fs[|fs| - 1]; Size(s) <= Size(if f.pass == 0 then f.tree.left else f.tree.right)
    ensures Nodes(base) && Cost(base) < Cost(fs)
    ensures s.Node? ==> Nodes(base + [Frame(s, 0)]) && Cost(base + [Frame(s, 0)]) < Cost(fs)
  {
    var f := fs[|fs| - 1];
    NodeHeights(f.tree);
    hide Size;
    assert base[..|base| - 1] == fs[..|fs| - 1];
    var gs := base + [Frame(s, 0)];
    assert gs[..|gs| - 1] == base;
  }

  lemma MovePending(q: Probe, fs: seq<Frame>, base: seq<Frame>, s: Tree)
    requires Nodes(fs) && fs != [] && fs[|fs| - 1].pass < 2 && q(fs[|fs| - 1].tree.addr) == 0
    requires base == fs[..|fs| - 1] + [Frame(fs[|fs| - 1].tree, fs[|fs| - 1].pass + 1)]
    requires var f := fs[|fs| - 1];
      Equals(q, InOrder(s)) == Equals(q, InOrder(if f.pass == 0 then f.tree.left else f.tree.right))
    ensures Nodes(base) && (s.Leaf? ==> Pending(q, fs) == Emits(base) + Pending(q, base))
    ensures s.Node? ==> Nodes(base + [Frame(s, 0)])
    ensures s.Node? ==> Pending(q, fs) == Emits(base + [Frame(s, 0)]) + Pending(q, base + [Frame(s, 0)])
  {
    hide Equals, InOrder;
    if s.Node? {
      PushPending(q, fs, base, s);
    } else {
      StayPending(q, fs, base);
    }
  }

  /** The step into a subtree that holds an equal node. */
  lemma PushPending(q: Probe, fs: seq<Frame>, base: seq<Frame>, s: Tree)
    requires Nodes(fs) && fs != [] && fs[|fs| - 1].pass < 2 && q(fs[|fs| - 1].tree.addr) == 0 && s.Node?
    requires base == fs[..|fs| - 1] + [Frame(fs[|fs| - 1].tree, fs[|fs| - 1].pass + 1)]
    requires var f := fs[|fs| - 1];
      Equals(q, InOrder(s)) == Equals(q, InOrder(if f.pass == 0 then f.tree.left else f.tree.right))
    ensures Nodes(base) && Nodes(base + [Frame(s, 0)])
    ensures Pending(q, fs) == Emits(base + [Frame(s, 0)]) + Pending(q, base + [Frame(s, 0)])
  {
    hide Equals, InOrder;
    var f, gs := fs[|fs| - 1], base + [Frame(s, 0)];
    EqualsNode(q, f.tree);
    assert base[..|base| - 1] == fs[..|fs| - 1] && gs[..|gs| - 1] == base;
    var below := PendingBelow(q, fs[..|fs| - 1]);
    var e, r := Equals(q, InOrder(s)), Equals(q, InOrder(f.tree.right));
    assert e + [f.tree.addr] + r + below == e + ([f.tree.addr] + r + below);
  }

  /** The step past a subtree without one. */
  lemma StayPending(q: Probe, fs: seq<Frame>, base: seq<Frame>)
    requires Nodes(fs) && fs != [] && fs[|fs| - 1].pass < 2 && q(fs[|fs| - 1].tree.addr) == 0
    requires base == fs[..|fs| - 1] + [Frame(fs[|fs| - 1].tree, fs[|fs| - 1].pass + 1)]
    requires var f := fs[|fs| - 1];
      Equals(q, InOrder(Leaf)) == Equals(q, InOrder(if f.pass == 0 then f.tree.left else f.tree.right))
    ensures Nodes(base) && Pending(q, fs) == Emits(base) + Pending(q, base)
  {
    hide Equals, InOrder;
    var f := fs[|fs| - 1];
    EqualsNode(q, f.tree);
    NoEquals(q);
    assert base[..|base| - 1] == fs[..|fs| - 1];
    var below, r := PendingBelow(q, fs[..|fs| - 1]), Equals(q, InOrder(f.tree.right));
    assert [] + [f.tree.addr] + r + below == [f.tree.addr] + (r + below);
  }

  lemma NoEquals(q: Probe)
    ensures Equals(q, InOrder(Leaf)) == []
  {
  }

  lemma PopPending(q: Probe, fs: seq<Frame>)
    requires fs != [] && (forall k :: 0 <= k < |fs| ==> fs[k].tree.Node? && fs[k].pass <= 2)
    requires fs[|fs| - 1].pass == 2 && (forall k :: 0 <= k < |fs| - 1 ==> fs[k].pass > 0)
    ensures var below := fs[..|fs| - 1]; Pending(q, fs) == Emits(below) + Pending(q, below)
  {
    hide Equals, InOrder;
    var below := fs[..|fs| - 1];
    if below != [] {
      var g := below[|below| - 1];
      assert g == fs[|fs| - 2];
      var rest := PendingBelow(q, below[..|below| - 1]);
      assert g.pass == 1 ==> [g.tree.addr] + Equals(q, InOrder(g.tree.right)) + rest
                             == [g.tree.addr] + (Equals(q, InOrder(g.tree.right)) + rest);
    }
  }

  /** The stack invariant after the top slot has moved on, with or without a new slot. */
  lemma PushOk(cmp: Cmp, q: Probe, fs: seq<Frame>, base: seq<Frame>, s: Tree)
    requires StackOk(cmp, q, fs) && fs != [] && fs[|fs| - 1].pass < 2
    requires base == fs[..|fs| - 1] + [Frame(fs[|fs| - 1].tree, fs[|fs| - 1].pass + 1)]
    requires s.Node? && q(s.addr) == 0 && Sorted(cmp, InOrder(s))
    requires s == fs[|fs| - 1].tree || Height(s) < Height(fs[|fs| - 1].tree)
    ensures StackOk(cmp, q, base) && |base| <= MAX_PATH
    ensures s != fs[|fs| - 1].tree ==> StackOk(cmp, q, base + [Frame(s, 0)]) && |base| < MAX_PATH
  {
    hide Sorted, InOrder;
    var f := fs[|fs| - 1];
    assert FrameOk(cmp, q, f, MAX_PATH - (|fs| - 1));
    assert Height(f.tree) >= 1;
    forall k | 0 <= k < |base| ensures FrameOk(cmp, q, base[k], MAX_PATH - k) {
      if k < |base| - 1 { assert base[k] == fs[k]; }
    }
    assert forall k :: 0 <= k < |base| - 1 ==> base[k] == fs[k];
    if s != f.tree {
      assert Height(s) >= 1;
      var gs := base + [Frame(s, 0)];
      forall k | 0 <= k < |gs| ensures FrameOk(cmp, q, gs[k], MAX_PATH - k) {
        if k < |base| { assert gs[k] == base[k]; }
      }
    }
  }

  /** struct sglib_StorageItem_iterator, in in-order mode. */
  class EqualRange {
    var current: Addr
    const pass: array<nat>
    const path: array<Addr>
    var pathi: nat
    const equalTo: Probe
    ghost var frames: seq<Frame>

    /** The arrays hold the stack, over an index that is not changed meanwhile. */
    ghost predicate Stack(h: Heap, cmp: Cmp)
      reads this, pass, path
    {
      && pass.Length == path.Length == MAX_PATH && pass != path && pathi == |frames| <= MAX_PATH
      && Nodes(frames) && Fits(cmp, equalTo) && StackOk(cmp, equalTo, frames)
      && (forall k :: 0 <= k < pathi ==> pass[k] == frames[k].pass && Repr(h, path[k], frames[k].tree))
    }

    /** The nodes still to come. */
    ghost function Rest(): seq<Addr>
      requires Nodes(frames)
      reads this
    {
      Pending(equalTo, frames)
    }

    /** sglib_StorageItem_it_init_on_equal; with a key every item equals, it_init_inorder. */
    constructor (index: Index, key: Probe)
      requires index.Valid() && Fits(index.cmp, key) && |InOrder(index.shape)| < Pow2(64)
      ensures Stack(index.cells, index.cmp) && fresh(pass) && fresh(path) && equalTo == key
      ensures Equals(key, InOrder(index.shape)) == if current == 0 then [] else [current] + Rest()
      ensures current == 0 ==> Rest() == []
    {
      hide Repr, Sorted, RedBlack, IsComparator, Fits, Pow2, Equals, Height, StackOk, Pending, Nodes, InOrder, Descend;
      pass, path := new nat[MAX_PATH], new Addr[MAX_PATH];
      current, pathi, equalTo, frames := 0, 0, key, [];
      new;
      ghost var tr := index.shape;
      PathFits(index.cmp, tr);
      DescendComplete(index.cmp, key, tr);
      EmptyPending(key);
      var t := Search(index.cells, key, index.root, tr);
      ghost var d := Descend(key, tr);
      ReprTest(index.cells, t, d);
      if t == 0 {
        NoEquals(key);
        EmptyStack(index.cmp, key);
      } else {
        pathi := 1;
        pass[0] := 0;
        path[0] := t;
        frames := [Frame(d, 0)];
        FirstFrame(index.cmp, key, d);
        ComputeCurrent(index.cells, index.cmp);
      }
    }

    /** sglib__StorageItem_it_compute_current_elem, which is also it_next */
    method ComputeCurrent(h: Heap, ghost cmp: Cmp)
      requires Stack(h, cmp)
      modifies this`current, this`pathi, this`frames, pass, path
      ensures Stack(h, cmp)
      ensures old(Rest()) == if current == 0 then [] else [current] + Rest()
      ensures current == 0 ==> Rest() == []
    {
      hide Repr, Fits, StackOk, Pending, Cost, Sorted, Height, Advance, Descend, InOrder, Equals;
      ghost var todo := Rest();
      current := 0;
      while pathi > 0 && current == 0
        invariant Stack(h, cmp)
        invariant todo == (if current == 0 then [] else [current]) + Rest()
        decreases Cost(frames), current == 0
      {
        FramesAreNodes(cmp, equalTo, frames);
        AdvanceOk(cmp, equalTo, frames);
        ghost var fs, gs := frames, Advance(equalTo, frames);
        Step(h, cmp);
        FramesAreNodes(cmp, equalTo, gs);
        if pathi > 0 && pass[pathi - 1] == 1 {
          current := path[pathi - 1];
          ReprTest(h, current, frames[pathi - 1].tree);
        }
      }
      if pathi == 0 { EmptyPending(equalTo); }
    }

    /** The body of that loop, up to the test for an element to report. */
    method Step(h: Heap, ghost cmp: Cmp)
      requires Stack(h, cmp) && frames != [] && frames[|frames| - 1].tree.Node?
      requires StackOk(cmp, equalTo, Advance(equalTo, frames)) && |Advance(equalTo, frames)| <= MAX_PATH
      modifies this`pathi, this`frames, pass, path
      ensures Stack(h, cmp) && frames == old(Advance(equalTo, frames))
    {
      hide Fits, StackOk, Descend;
      ghost var fs, gs := frames, Advance(equalTo, frames);
      var i := pathi - 1;
      ghost var t := fs[i].tree;
      if pass[i] >= 2 {
        pathi := pathi - 1;
      } else {
        ReprParts(h, Left, path[i], t);
        var s := if pass[i] == 0 then h[path[i]].left else h[path[i]].right;
        s := Search(h, equalTo, s, if pass[i] == 0 then t.left else t.right);
        ghost var d := Descend(equalTo, if fs[i].pass == 0 then t.left else t.right);
        ReprTest(h, s, d);
        if s != 0 {
          path[i + 1] := s;
          pass[i + 1] := 0;
          pathi := pathi + 1;
        }
        pass[i] := pass[i] + 1;
      }
      frames := gs;
    }
  }

  lemma EmptyStack(cmp: Cmp, q: Probe)
    ensures StackOk(cmp, q, []) && Nodes([])
  {
  }

  lemma FirstFrame(cmp: Cmp, q: Probe, d: Tree)
    requires d.Node? && q(d.addr) == 0 && Sorted(cmp, InOrder(d)) && Height(d) <= MAX_PATH
    ensures Nodes([Frame(d, 0)]) && StackOk(cmp, q, [Frame(d, 0)])
    ensures Pending(q, [Frame(d, 0)]) == Equals(q, InOrder(d))
  {
    hide Sorted, Height, Equals, InOrder;
    var fs := [Frame(d, 0)];
    assert fs[..0] == [];
    assert Pending(q, fs) == Equals(q, InOrder(d)) + [];
  }

  lemma FramesAreNodes(cmp: Cmp, q: Probe, fs: seq<Frame>)
    requires StackOk(cmp, q, fs)
    ensures Nodes(fs)
  {
  }

  lemma EmptyPending(q: Probe)
    ensures Pending(q, []) == []
  {
  }

  /** A complete walk: exactly the nodes equal to the key, each once, in tree order. */
  method Walk(index: Index, key: Probe) returns (out: seq<Addr>)
    requires index.Valid() && Fits(index.cmp, key) && |InOrder(index.shape)| < Pow2(64)
    ensures out == Equals(key, InOrder(index.shape))
  {
    hide Repr, RedBlack, IsComparator, Fits, Pow2, Equals, Pending, ValidTree;
    var it := new EqualRange(index, key);
    ghost var all := Equals(key, InOrder(index.shape));
    out := [];
    while it.current != 0
      invariant it.Stack(index.cells, index.cmp) && fresh(it) && fresh(it.pass) && fresh(it.path)
      invariant all == out + if it.current == 0 then [] else [it.current] + it.Rest()
      decreases |all| - |out|
    {
      out := out + [it.current];
      it.ComputeCurrent(index.cells, index.cmp);
    }
  }
}
