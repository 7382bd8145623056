/** The red-black index as tree.c keeps it: per-node links and colours updated in place,
    proved against the operations on shapes. */
module RbHeap {
  import opened Basics
  import opened RbTree
  import opened RbOps

  /** What a node stores for one index: color_field, left and right. Address 0 is NULL. */
  datatype Cell = Cell(color: Color, left: Addr, right: Addr)

  type Heap = map<Addr, Cell>

  function Kid(c: Cell, s: Side): Addr { if s == Left then c.left else c.right }

  function SetKid(c: Cell, s: Side, p: Addr): Cell
  {
    if s == Left then c.(left := p) else c.(right := p)
  }

  /** The links from p spell out the shape t. */
  ghost predicate Repr(h: Heap, p: Addr, t: Tree)
    decreases t
  {
    match t
    case Leaf => p == 0
    case Node(c, l, a, r) =>
      p == a && a != 0 && a in h && h[a].color == c && Repr(h, h[a].left, l) && Repr(h, h[a].right, r)
  }

  /** Two heaps that differ at most on the given nodes. */
  ghost predicate SameBut(h: Heap, h': Heap, changed: set<Addr>)
  {
    h'.Keys == h.Keys && forall x :: x in h && x !in changed ==> h'[x] == h[x]
  }

  ghost function Addrs(t: Tree): set<Addr> { set x | x in InOrder(t) }

  lemma {:induction false} ReprFrame(h: Heap, h': Heap, p: Addr, t: Tree, changed: set<Addr>)
    requires Repr(h, p, t) && SameBut(h, h', changed) && Addrs(t) !! changed
    ensures Repr(h', p, t)
    decreases t
  {
    if t.Node? {
      assert t.addr in InOrder(t);
      assert Addrs(t.left) !! changed && Addrs(t.right) !! changed by { AddrParts(t); }
      ReprFrame(h, h', h[t.addr].left, t.left, changed);
      ReprFrame(h, h', h[t.addr].right, t.right, changed);
    }
  }

  lemma AddrParts(t: Tree)
    requires t.Node?
    ensures Addrs(t) == Addrs(t.left) + {t.addr} + Addrs(t.right)
  {
  }

  /** Taking apart and putting together a represented node. */
  lemma ReprParts(h: Heap, s: Side, p: Addr, t: Tree)
    requires Repr(h, p, t) && t.Node?
    ensures p == t.addr && p != 0 && p in h && h[p].color == t.color
    ensures Repr(h, Kid(h[p], s), Near(s, t)) && Repr(h, Kid(h[p], Other(s)), Far(s, t))
  {
  }

  lemma ReprMk(h: Heap, s: Side, c: Color, near: Tree, a: Addr, far: Tree)
    requires a != 0 && a in h && h[a].color == c
    requires Repr(h, Kid(h[a], s), near) && Repr(h, Kid(h[a], Other(s)), far)
    ensures Repr(h, a, Mk(s, c, near, a, far))
  {
  }

  lemma ReprTest(h: Heap, p: Addr, t: Tree)
    requires Repr(h, p, t)
    ensures p == 0 <==> t.Leaf?
    ensures p != 0 ==> p in h && p == t.addr && (h[p].color == Red <==> IsRed(t))
  {
  }

  lemma DistinctParts(s: Side, t: Tree)
    requires t.Node? && Distinct(InOrder(t))
    ensures Distinct(InOrder(Near(s, t))) && Distinct(InOrder(Far(s, t)))
    ensures t.addr !in Addrs(Near(s, t)) && t.addr !in Addrs(Far(s, t)) && Addrs(Near(s, t)) !! Addrs(Far(s, t))
    ensures Addrs(t) == Addrs(Near(s, t)) + {t.addr} + Addrs(Far(s, t))
  {
    var l, r := InOrder(t.left), InOrder(t.right);
    var all := l + [t.addr] + r;
    forall k | 0 <= k < |l| ensures l[k] != t.addr && l[k] == all[k] { assert all[k] == l[k] && all[|l|] == t.addr; }
    forall k | 0 <= k < |r| ensures r[k] != t.addr && r[k] == all[|l| + 1 + k] {
      assert all[|l| + 1 + k] == r[k] && all[|l|] == t.addr;
    }
    forall i, j | 0 <= i < |l| && 0 <= j < |r| ensures l[i] != r[j] {
      assert all[i] == l[i] && all[|l| + 1 + j] == r[j];
    }
    forall i, j | 0 <= i < j < |l| ensures l[i] != l[j] { assert all[i] == l[i] && all[j] == l[j]; }
    forall i, j | 0 <= i < j < |r| ensures r[i] != r[j] {
      assert all[|l| + 1 + i] == r[i] && all[|l| + 1 + j] == r[j];
    }
  }

  /** A node stays represented when only its colour changes. */
  lemma Recoloured(h: Heap, p: Addr, t: Tree, c: Color)
    requires Repr(h, p, t) && t.Node? && Distinct(InOrder(t))
    ensures Repr(h[p := h[p].(color := c)], p, t.(color := c))
  {
    hide InOrder, Distinct;
    var h' := h[p := h[p].(color := c)];
    DistinctParts(Left, t);
    ReprParts(h, Left, p, t);
    ReprFrame(h, h', h[p].left, t.left, {p});
    ReprFrame(h, h', h[p].right, t.right, {p});
  }

  class Index {
    var cells: Heap
    var root: Addr
    const cmp: Cmp
    ghost var shape: Tree

    constructor (cmp: Cmp)
      requires IsComparator(cmp)
      ensures Valid() && shape == Leaf && this.cmp == cmp && cells == map[]
    {
      this.cmp := cmp;
      cells, root, shape := map[], 0, Leaf;
    }

    ghost predicate Valid()
      reads this
    {
      IsComparator(cmp) && Repr(cells, root, shape) && ValidTree(cmp, shape)
    }

    /** The two insertion fixers, by side. */
    method FixInsertionAt(s: Side, t: Addr, ghost tr: Tree) returns (r: Addr)
      requires Repr(cells, t, tr) && tr.Node? && Near(s, tr).Node? && Distinct(InOrder(tr))
      modifies this`cells
      ensures Repr(cells, r, FixInsertion(s, tr))
      ensures SameBut(old(cells), cells, Addrs(tr))
    {
      hide Repr, Distinct, InOrder, Addrs;
      ghost var h := cells;
      var m := cells;
      ghost var bt, ft := Near(s, tr), Far(s, tr);
      DistinctParts(s, tr);
      DistinctParts(s, bt);
      ReprParts(h, s, t, tr);
      r := t;
      var b, far := Kid(cells[t], s), Kid(cells[t], Other(s));
      ReprParts(h, s, b, bt);
      ReprTest(h, far, ft);
      var bn, bf := Kid(cells[b], s), Kid(cells[b], Other(s));
      ReprTest(h, bn, Near(s, bt));
      ReprTest(h, bf, Far(s, bt));
      if far != 0 && cells[far].color == Red {
        if cells[b].color == Red {
          if (bn != 0 && cells[bn].color == Red) || (bf != 0 && cells[bf].color == Red) {
            m := m[b := m[b].(color := Black)];
            m := m[far := m[far].(color := Black)];
            m := m[t := m[t].(color := Red)];
            DistinctParts(s, ft);
            ReprParts(h, s, far, ft);
            cells := m;
            FlipColours(h, m, s, tr);
          }
        }
      } else if cells[b].color == Red {
        if bn != 0 && cells[bn].color == Red {
          m := m[t := SetKid(m[t], s, bf)];
          m := m[b := SetKid(m[b], s, bn)];
          m := m[b := SetKid(m[b], Other(s), t)];
          m := m[t := m[t].(color := Red)];
          m := m[b := m[b].(color := Black)];
          r := b;
          cells := m;
          SingleRotation(h, m, s, tr, Red, Black, bt.color);
        } else if bf != 0 && cells[bf].color == Red {
          var c := bf;
          ghost var ct := Far(s, bt);
          DistinctParts(s, ct);
          ReprParts(h, s, c, ct);
          var cn, cf := Kid(cells[c], s), Kid(cells[c], Other(s));
          m := m[b := SetKid(m[b], Other(s), cn)];
          m := m[t := SetKid(m[t], s, cf)];
          m := m[c := SetKid(m[c], s, b)];
          m := m[c := SetKid(m[c], Other(s), t)];
          m := m[c := m[c].(color := Black)];
          m := m[t := m[t].(color := Red)];
          r := c;
          cells := m;
          DoubleRotation(h, m, s, tr);
        }
      }
    }

    /** The two deletion fixers, by side. The C asserts appear at the same places; the
        branches for a missing sibling and a missing nephew are shown not to be taken. */
    method FixDeletionAt(s: Side, t: Addr, ghost tr: Tree) returns (r: Addr, short: bool)
      requires Short(s, tr) && Repr(cells, t, tr) && Distinct(InOrder(tr))
      modifies this`cells
      ensures Repr(cells, r, FixDeletion(s, tr).0) && short == FixDeletion(s, tr).1
      ensures SameBut(old(cells), cells, Addrs(tr))
    {
      hide Repr, Distinct, InOrder, Addrs, RedBlack, BlackHeight, FixDeletion;
      ghost var h := cells;
      var m := cells;
      SiblingExists(s, tr);
      NephewExists(s, tr);
      ghost var bt := Far(s, tr);
      DistinctParts(s, tr);
      DistinctParts(s, bt);
      ReprParts(h, s, t, tr);
      var b := Kid(cells[t], Other(s));
      ReprParts(h, s, b, bt);
      assert b != 0;
      var bl, br := Kid(cells[b], Other(s)), Kid(cells[b], s);
      ReprTest(h, bl, Far(s, bt));
      ReprTest(h, br, Near(s, bt));
      short := false;
      if cells[b].color == Red {
        assert br != 0 && cells[br].color == Black;
        r := FixRedSibling(s, t, b, tr);
      } else if (bl == 0 || cells[bl].color == Black) && (br == 0 || cells[br].color == Black) {
        short := cells[t].color == Black;
        m := m[t := m[t].(color := Black)];
        m := m[b := m[b].(color := Red)];
        r := t;
        cells := m;
        SiblingReddened(h, m, s, tr);
      } else if br == 0 || cells[br].color == Black {
        DistinctParts(s, Far(s, bt));
        r := b;
        m := m[b := m[b].(color := m[t].color)];
        m := m[t := m[t].(color := Black)];
        m := m[b := SetKid(m[b], s, t)];
        m := m[t := SetKid(m[t], Other(s), br)];
        m := m[bl := m[bl].(color := Black)];
        cells := m;
        FarNephewRed(h, m, s, tr);
      } else {
        assert cells[br].color == Red;
        var c := br;
        ghost var ct := Near(s, bt);
        DistinctParts(s, ct);
        ReprParts(h, s, c, ct);
        var cl, cr := Kid(cells[c], Other(s)), Kid(cells[c], s);
        r := c;
        m := m[c := m[c].(color := m[t].color)];
        m := m[t := m[t].(color := Black)];
        m := m[c := SetKid(m[c], Other(s), b)];
        m := m[c := SetKid(m[c], s, t)];
        m := m[b := SetKid(m[b], s, cl)];
        m := m[t := SetKid(m[t], Other(s), cr)];
        cells := m;
        NearNephewRed(h, m, s, tr);
      }
    }

    /** The branches for a red sibling b. */
    method FixRedSibling(s: Side, t: Addr, b: Addr, ghost tr: Tree) returns (r: Addr)
      requires Short(s, tr) && IsRed(Far(s, tr)) && Repr(cells, t, tr) && Distinct(InOrder(tr))
      requires t in cells && b == Kid(cells[t], Other(s))
      modifies this`cells
      ensures Repr(cells, r, FixDeletion(s, tr).0) && !FixDeletion(s, tr).1
      ensures SameBut(old(cells), cells, Addrs(tr))
    {
      hide Repr, Distinct, InOrder, Addrs, RedBlack, BlackHeight, FixDeletion;
      ghost var h := cells;
      var m := cells;
      NephewExists(s, tr);
      ghost var bt, ct := Far(s, tr), Near(s, Far(s, tr));
      DistinctParts(s, tr);
      DistinctParts(s, bt);
      DistinctParts(s, ct);
      ReprParts(h, s, t, tr);
      ReprParts(h, s, b, bt);
      var bl, c := Kid(cells[b], Other(s)), Kid(cells[b], s);
      ReprParts(h, s, c, ct);
      var cl, cr := Kid(cells[c], Other(s)), Kid(cells[c], s);
      ReprTest(h, cl, Far(s, ct));
      ReprTest(h, cr, Near(s, ct));
      if (cl == 0 || cells[cl].color == Black) && (cr == 0 || cells[cr].color == Black) {
        r := b;
        m := m[b := SetKid(m[b], s, t)];
        m := m[b := m[b].(color := Black)];
        m := m[t := SetKid(m[t], Other(s), c)];
        m := m[c := m[c].(color := Red)];
        cells := m;
        RedSiblingPlain(h, m, s, tr);
      } else if cr == 0 || cells[cr].color == Black {
        assert cells[cl].color == Red;
        DistinctParts(s, Far(s, ct));
        r := c;
        m := m[c := SetKid(m[c], Other(s), b)];
        m := m[c := SetKid(m[c], s, t)];
        m := m[b := SetKid(m[b], Other(s), bl)];
        m := m[b := SetKid(m[b], s, cl)];
        m := m[t := SetKid(m[t], Other(s), cr)];
        m := m[cl := m[cl].(color := Black)];
        cells := m;
        RedSiblingFar(h, m, s, tr);
      } else {
        var d := cr;
        ghost var dt := Near(s, ct);
        DistinctParts(s, dt);
        ReprParts(h, s, d, dt);
        var dl, dr := Kid(cells[d], Other(s)), Kid(cells[d], s);
        r := d;
        m := m[d := m[d].(color := Black)];
        m := m[d := SetKid(m[d], Other(s), b)];
        m := m[c := SetKid(m[c], s, dl)];
        m := m[d := SetKid(m[d], s, t)];
        m := m[t := SetKid(m[t], Other(s), dr)];
        cells := m;
        RedSiblingNear(h, m, s, tr);
      }
    }

    /** sglib___StorageItem_add_recursive */
    method AddRecursive(t: Addr, e: Addr, ghost tr: Tree) returns (r: Addr)
      requires IsComparator(cmp) && Sorted(cmp, InOrder(tr)) && e !in InOrder(tr)
      requires Repr(cells, t, tr) && e != 0 && e in cells && cells[e].left == 0 == cells[e].right
      modifies this`cells
      ensures Repr(cells, r, AddRec(cmp, tr, e))
      ensures SameBut(old(cells), cells, Addrs(tr) + {e})
      decreases tr
    {
      hide Repr, Distinct, InOrder, Addrs, IsComparator, Sorted, FixInsertion, Before;
      ghost var h := cells;
      ReprTest(h, t, tr);
      if t == 0 {
        cells := cells[e := cells[e].(color := Red)];
        SingleNode(cells, e);
        return e;
      }
      var s := if Before(cmp, e, t) then Left else Right;
      ReprParts(h, s, t, tr);
      AddStep(cmp, tr, e);
      var kid := AddRecursive(Kid(cells[t], s), e, Near(s, tr));
      ghost var near := AddRec(cmp, Near(s, tr), e);
      ghost var tr' := Mk(s, tr.color, near, t, Far(s, tr));
      ghost var h1 := cells;
      cells := cells[t := SetKid(cells[t], s, kid)];
      ReplaceKid(h, h1, s, tr, near, e);
      assert Repr(cells, t, tr') && SameBut(h, cells, Addrs(tr) + {e});
      r := t;
      if cells[t].color == Black {
        r := FixInsertionAt(s, t, tr');
        assert SameBut(h, cells, Addrs(tr) + {e});
      }
    }

    /** sglib_StorageItem_add */
    method Add(e: Addr)
      requires Valid() && e != 0 && e !in InOrder(shape)
      modifies this
      ensures Valid() && shape == RbOps.Add(cmp, old(shape), e)
      ensures InOrder(shape) == SortedInsert(cmp, old(InOrder(shape)), e)
      ensures cells.Keys == old(cells.Keys) + {e}
    {
      hide Repr, InOrder, Addrs, IsComparator, Sorted, Before, RedBlack, AddRec;
      ghost var h0, tr := cells, shape;
      var color := if e in cells then cells[e].color else Black;
      cells := cells[e := Cell(color, 0, 0)];
      ReprExtend(h0, cells, root, tr, e);
      root := AddRecursive(root, e, tr);
      ghost var tr' := AddRec(cmp, tr, e);
      AddValid(cmp, tr, e);
      AddRecDistinct(cmp, tr, e);
      Recoloured(cells, root, tr', Black);
      ReprTest(cells, root, tr');
      cells := cells[root := cells[root].(color := Black)];
      shape := RbOps.Add(cmp, tr, e);
    }

    /** sglib___StorageItem_delete_rightmost_leaf */
    method DeleteRightmostLeaf(t: Addr, ghost tr: Tree) returns (r: Addr, leaf: Addr, short: bool)
      requires tr.Node? && RedBlack(tr) && Repr(cells, t, tr) && Distinct(InOrder(tr))
      modifies this`cells
      ensures var cut := DeleteRightmost(tr); Repr(cells, r, cut.tree) && leaf == cut.leaf && short == cut.short
      ensures SameBut(old(cells), cells, Addrs(tr)) && leaf in Addrs(tr) && leaf != 0 && leaf in cells
      decreases tr
    {
      hide Repr, Distinct, InOrder, Addrs, RedBlack, BlackHeight, FixDeletion;
      ghost var h := cells;
      DistinctParts(Right, tr);
      ReprParts(h, Right, t, tr);
      ReprTest(h, cells[t].left, tr.left);
      ReprTest(h, cells[t].right, tr.right);
      short := false;
      if cells[t].right == 0 {
        leaf := t;
        var l := cells[t].left;
        if l != 0 {
          if cells[t].color == Black && cells[l].color == Black {
            short := true;
          }
          Recoloured(h, l, tr.left, Black);
          DistinctParts(Left, tr.left);
          cells := cells[l := cells[l].(color := Black)];
          r := l;
        } else {
          r := 0;
          short := cells[t].color == Black;
          ReprLeaf(cells);
        }
      } else {
        Parts(Right, tr);
        var kid;
        kid, leaf, short := DeleteRightmostLeaf(cells[t].right, tr.right);
        ghost var cut := DeleteRightmost(tr.right);
        Rebuild(Right, tr, cut.tree, cut.short);
        RightmostDistinct(tr);
        ghost var h1 := cells;
        cells := cells[t := cells[t].(right := kid)];
        ReplaceKid(h, h1, Right, tr, cut.tree, t);
        r := t;
        if short {
          r, short := FixDeletionAt(Right, t, Mk(Right, tr.color, cut.tree, t, tr.left));
        }
      }
    }

    /** sglib___StorageItem_delete_recursive. The element is in the tree, so the search
        never falls off it and ends at the element itself. */
    method DeleteRecursive(t: Addr, e: Addr, ghost tr: Tree) returns (r: Addr, short: bool)
      requires IsComparator(cmp) && Sorted(cmp, InOrder(tr)) && e in InOrder(tr)
      requires RedBlack(tr) && Repr(cells, t, tr)
      modifies this`cells
      ensures Repr(cells, r, DeleteRec(cmp, tr, e).0) && short == DeleteRec(cmp, tr, e).1
      ensures SameBut(old(cells), cells, Addrs(tr))
      decreases tr
    {
      hide Repr, Distinct, InOrder, Addrs, IsComparator, Sorted, FixDeletion, Before, RedBlack, BlackHeight, DeleteNode;
      ghost var h := cells;
      DeleteStep(cmp, tr, e);
      ReprParts(h, Left, t, tr);
      assert t != 0;
      if Before(cmp, e, t) || Before(cmp, t, e) {
        var s := if Before(cmp, e, t) then Left else Right;
        ReprParts(h, s, t, tr);
        Parts(s, tr);
        var kid;
        kid, short := DeleteRecursive(Kid(cells[t], s), e, Near(s, tr));
        ghost var near := DeleteRec(cmp, Near(s, tr), e).0;
        Rebuild(s, tr, near, short);
        ghost var h1 := cells;
        cells := cells[t := SetKid(cells[t], s, kid)];
        ReplaceKid(h, h1, s, tr, near, t);
        r := t;
        if short {
          r, short := FixDeletionAt(s, t, Mk(s, tr.color, near, t, Far(s, tr)));
        }
      } else {
        assert e == t;
        r, short := DeleteHere(t, tr);
      }
    }

    /** The last branch: t itself goes, and its rightmost left descendant replaces it. */
    method DeleteHere(t: Addr, ghost tr: Tree) returns (r: Addr, short: bool)
      requires tr.Node? && RedBlack(tr) && Repr(cells, t, tr) && Distinct(InOrder(tr))
      modifies this`cells
      ensures Repr(cells, r, DeleteNode(tr).0) && short == DeleteNode(tr).1
      ensures SameBut(old(cells), cells, Addrs(tr))
    {
      hide Repr, Distinct, InOrder, Addrs, RedBlack, BlackHeight, FixDeletion, DeleteRightmost;
      ghost var h := cells;
      DistinctParts(Left, tr);
      ReprParts(h, Left, t, tr);
      ReprTest(h, cells[t].left, tr.left);
      ReprTest(h, cells[t].right, tr.right);
      short := false;
      if cells[t].left == 0 {
        var rt := cells[t].right;
        if rt == 0 {
          r := 0;
          short := cells[t].color == Black;
          ReprLeaf(cells);
        } else {
          if cells[t].color == Black && cells[rt].color == Black {
            short := true;
          }
          Recoloured(h, rt, tr.right, Black);
          DistinctParts(Left, tr.right);
          cells := cells[rt := cells[rt].(color := Black)];
          r := rt;
        }
      } else {
        Parts(Left, tr);
        var kid, leaf;
        kid, leaf, short := DeleteRightmostLeaf(cells[t].left, tr.left);
        ghost var cut := DeleteRightmost(tr.left);
        ghost var named := tr.(addr := leaf);
        NamedRedBlack(tr, leaf);
        Rebuild(Left, named, cut.tree, cut.short);
        LeafTakesPlace(tr);
        ghost var h1 := cells;
        cells := cells[t := cells[t].(left := kid)];
        cells := cells[leaf := cells[leaf].(left := cells[t].left)];
        cells := cells[leaf := cells[leaf].(right := cells[t].right)];
        cells := cells[leaf := cells[leaf].(color := cells[t].color)];
        r := leaf;
        PlacedLeaf(h, h1, cells, tr, kid);
        if short {
          r, short := FixDeletionAt(Left, leaf, Mk(Left, tr.color, cut.tree, leaf, tr.right));
        }
      }
    }

    /** sglib_StorageItem_delete */
    method Delete(e: Addr)
      requires Valid() && e in InOrder(shape)
      modifies this
      ensures Valid() && shape == RbOps.Delete(cmp, old(shape), e)
      ensures InOrder(shape) == Without(old(InOrder(shape)), e)
      ensures cells.Keys == old(cells.Keys)
    {
      hide Repr, InOrder, Addrs, IsComparator, Sorted, Before, RedBlack, DeleteRec;
      ghost var tr := shape;
      var short;
      root, short := DeleteRecursive(root, e, tr);
      ghost var tr' := DeleteRec(cmp, tr, e).0;
      DeleteValid(cmp, tr, e);
      ReprTest(cells, root, tr');
      if root != 0 {
        BlackenOrder(tr');
        SortedDistinct(cmp, InOrder(tr'));
        Recoloured(cells, root, tr', Black);
        cells := cells[root := cells[root].(color := Black)];
      }
      shape := RbOps.Delete(cmp, tr, e);
    }
  }

  /** Blackening both children and reddening the node. */
  lemma FlipColours(h: Heap, h': Heap, s: Side, tr: Tree)
    requires tr.Node? && Near(s, tr).Node? && Far(s, tr).Node? && Repr(h, tr.addr, tr) && Distinct(InOrder(tr))
    requires var (t, b, f) := (tr.addr, Near(s, tr).addr, Far(s, tr).addr);
      t in h && b in h && f in h && SameBut(h, h', {t, b, f}) &&
      h'[t] == h[t].(color := Red) && h'[b] == h[b].(color := Black) && h'[f] == h[f].(color := Black)
    ensures Repr(h', tr.addr, Mk(s, Red, Blacken(Near(s, tr)), tr.addr, Blacken(Far(s, tr))))
  {
    hide Repr, Distinct, InOrder, Addrs;
    var bt, ft := Near(s, tr), Far(s, tr);
    var t, b, f := tr.addr, bt.addr, ft.addr;
    DistinctParts(s, tr);
    DistinctParts(s, bt);
    DistinctParts(s, ft);
    ReprParts(h, s, t, tr);
    ReprParts(h, s, b, bt);
    ReprParts(h, s, f, ft);
    ReprFrame(h, h', Kid(h[b], s), Near(s, bt), {t, b, f});
    ReprFrame(h, h', Kid(h[b], Other(s)), Far(s, bt), {t, b, f});
    ReprFrame(h, h', Kid(h[f], s), Near(s, ft), {t, b, f});
    ReprFrame(h, h', Kid(h[f], Other(s)), Far(s, ft), {t, b, f});
    ReprMk(h', s, Black, Near(s, bt), b, Far(s, bt));
    ReprMk(h', s, Black, Near(s, ft), f, Far(s, ft));
    ReprMk(h', s, Red, Blacken(bt), t, Blacken(ft));
  }

  /** Lifting the near child b over t; b ends with colour cb and t with colour ct. */
  lemma SingleRotation(h: Heap, h': Heap, s: Side, tr: Tree, ct: Color, cb: Color, was: Color)
    requires tr.Node? && Near(s, tr).Node? && Near(s, tr).color == was
    requires Repr(h, tr.addr, tr) && Distinct(InOrder(tr))
    requires var (t, b) := (tr.addr, Near(s, tr).addr);
      t in h && b in h && SameBut(h, h', {t, b}) &&
      h'[t] == SetKid(h[t], s, Kid(h[b], Other(s))).(color := ct) &&
      h'[b] == SetKid(h[b], Other(s), t).(color := cb)
    ensures Repr(h', Near(s, tr).addr,
                 Mk(s, cb, Near(s, Near(s, tr)), Near(s, tr).addr, Mk(s, ct, Far(s, Near(s, tr)), tr.addr, Far(s, tr))))
  {
    hide Repr, Distinct, InOrder, Addrs;
    var bt, ft := Near(s, tr), Far(s, tr);
    var t, b := tr.addr, bt.addr;
    DistinctParts(s, tr);
    DistinctParts(s, bt);
    ReprParts(h, s, t, tr);
    ReprParts(h, s, b, bt);
    ReprFrame(h, h', Kid(h[b], s), Near(s, bt), {t, b});
    ReprFrame(h, h', Kid(h[b], Other(s)), Far(s, bt), {t, b});
    ReprFrame(h, h', Kid(h[t], Other(s)), ft, {t, b});
    ReprMk(h', s, ct, Far(s, bt), t, ft);
    ReprMk(h', s, cb, Near(s, bt), b, Mk(s, ct, Far(s, bt), t, ft));
  }

  /** Lifting the inner grandchild c over b and t. */
  lemma DoubleRotation(h: Heap, h': Heap, s: Side, tr: Tree)
    requires tr.Node? && Near(s, tr).Node? && Far(s, Near(s, tr)).Node?
    requires Repr(h, tr.addr, tr) && Distinct(InOrder(tr))
    requires var (t, b, c) := (tr.addr, Near(s, tr).addr, Far(s, Near(s, tr)).addr);
      t in h && b in h && c in h && SameBut(h, h', {t, b, c}) &&
      h'[b] == SetKid(h[b], Other(s), Kid(h[c], s)) &&
      h'[t] == SetKid(h[t], s, Kid(h[c], Other(s))).(color := Red) &&
      h'[c] == SetKid(SetKid(h[c], s, b), Other(s), t).(color := Black)
    ensures var (bt, ct) := (Near(s, tr), Far(s, Near(s, tr)));
      Repr(h', ct.addr, Mk(s, Black, Mk(s, bt.color, Near(s, bt), bt.addr, Near(s, ct)), ct.addr,
                           Mk(s, Red, Far(s, ct), tr.addr, Far(s, tr))))
  {
    hide Repr, Distinct, InOrder, Addrs;
    var bt, ct, ft := Near(s, tr), Far(s, Near(s, tr)), Far(s, tr);
    var t, b, c := tr.addr, bt.addr, ct.addr;
    DistinctParts(s, tr);
    DistinctParts(s, bt);
    DistinctParts(s, ct);
    ReprParts(h, s, t, tr);
    ReprParts(h, s, b, bt);
    ReprParts(h, s, c, ct);
    ReprFrame(h, h', Kid(h[b], s), Near(s, bt), {t, b, c});
    ReprFrame(h, h', Kid(h[c], s), Near(s, ct), {t, b, c});
    ReprFrame(h, h', Kid(h[c], Other(s)), Far(s, ct), {t, b, c});
    ReprFrame(h, h', Kid(h[t], Other(s)), ft, {t, b, c});
    ReprMk(h', s, bt.color, Near(s, bt), b, Near(s, ct));
    ReprMk(h', s, Red, Far(s, ct), t, ft);
    ReprMk(h', s, Black, Mk(s, bt.color, Near(s, bt), b, Near(s, ct)), c, Mk(s, Red, Far(s, ct), t, ft));
  }

  // ----- the six outcomes of the deletion repair, as heap changes -----

  lemma SiblingReddened(h: Heap, h': Heap, s: Side, tr: Tree)
    requires Short(s, tr) && Repr(h, tr.addr, tr) && Distinct(InOrder(tr)) && Far(s, tr).Node?
    requires Far(s, tr).color == Black && !IsRed(Far(s, Far(s, tr))) && !IsRed(Near(s, Far(s, tr)))
    requires var (t, b) := (tr.addr, Far(s, tr).addr);
      t in h && b in h && SameBut(h, h', {t, b}) &&
      h'[t] == h[t].(color := Black) && h'[b] == h[b].(color := Red)
    ensures Repr(h', tr.addr, FixDeletion(s, tr).0) && FixDeletion(s, tr).1 == (tr.color == Black)
  {
    hide Repr, Distinct, InOrder, Addrs, RedBlack, BlackHeight;
    var l, bt := Near(s, tr), Far(s, tr);
    var t, b := tr.addr, bt.addr;
    DistinctParts(s, tr);
    DistinctParts(s, bt);
    ReprParts(h, s, t, tr);
    ReprParts(h, s, b, bt);
    ReprFrame(h, h', Kid(h[t], s), l, {t, b});
    ReprFrame(h, h', Kid(h[b], s), Near(s, bt), {t, b});
    ReprFrame(h, h', Kid(h[b], Other(s)), Far(s, bt), {t, b});
    ReprMk(h', s, Red, Near(s, bt), b, Far(s, bt));
    ReprMk(h', s, Black, l, t, bt.(color := Red));
  }

  lemma FarNephewRed(h: Heap, h': Heap, s: Side, tr: Tree)
    requires Short(s, tr) && Repr(h, tr.addr, tr) && Distinct(InOrder(tr)) && Far(s, tr).Node?
    requires Far(s, tr).color == Black && IsRed(Far(s, Far(s, tr))) && !IsRed(Near(s, Far(s, tr)))
    requires var (t, b, bl) := (tr.addr, Far(s, tr).addr, Far(s, Far(s, tr)).addr);
      t in h && b in h && bl in h && SameBut(h, h', {t, b, bl}) &&
      h'[t] == SetKid(h[t], Other(s), Kid(h[b], s)).(color := Black) &&
      h'[b] == SetKid(h[b], s, t).(color := tr.color) && h'[bl] == h[bl].(color := Black)
    ensures Repr(h', Far(s, tr).addr, FixDeletion(s, tr).0) && !FixDeletion(s, tr).1
  {
    hide Repr, Distinct, InOrder, Addrs, RedBlack, BlackHeight;
    var l, bt, blt := Near(s, tr), Far(s, tr), Far(s, Far(s, tr));
    var t, b, bl := tr.addr, bt.addr, blt.addr;
    DistinctParts(s, tr);
    DistinctParts(s, bt);
    DistinctParts(s, blt);
    ReprParts(h, s, t, tr);
    ReprParts(h, s, b, bt);
    ReprParts(h, s, bl, blt);
    ReprFrame(h, h', Kid(h[t], s), l, {t, b, bl});
    ReprFrame(h, h', Kid(h[b], s), Near(s, bt), {t, b, bl});
    ReprFrame(h, h', Kid(h[bl], s), Near(s, blt), {t, b, bl});
    ReprFrame(h, h', Kid(h[bl], Other(s)), Far(s, blt), {t, b, bl});
    ReprMk(h', s, Black, Near(s, blt), bl, Far(s, blt));
    ReprMk(h', s, Black, l, t, Near(s, bt));
    ReprMk(h', s, tr.color, Mk(s, Black, l, t, Near(s, bt)), b, Blacken(blt));
  }

  lemma NearNephewRed(h: Heap, h': Heap, s: Side, tr: Tree)
    requires Short(s, tr) && Repr(h, tr.addr, tr) && Distinct(InOrder(tr)) && Far(s, tr).Node?
    requires Far(s, tr).color == Black && IsRed(Near(s, Far(s, tr)))
    requires var (t, b, c) := (tr.addr, Far(s, tr).addr, Near(s, Far(s, tr)).addr);
      t in h && b in h && c in h && SameBut(h, h', {t, b, c}) &&
      h'[t] == SetKid(h[t], Other(s), Kid(h[c], s)).(color := Black) &&
      h'[b] == SetKid(h[b], s, Kid(h[c], Other(s))) &&
      h'[c] == SetKid(SetKid(h[c], Other(s), b), s, t).(color := tr.color)
    ensures Repr(h', Near(s, Far(s, tr)).addr, FixDeletion(s, tr).0) && !FixDeletion(s, tr).1
  {
    hide Repr, Distinct, InOrder, Addrs, RedBlack, BlackHeight;
    var l, bt, ct := Near(s, tr), Far(s, tr), Near(s, Far(s, tr));
    var t, b, c := tr.addr, bt.addr, ct.addr;
    DistinctParts(s, tr);
    DistinctParts(s, bt);
    DistinctParts(s, ct);
    ReprParts(h, s, t, tr);
    ReprParts(h, s, b, bt);
    ReprParts(h, s, c, ct);
    ReprFrame(h, h', Kid(h[t], s), l, {t, b, c});
    ReprFrame(h, h', Kid(h[b], Other(s)), Far(s, bt), {t, b, c});
    ReprFrame(h, h', Kid(h[c], s), Near(s, ct), {t, b, c});
    ReprFrame(h, h', Kid(h[c], Other(s)), Far(s, ct), {t, b, c});
    ReprMk(h', s, Black, l, t, Near(s, ct));
    ReprMk(h', s, bt.color, Far(s, ct), b, Far(s, bt));
    ReprMk(h', s, tr.color, Mk(s, Black, l, t, Near(s, ct)), c, Mk(s, bt.color, Far(s, ct), b, Far(s, bt)));
  }

  lemma RedSiblingPlain(h: Heap, h': Heap, s: Side, tr: Tree)
    requires Short(s, tr) && Repr(h, tr.addr, tr) && Distinct(InOrder(tr)) && IsRed(Far(s, tr))
    requires var ct := Near(s, Far(s, tr)); ct.Node? && !IsRed(Near(s, ct)) && !IsRed(Far(s, ct))
    requires var (t, b, c) := (tr.addr, Far(s, tr).addr, Near(s, Far(s, tr)).addr);
      t in h && b in h && c in h && SameBut(h, h', {t, b, c}) &&
      h'[t] == SetKid(h[t], Other(s), c) && h'[b] == SetKid(h[b], s, t).(color := Black) &&
      h'[c] == h[c].(color := Red)
    ensures Repr(h', Far(s, tr).addr, FixDeletion(s, tr).0) && !FixDeletion(s, tr).1
  {
    hide Repr, Distinct, InOrder, Addrs, RedBlack, BlackHeight;
    var l, bt, ct := Near(s, tr), Far(s, tr), Near(s, Far(s, tr));
    var t, b, c := tr.addr, bt.addr, ct.addr;
    DistinctParts(s, tr);
    DistinctParts(s, bt);
    DistinctParts(s, ct);
    ReprParts(h, s, t, tr);
    ReprParts(h, s, b, bt);
    ReprParts(h, s, c, ct);
    ReprFrame(h, h', Kid(h[t], s), l, {t, b, c});
    ReprFrame(h, h', Kid(h[b], Other(s)), Far(s, bt), {t, b, c});
    ReprFrame(h, h', Kid(h[c], s), Near(s, ct), {t, b, c});
    ReprFrame(h, h', Kid(h[c], Other(s)), Far(s, ct), {t, b, c});
    ReprMk(h', s, Red, Near(s, ct), c, Far(s, ct));
    ReprMk(h', s, tr.color, l, t, ct.(color := Red));
    ReprMk(h', s, Black, Mk(s, tr.color, l, t, ct.(color := Red)), b, Far(s, bt));
  }

  lemma RedSiblingFar(h: Heap, h': Heap, s: Side, tr: Tree)
    requires Short(s, tr) && Repr(h, tr.addr, tr) && Distinct(InOrder(tr)) && IsRed(Far(s, tr))
    requires var ct := Near(s, Far(s, tr)); ct.Node? && !IsRed(Near(s, ct)) && IsRed(Far(s, ct))
    requires var (t, b, c) := (tr.addr, Far(s, tr).addr, Near(s, Far(s, tr)).addr);
      var cl := Far(s, Near(s, Far(s, tr))).addr;
      t in h && b in h && c in h && cl in h && SameBut(h, h', {t, b, c, cl}) &&
      h'[t] == SetKid(h[t], Other(s), Kid(h[c], s)) && h'[b] == SetKid(h[b], s, cl) &&
      h'[c] == SetKid(SetKid(h[c], Other(s), b), s, t) && h'[cl] == h[cl].(color := Black)
    ensures Repr(h', Near(s, Far(s, tr)).addr, FixDeletion(s, tr).0) && !FixDeletion(s, tr).1
  {
    hide Repr, Distinct, InOrder, Addrs, RedBlack, BlackHeight;
    var l, bt, ct := Near(s, tr), Far(s, tr), Near(s, Far(s, tr));
    var clt := Far(s, ct);
    var t, b, c, cl := tr.addr, bt.addr, ct.addr, clt.addr;
    DistinctParts(s, tr);
    DistinctParts(s, bt);
    DistinctParts(s, ct);
    DistinctParts(s, clt);
    ReprParts(h, s, t, tr);
    ReprParts(h, s, b, bt);
    ReprParts(h, s, c, ct);
    ReprParts(h, s, cl, clt);
    var changed := {t, b, c, cl};
    ReprFrame(h, h', Kid(h[t], s), l, changed);
    ReprFrame(h, h', Kid(h[b], Other(s)), Far(s, bt), changed);
    ReprFrame(h, h', Kid(h[c], s), Near(s, ct), changed);
    ReprFrame(h, h', Kid(h[cl], s), Near(s, clt), changed);
    ReprFrame(h, h', Kid(h[cl], Other(s)), Far(s, clt), changed);
    ReprMk(h', s, Black, Near(s, clt), cl, Far(s, clt));
    ReprMk(h', s, Red, Blacken(clt), b, Far(s, bt));
    ReprMk(h', s, tr.color, l, t, Near(s, ct));
    ReprMk(h', s, ct.color, Mk(s, tr.color, l, t, Near(s, ct)), c, Mk(s, Red, Blacken(clt), b, Far(s, bt)));
  }

  lemma RedSiblingNear(h: Heap, h': Heap, s: Side, tr: Tree)
    requires Short(s, tr) && Repr(h, tr.addr, tr) && Distinct(InOrder(tr)) && IsRed(Far(s, tr))
    requires var ct := Near(s, Far(s, tr)); ct.Node? && IsRed(Near(s, ct))
    requires var (t, b, c) := (tr.addr, Far(s, tr).addr, Near(s, Far(s, tr)).addr);
      var d := Near(s, Near(s, Far(s, tr))).addr;
      t in h && b in h && c in h && d in h && SameBut(h, h', {t, c, d}) &&
      h'[t] == SetKid(h[t], Other(s), Kid(h[d], s)) && h'[c] == SetKid(h[c], s, Kid(h[d], Other(s))) &&
      h'[d] == SetKid(SetKid(h[d], Other(s), b), s, t).(color := Black)
    ensures Repr(h', Near(s, Near(s, Far(s, tr))).addr, FixDeletion(s, tr).0) && !FixDeletion(s, tr).1
  {
    hide Repr, Distinct, InOrder, Addrs, RedBlack, BlackHeight;
    var l, bt, ct := Near(s, tr), Far(s, tr), Near(s, Far(s, tr));
    var dt := Near(s, ct);
    var t, b, c, d := tr.addr, bt.addr, ct.addr, dt.addr;
    DistinctParts(s, tr);
    DistinctParts(s, bt);
    DistinctParts(s, ct);
    DistinctParts(s, dt);
    ReprParts(h, s, t, tr);
    ReprParts(h, s, b, bt);
    ReprParts(h, s, c, ct);
    ReprParts(h, s, d, dt);
    var changed := {t, c, d};
    ReprFrame(h, h', Kid(h[t], s), l, changed);
    ReprFrame(h, h', Kid(h[b], Other(s)), Far(s, bt), changed);
    ReprFrame(h, h', Kid(h[c], Other(s)), Far(s, ct), changed);
    ReprFrame(h, h', Kid(h[d], s), Near(s, dt), changed);
    ReprFrame(h, h', Kid(h[d], Other(s)), Far(s, dt), changed);
    var c' := Mk(s, ct.color, Far(s, dt), c, Far(s, ct));
    ReprMk(h', s, ct.color, Far(s, dt), c, Far(s, ct));
    ReprMk(h', s, Red, c', b, Far(s, bt));
    ReprMk(h', s, tr.color, l, t, Near(s, dt));
    ReprMk(h', s, Black, Mk(s, tr.color, l, t, Near(s, dt)), d, Mk(s, Red, c', b, Far(s, bt)));
  }

  // ----- shapes through the recursive operations -----

  lemma SortedDistinct(cmp: Cmp, s: seq<Addr>)
    requires IsComparator(cmp) && Sorted(cmp, s)
    ensures Distinct(s)
  {
    forall i, j | 0 <= i < j < |s| ensures s[i] != s[j] {
      BeforeTotal(cmp, s[i], s[j]);
      assert Before(cmp, s[i], s[j]);
    }
  }

  lemma SingleNode(h: Heap, e: Addr)
    requires e != 0 && e in h && h[e] == Cell(Red, 0, 0)
    ensures Repr(h, e, Node(Red, Leaf, e, Leaf))
  {
  }

  lemma ReprLeaf(h: Heap)
    ensures Repr(h, 0, Leaf)
  {
  }

  lemma ReprExtend(h: Heap, h': Heap, p: Addr, t: Tree, e: Addr)
    requires Repr(h, p, t) && e !in InOrder(t) && (forall x :: x in h && x != e ==> x in h' && h'[x] == h[x])
    ensures Repr(h', p, t)
    decreases t
  {
    if t.Node? {
      assert t.addr in InOrder(t);
      ReprExtend(h, h', h[t.addr].left, t.left, e);
      ReprExtend(h, h', h[t.addr].right, t.right, e);
    }
  }

  /** Replacing the near child of t in a heap where only that child's nodes (and x) changed. */
  lemma ReplaceKid(h: Heap, h1: Heap, s: Side, tr: Tree, near: Tree, x: Addr)
    requires tr.Node? && Repr(h, tr.addr, tr) && Distinct(InOrder(tr)) && tr.addr in h1
    requires SameBut(h, h1, Addrs(Near(s, tr)) + {x}) && (x == tr.addr || x !in Addrs(tr))
    requires h1[tr.addr] == h[tr.addr]
    ensures forall p :: Repr(h1, p, near) && tr.addr !in Addrs(near) ==>
      Repr(h1[tr.addr := SetKid(h1[tr.addr], s, p)], tr.addr, Mk(s, tr.color, near, tr.addr, Far(s, tr)))
  {
    hide Repr, Distinct, InOrder, Addrs;
    DistinctParts(s, tr);
    ReprParts(h, s, tr.addr, tr);
    forall p | Repr(h1, p, near) && tr.addr !in Addrs(near)
      ensures Repr(h1[tr.addr := SetKid(h1[tr.addr], s, p)], tr.addr, Mk(s, tr.color, near, tr.addr, Far(s, tr)))
    {
      var h2 := h1[tr.addr := SetKid(h1[tr.addr], s, p)];
      ReprFrame(h1, h2, p, near, {tr.addr});
      ReprFrame(h, h2, Kid(h[tr.addr], Other(s)), Far(s, tr), Addrs(Near(s, tr)) + {x, tr.addr});
      ReprMk(h2, s, tr.color, near, tr.addr, Far(s, tr));
    }
  }

  lemma AddRecDistinct(cmp: Cmp, tr: Tree, e: Addr)
    requires IsComparator(cmp) && Sorted(cmp, InOrder(tr)) && e !in InOrder(tr)
    ensures Distinct(InOrder(tr)) && Distinct(InOrder(AddRec(cmp, tr, e)))
    ensures Addrs(AddRec(cmp, tr, e)) == Addrs(tr) + {e}
  {
    hide AddRec, InOrder, Sorted, IsComparator;
    SortedDistinct(cmp, InOrder(tr));
    AddRecOrder(cmp, tr, e);
    SortedInsertSorted(cmp, InOrder(tr), e);
    SortedDistinct(cmp, InOrder(AddRec(cmp, tr, e)));
    forall x ensures x in InOrder(AddRec(cmp, tr, e)) <==> x in InOrder(tr) || x == e {
      assert x in InOrder(AddRec(cmp, tr, e)) <==> x in multiset(InOrder(AddRec(cmp, tr, e)));
      assert x in InOrder(tr) <==> x in multiset(InOrder(tr));
    }
  }

  /** The facts one level of insertion needs. */
  lemma AddStep(cmp: Cmp, tr: Tree, e: Addr)
    requires tr.Node? && IsComparator(cmp) && Sorted(cmp, InOrder(tr)) && e !in InOrder(tr)
    ensures var s := if Before(cmp, e, tr.addr) then Left else Right;
      var near := AddRec(cmp, Near(s, tr), e);
      var tr' := Mk(s, tr.color, near, tr.addr, Far(s, tr));
      && Sorted(cmp, InOrder(Near(s, tr))) && e !in InOrder(Near(s, tr)) && e !in Addrs(tr) && e != tr.addr
      && Distinct(InOrder(tr)) && Distinct(InOrder(tr')) && Addrs(tr') == Addrs(tr) + {e}
      && tr.addr !in Addrs(near) && tr.addr !in Addrs(Near(s, tr)) && Addrs(Near(s, tr)) + {tr.addr} <= Addrs(tr)
      && AddRec(cmp, tr, e) == if tr.color == Black then FixInsertion(s, tr') else tr'
  {
    hide FixInsertion, IsComparator, Distinct;
    var s := if Before(cmp, e, tr.addr) then Left else Right;
    var near := AddRec(cmp, Near(s, tr), e);
    var tr' := Mk(s, tr.color, near, tr.addr, Far(s, tr));
    SortedSplit(cmp, InOrder(tr.left), tr.addr, InOrder(tr.right));
    AddRecDistinct(cmp, tr, e);
    AddRecDistinct(cmp, Near(s, tr), e);
    DistinctParts(s, tr);
    if tr.color == Black {
      FixInsertionOrder(s, tr');
    }
    assert InOrder(tr') == InOrder(AddRec(cmp, tr, e));
  }

  lemma RightmostDistinct(tr: Tree)
    requires tr.Node? && tr.right.Node? && RedBlack(tr) && RedBlack(tr.right) && Distinct(InOrder(tr))
    ensures var cut := DeleteRightmost(tr.right);
      var tr' := Mk(Right, tr.color, cut.tree, tr.addr, tr.left);
      && Distinct(InOrder(tr')) && Addrs(tr') <= Addrs(tr) && tr.addr !in Addrs(cut.tree)
  {
    hide DeleteRightmost, RedBlack;
    DeleteRightmostOrder(tr.right);
    var cut := DeleteRightmost(tr.right);
    var tr' := Mk(Right, tr.color, cut.tree, tr.addr, tr.left);
    var l, c := InOrder(tr.left), InOrder(cut.tree);
    assert InOrder(tr) == InOrder(tr') + [cut.leaf] by {
      assert l + [tr.addr] + (c + [cut.leaf]) == (l + [tr.addr] + c) + [cut.leaf];
    }
    DistinctPrefix(InOrder(tr'), [cut.leaf]);
    hide InOrder;
    DistinctParts(Right, tr');
  }

  lemma DistinctPrefix(a: seq<Addr>, b: seq<Addr>)
    requires Distinct(a + b)
    ensures Distinct(a)
  {
    forall i, j | 0 <= i < j < |a| ensures a[i] != a[j] {
      assert (a + b)[i] == a[i] && (a + b)[j] == a[j];
    }
  }

  lemma BlackenOrder(t: Tree)
    ensures InOrder(Blacken(t)) == InOrder(t)
  {
  }

  /** The facts one level of deletion needs. */
  lemma DeleteStep(cmp: Cmp, tr: Tree, e: Addr)
    requires IsComparator(cmp) && Sorted(cmp, InOrder(tr)) && e in InOrder(tr) && RedBlack(tr)
    ensures tr.Node? && Distinct(InOrder(tr)) && tr.addr in Addrs(tr)
    ensures !Before(cmp, e, tr.addr) && !Before(cmp, tr.addr, e) ==>
              e == tr.addr && DeleteRec(cmp, tr, e) == DeleteNode(tr)
    ensures Before(cmp, e, tr.addr) || Before(cmp, tr.addr, e) ==>
              var s := if Before(cmp, e, tr.addr) then Left else Right;
              SearchedSide(cmp, tr, e, s)
  {
    hide IsComparator, Before, RedBlack, Distinct, FixDeletion, DeleteNode;
    var a, b := InOrder(tr.left), InOrder(tr.right);
    SortedDistinct(cmp, InOrder(tr));
    SortedSplit(cmp, a, tr.addr, b);
    BeforeTotal(cmp, e, tr.addr);
    if Before(cmp, e, tr.addr) {
      NotAmong(cmp, b, tr.addr, e, false);
      SideFacts(cmp, tr, e, Left);
    } else if Before(cmp, tr.addr, e) {
      NotAmong(cmp, a, tr.addr, e, true);
      SideFacts(cmp, tr, e, Right);
    }
  }

  ghost predicate SearchedSide(cmp: Cmp, tr: Tree, e: Addr, s: Side)
    requires tr.Node?
  {
    && Sorted(cmp, InOrder(Near(s, tr))) && e in InOrder(Near(s, tr)) && RedBlack(Near(s, tr)) && Near(s, tr).Node?
    && var r := DeleteRec(cmp, Near(s, tr), e);
    && tr.addr !in Addrs(r.0) && tr.addr !in Addrs(Near(s, tr)) && Addrs(Near(s, tr)) <= Addrs(tr)
    && Distinct(InOrder(Mk(s, tr.color, r.0, tr.addr, Far(s, tr))))
    && Addrs(Mk(s, tr.color, r.0, tr.addr, Far(s, tr))) <= Addrs(tr)
  }

  lemma SideFacts(cmp: Cmp, tr: Tree, e: Addr, s: Side)
    requires tr.Node? && IsComparator(cmp) && RedBlack(tr) && Sorted(cmp, InOrder(tr))
    requires Sorted(cmp, InOrder(Near(s, tr))) && e in InOrder(Near(s, tr))
    ensures SearchedSide(cmp, tr, e, s)
  {
    SortedDistinct(cmp, InOrder(tr));
    Parts(s, tr);
    hide IsComparator, RedBlack, DeleteRec, Distinct;
    DeleteRecOrder(cmp, Near(s, tr), e);
    DistinctParts(s, tr);
    var near := DeleteRec(cmp, Near(s, tr), e).0;
    var tr' := Mk(s, tr.color, near, tr.addr, Far(s, tr));
    WithoutParts(InOrder(tr.left), tr.addr, InOrder(tr.right), e);
    assert s == Right ==> e !in InOrder(tr.left) && e != tr.addr by {
      assert e in Addrs(Near(s, tr));
    }
    assert InOrder(tr') == Without(InOrder(tr), e);
    WithoutSorted(cmp, InOrder(tr), e);
    SortedDistinct(cmp, InOrder(tr'));
    assert Addrs(tr') <= Addrs(tr) by {
      forall x | x in Addrs(tr') ensures x in Addrs(tr) {
        assert x in multiset(InOrder(tr'));
        assert x in multiset(InOrder(tr));
      }
    }
    DistinctParts(s, tr');
  }

  lemma NamedRedBlack(tr: Tree, leaf: Addr)
    requires tr.Node? && RedBlack(tr)
    ensures RedBlack(tr.(addr := leaf)) && BlackHeight(tr.(addr := leaf)) == BlackHeight(tr)
  {
  }

  /** Where the replacing leaf comes from. */
  lemma LeafTakesPlace(tr: Tree)
    requires tr.Node? && tr.left.Node? && RedBlack(tr) && RedBlack(tr.left) && Distinct(InOrder(tr))
    ensures var cut := DeleteRightmost(tr.left);
      var tr' := Mk(Left, tr.color, cut.tree, cut.leaf, tr.right);
      && Distinct(InOrder(tr')) && Addrs(tr') <= Addrs(tr)
      && cut.leaf !in Addrs(cut.tree) && cut.leaf !in Addrs(tr.right) && cut.leaf != tr.addr
      && tr.addr !in Addrs(cut.tree) && tr.addr !in Addrs(tr.right)
  {
    DeleteRightmostOrder(tr.left);
    hide DeleteRightmost, RedBlack, Distinct;
    var cut := DeleteRightmost(tr.left);
    var tr' := Mk(Left, tr.color, cut.tree, cut.leaf, tr.right);
    var c, r := InOrder(cut.tree), InOrder(tr.right);
    assert InOrder(tr') == InOrder(tr.left) + r;
    assert InOrder(tr) == InOrder(tr.left) + [tr.addr] + r;
    DistinctMiddle(InOrder(tr.left), tr.addr, r);
    DistinctParts(Left, tr);
    assert forall x :: x in c ==> x in InOrder(tr.left);
    assert cut.leaf in InOrder(tr.left);
    DistinctParts(Left, tr');
  }

  lemma DistinctMiddle(a: seq<Addr>, x: Addr, b: seq<Addr>)
    requires Distinct(a + [x] + b)
    ensures Distinct(a + b)
  {
    var s, r := a + [x] + b, a + b;
    forall i, j | 0 <= i < j < |r| ensures r[i] != r[j] {
      var i' := if i < |a| then i else i + 1;
      var j' := if j < |a| then j else j + 1;
      assert s[i'] == r[i] && s[j'] == r[j];
    }
  }

  lemma PlacedLeaf(h: Heap, h1: Heap, h2: Heap, tr: Tree, kid: Addr)
    requires tr.Node? && tr.left.Node? && RedBlack(tr) && RedBlack(tr.left) && Distinct(InOrder(tr))
    requires Repr(h, tr.addr, tr) && tr.addr in h && SameBut(h, h1, Addrs(tr.left))
    requires var cut := DeleteRightmost(tr.left);
      && Repr(h1, kid, cut.tree) && cut.leaf in h && cut.leaf != 0
      && SameBut(h1, h2, {tr.addr, cut.leaf}) && h2[cut.leaf] == Cell(tr.color, kid, h[tr.addr].right)
    ensures var cut := DeleteRightmost(tr.left);
      Repr(h2, cut.leaf, Mk(Left, tr.color, cut.tree, cut.leaf, tr.right))
  {
    hide Repr, Distinct, InOrder, Addrs, RedBlack, DeleteRightmost;
    LeafTakesPlace(tr);
    DistinctParts(Left, tr);
    ReprParts(h, Left, tr.addr, tr);
    var cut := DeleteRightmost(tr.left);
    ReprFrame(h1, h2, kid, cut.tree, {tr.addr, cut.leaf});
    ReprFrame(h, h1, h[tr.addr].right, tr.right, Addrs(tr.left));
    ReprFrame(h1, h2, h[tr.addr].right, tr.right, {tr.addr, cut.leaf});
    ReprMk(h2, Left, tr.color, cut.tree, cut.leaf, tr.right);
  }
}
