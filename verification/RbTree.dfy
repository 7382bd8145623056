/** Red-black trees of node addresses: the shapes tree.c builds, the two repair steps as
    functions on shapes, and what each of them keeps. The C source has every repair twice,
    once per side; here the side is a parameter. */
module RbTree {

  type Addr = nat

  datatype Color = Red | Black
  datatype Side = Left | Right
  datatype Tree = Leaf | Node(color: Color, left: Tree, addr: Addr, right: Tree)

  predicate IsRed(t: Tree) { t.Node? && t.color == Red }

  function Other(s: Side): Side { if s == Left then Right else Left }

  /** The child on side s, the child on the other side, and a node built from them. */
  function Near(s: Side, t: Tree): Tree
    requires t.Node?
  {
    if s == Left then t.left else t.right
  }

  function Far(s: Side, t: Tree): Tree
    requires t.Node?
  {
    if s == Left then t.right else t.left
  }

  function Mk(s: Side, c: Color, near: Tree, a: Addr, far: Tree): Tree
  {
    if s == Left then Node(c, near, a, far) else Node(c, far, a, near)
  }

  function Blacken(t: Tree): Tree
  {
    if t.Node? then t.(color := Black) else t
  }

  // ----- invariants -----

  function InOrder(t: Tree): seq<Addr>
  {
    if t.Leaf? then [] else InOrder(t.left) + [t.addr] + InOrder(t.right)
  }

  function BlackHeight(t: Tree): nat
  {
    if t.Leaf? then 0 else BlackHeight(t.left) + if t.color == Black then 1 else 0
  }

  predicate Balanced(t: Tree)
  {
    t.Node? ==> Balanced(t.left) && Balanced(t.right) && BlackHeight(t.left) == BlackHeight(t.right)
  }

  predicate NoRedRed(t: Tree)
  {
    t.Node? ==> NoRedRed(t.left) && NoRedRed(t.right)
                && (t.color == Red ==> !IsRed(t.left) && !IsRed(t.right))
  }

  /** A red-black tree, up to the colour of its root. */
  predicate RedBlack(t: Tree)
  {
    Balanced(t) && NoRedRed(t)
  }

  /** Red-black but for at most one red child of a red root. */
  predicate AlmostRedBlack(t: Tree)
  {
    && t.Node? && RedBlack(t.left) && RedBlack(t.right) && BlackHeight(t.left) == BlackHeight(t.right)
    && (t.color == Red ==> !IsRed(t.left) || !IsRed(t.right))
  }

  function Level(c: Color): nat { if c == Black then 1 else 0 }

  /** Taking a red-black node apart, and putting one together. */
  lemma Parts(s: Side, t: Tree)
    requires t.Node? && RedBlack(t)
    ensures RedBlack(Near(s, t)) && RedBlack(Far(s, t))
    ensures BlackHeight(Near(s, t)) == BlackHeight(Far(s, t)) == BlackHeight(t) - Level(t.color)
    ensures t.color == Red ==> !IsRed(Near(s, t)) && !IsRed(Far(s, t))
    ensures t == Mk(s, t.color, Near(s, t), t.addr, Far(s, t))
    ensures t.color == Red ==> !IsRed(Near(s, t)) || !IsRed(Far(s, t))
  {
  }

  lemma Build(s: Side, c: Color, near: Tree, a: Addr, far: Tree)
    requires RedBlack(near) && RedBlack(far) && BlackHeight(near) == BlackHeight(far)
    requires c == Red ==> !IsRed(near) && !IsRed(far)
    ensures RedBlack(Mk(s, c, near, a, far))
    ensures BlackHeight(Mk(s, c, near, a, far)) == BlackHeight(near) + Level(c)
  {
  }

  lemma BlackenParts(t: Tree)
    requires RedBlack(t)
    ensures RedBlack(Blacken(t)) && !IsRed(Blacken(t)) && InOrder(Blacken(t)) == InOrder(t)
    ensures BlackHeight(Blacken(t)) == BlackHeight(t) + (if IsRed(t) then 1 else 0)
  {
  }

  // ----- repair after an insertion on side s -----

  function FixInsertion(s: Side, t: Tree): Tree
    requires t.Node? && Near(s, t).Node?
  {
    var b := Near(s, t);
    if IsRed(Far(s, t)) then
      if IsRed(b) && (IsRed(Near(s, b)) || IsRed(Far(s, b)))
      then Mk(s, Red, Blacken(b), t.addr, Blacken(Far(s, t)))
      else t
    else if IsRed(b) && IsRed(Near(s, b)) then
      Mk(s, Black, Near(s, b), b.addr, Mk(s, Red, Far(s, b), t.addr, Far(s, t)))
    else if IsRed(b) && IsRed(Far(s, b)) then
      var c := Far(s, b);
      Mk(s, Black, Mk(s, b.color, Near(s, b), b.addr, Near(s, c)), c.addr, Mk(s, Red, Far(s, c), t.addr, Far(s, t)))
    else t
  }

  /** The repaired tree has no red-red edge left and keeps its black height. */
  lemma FixInsertionBalances(s: Side, t: Tree)
    requires t.Node? && t.color == Black
    requires AlmostRedBlack(Near(s, t)) && RedBlack(Far(s, t))
    requires BlackHeight(Near(s, t)) == BlackHeight(Far(s, t))
    ensures RedBlack(FixInsertion(s, t)) && BlackHeight(FixInsertion(s, t)) == BlackHeight(Far(s, t)) + 1
  {
    var b, far := Near(s, t), Far(s, t);
    AlmostParts(s, b);
    hide RedBlack, BlackHeight, AlmostRedBlack, InOrder;
    if IsRed(far) {
      if IsRed(b) && (IsRed(Near(s, b)) || IsRed(Far(s, b))) {
        BlackenParts(far);
        Build(s, Black, Near(s, b), b.addr, Far(s, b));
        Build(s, Red, Blacken(b), t.addr, Blacken(far));
      } else {
        Build(s, b.color, Near(s, b), b.addr, Far(s, b));
        Build(s, Black, b, t.addr, far);
      }
    } else if IsRed(b) && IsRed(Near(s, b)) {
      Parts(s, Near(s, b));
      Build(s, Red, Far(s, b), t.addr, far);
      Build(s, Black, Near(s, b), b.addr, Mk(s, Red, Far(s, b), t.addr, far));
    } else if IsRed(b) && IsRed(Far(s, b)) {
      var c := Far(s, b);
      Parts(s, c);
      Build(s, Red, Near(s, b), b.addr, Near(s, c));
      Build(s, Red, Far(s, c), t.addr, far);
      Build(s, Black, Mk(s, Red, Near(s, b), b.addr, Near(s, c)), c.addr, Mk(s, Red, Far(s, c), t.addr, far));
    } else {
      Build(s, b.color, Near(s, b), b.addr, Far(s, b));
      Build(s, Black, b, t.addr, far);
    }
  }

  lemma AlmostParts(s: Side, t: Tree)
    requires AlmostRedBlack(t)
    ensures RedBlack(Near(s, t)) && RedBlack(Far(s, t))
    ensures BlackHeight(Near(s, t)) == BlackHeight(Far(s, t)) == BlackHeight(t) - Level(t.color)
    ensures t == Mk(s, t.color, Near(s, t), t.addr, Far(s, t))
    ensures t.color == Red ==> !IsRed(Near(s, t)) || !IsRed(Far(s, t))
  {
  }

  lemma FixInsertionOrder(s: Side, t: Tree)
    requires t.Node? && Near(s, t).Node?
    ensures InOrder(FixInsertion(s, t)) == InOrder(t)
  {
    var b := Near(s, t);
    if IsRed(Far(s, t)) {
    } else if IsRed(b) && IsRed(Near(s, b)) {
      RotateOrder(s, Red, Near(s, b), b.addr, Far(s, b), t.addr, Far(s, t), t.color, b.color, Black);
    } else if IsRed(b) && IsRed(Far(s, b)) {
      var c := Far(s, b);
      DoubleRotateOrder(s, Near(s, b), b.addr, Near(s, c), c.addr, Far(s, c), t.addr, Far(s, t),
                        t.color, b.color, c.color, Black, b.color, Red);
    }
  }

  /** Both associations of two nodes around three subtrees have the same in-order sequence. */
  lemma RotateOrder(s: Side, c2: Color, x: Tree, b: Addr, y: Tree, a: Addr, z: Tree, ca: Color, cb: Color, c1: Color)
    ensures InOrder(Mk(s, c1, x, b, Mk(s, c2, y, a, z))) == InOrder(Mk(s, ca, Mk(s, cb, x, b, y), a, z))
  {
    var X, Y, Z := InOrder(x), InOrder(y), InOrder(z);
    if s == Left {
      assert X + [b] + (Y + [a] + Z) == (X + [b] + Y) + [a] + Z;
    } else {
      assert Z + [a] + (Y + [b] + X) == (Z + [a] + Y) + [b] + X;
    }
  }

  lemma DoubleRotateOrder(s: Side, w: Tree, b: Addr, x: Tree, c: Addr, y: Tree, a: Addr, z: Tree,
                          ca: Color, cb: Color, cc: Color, c1: Color, c2: Color, c3: Color)
    ensures InOrder(Mk(s, c1, Mk(s, c2, w, b, x), c, Mk(s, c3, y, a, z)))
         == InOrder(Mk(s, ca, Mk(s, cb, w, b, Mk(s, cc, x, c, y)), a, z))
  {
    MkOrder(s, cc, x, c, y);
    MkOrder(s, cb, w, b, Mk(s, cc, x, c, y));
    MkOrder(s, ca, Mk(s, cb, w, b, Mk(s, cc, x, c, y)), a, z);
    MkOrder(s, c2, w, b, x);
    MkOrder(s, c3, y, a, z);
    MkOrder(s, c1, Mk(s, c2, w, b, x), c, Mk(s, c3, y, a, z));
    hide InOrder, Mk;
    var W, X, Y, Z := InOrder(w), InOrder(x), InOrder(y), InOrder(z);
    Reassociate(W, b, X, c, Y, a, Z);
    Reassociate(Z, a, Y, c, X, b, W);
  }

  lemma MkOrder(s: Side, c: Color, n: Tree, a: Addr, f: Tree)
    ensures InOrder(Mk(s, c, n, a, f))
         == if s == Left then InOrder(n) + [a] + InOrder(f) else InOrder(f) + [a] + InOrder(n)
  {
  }

  lemma Reassociate(W: seq<Addr>, a: Addr, X: seq<Addr>, b: Addr, Y: seq<Addr>, c: Addr, Z: seq<Addr>)
    ensures (W + [a] + (X + [b] + Y)) + [c] + Z == (W + [a] + X) + [b] + (Y + [c] + Z)
    ensures W + [a] + ((X + [b] + Y) + [c] + Z) == (W + [a] + X) + [b] + (Y + [c] + Z)
  {
    assert W + [a] + (X + [b] + Y) == (W + [a] + X) + [b] + Y;
    assert (X + [b] + Y) + [c] + Z == X + [b] + (Y + [c] + Z);
    assert ((W + [a] + X) + [b] + Y) + [c] + Z == (W + [a] + X) + [b] + (Y + [c] + Z);
    assert W + [a] + (X + [b] + (Y + [c] + Z)) == (W + [a] + X) + [b] + (Y + [c] + Z);
  }

  lemma SameChild(s: Side, c: Color, l: Tree, r: Tree, a: Addr, z: Tree)
    requires InOrder(l) == InOrder(r)
    ensures InOrder(Mk(s, c, l, a, z)) == InOrder(Mk(s, c, r, a, z))
    ensures InOrder(Mk(s, c, z, a, l)) == InOrder(Mk(s, c, z, a, r))
  {
  }

  // ----- repair after side s lost one black level -----

  /** The state a deletion leaves behind: side s is one black level short and not red. */
  predicate Short(s: Side, t: Tree)
  {
    && t.Node? && RedBlack(Near(s, t)) && RedBlack(Far(s, t)) && !IsRed(Near(s, t))
    && BlackHeight(Near(s, t)) + 1 == BlackHeight(Far(s, t))
    && (t.color == Red ==> !IsRed(Far(s, t)))
  }

  /** The deletion repair: the new tree, and whether it is one black level short itself.
      The branches of the source for a missing sibling or a missing nephew under a red
      sibling do not appear: under Short the sibling has black height at least one. */
  function FixDeletion(s: Side, t: Tree): (Tree, bool)
    requires Short(s, t)
  {
    var b := Far(s, t);
    var l := Near(s, t);
    var bl := Far(s, b);
    var br := Near(s, b);
    if b.color == Red then
      var c := br;
      var cl := Far(s, c);
      var cr := Near(s, c);
      if !IsRed(cl) && !IsRed(cr) then
        (Mk(s, Black, Mk(s, t.color, l, t.addr, c.(color := Red)), b.addr, bl), false)
      else if !IsRed(cr) then
        (Mk(s, c.color, Mk(s, t.color, l, t.addr, cr), c.addr, Mk(s, Red, Blacken(cl), b.addr, bl)), false)
      else
        (Mk(s, Black, Mk(s, t.color, l, t.addr, Near(s, cr)), cr.addr,
            Mk(s, Red, Mk(s, c.color, Far(s, cr), c.addr, cl), b.addr, bl)), false)
    else if !IsRed(bl) && !IsRed(br) then
      (Mk(s, Black, l, t.addr, b.(color := Red)), t.color == Black)
    else if !IsRed(br) then
      (Mk(s, t.color, Mk(s, Black, l, t.addr, br), b.addr, Blacken(bl)), false)
    else
      var c := br;
      (Mk(s, t.color, Mk(s, Black, l, t.addr, Near(s, c)), c.addr, Mk(s, b.color, Far(s, c), b.addr, bl)), false)
  }

  /** What a deletion step promises about a subtree: still red-black, one black level lower
      exactly when the flag is set, and never red where it was black. */
  predicate Deleted(height: nat, color: Color, r: (Tree, bool))
  {
    && RedBlack(r.0) && BlackHeight(r.0) + (if r.1 then 1 else 0) == height
    && (IsRed(r.0) ==> color == Red) && (r.1 ==> !IsRed(r.0))
  }

  lemma FixDeletionBalances(s: Side, t: Tree)
    requires Short(s, t)
    ensures Deleted(BlackHeight(Far(s, t)) + Level(t.color), t.color, FixDeletion(s, t))
  {
    SiblingExists(s, t);
    NephewExists(s, t);
    hide RedBlack, BlackHeight, InOrder;
    var l, b := Near(s, t), Far(s, t);
    Parts(s, b);
    var bl, br := Far(s, b), Near(s, b);
    if b.color == Red {
      RedSiblingBalances(s, t);
    } else if !IsRed(bl) && !IsRed(br) {
      Build(s, Red, br, b.addr, bl);
      Build(s, Black, l, t.addr, b.(color := Red));
    } else if !IsRed(br) {
      BlackenParts(bl);
      Build(s, Black, l, t.addr, br);
      Build(s, t.color, Mk(s, Black, l, t.addr, br), b.addr, Blacken(bl));
    } else {
      Parts(s, br);
      Build(s, Black, l, t.addr, Near(s, br));
      Build(s, Black, Far(s, br), b.addr, bl);
      Build(s, t.color, Mk(s, Black, l, t.addr, Near(s, br)), br.addr, Mk(s, Black, Far(s, br), b.addr, bl));
    }
  }

  lemma RedSiblingBalances(s: Side, t: Tree)
    requires Short(s, t) && IsRed(Far(s, t))
    ensures Deleted(BlackHeight(Far(s, t)) + 1, t.color, FixDeletion(s, t))
  {
    NephewExists(s, t);
    hide RedBlack, BlackHeight, InOrder;
    var l, b := Near(s, t), Far(s, t);
    Parts(s, b);
    var bl, c := Far(s, b), Near(s, b);
    Parts(s, c);
    var cl, cr := Far(s, c), Near(s, c);
    if !IsRed(cl) && !IsRed(cr) {
      Build(s, Red, cr, c.addr, cl);
      Build(s, Black, l, t.addr, c.(color := Red));
      Build(s, Black, Mk(s, Black, l, t.addr, c.(color := Red)), b.addr, bl);
    } else if !IsRed(cr) {
      BlackenParts(cl);
      Build(s, Black, l, t.addr, cr);
      Build(s, Red, Blacken(cl), b.addr, bl);
      Build(s, Black, Mk(s, Black, l, t.addr, cr), c.addr, Mk(s, Red, Blacken(cl), b.addr, bl));
    } else {
      Parts(s, cr);
      Build(s, Black, l, t.addr, Near(s, cr));
      Build(s, Black, Far(s, cr), c.addr, cl);
      var c' := Mk(s, Black, Far(s, cr), c.addr, cl);
      Build(s, Red, c', b.addr, bl);
      Build(s, Black, Mk(s, Black, l, t.addr, Near(s, cr)), cr.addr, Mk(s, Red, c', b.addr, bl));
    }
  }

  lemma FixDeletionOrder(s: Side, t: Tree)
    requires Short(s, t)
    ensures InOrder(FixDeletion(s, t).0) == InOrder(t)
  {
    hide RedBlack, BlackHeight, Balanced, NoRedRed;
    var b := Far(s, t);
    assert b.Node? by { SiblingExists(s, t); }
    var l, bl, br := Near(s, t), Far(s, b), Near(s, b);
    assert t == Mk(s, t.color, l, t.addr, b) && b == Mk(s, b.color, br, b.addr, bl);
    if b.color == Red {
      var c := br;
      assert c.Node? by { NephewExists(s, t); }
      var cl, cr := Far(s, c), Near(s, c);
      assert c == Mk(s, c.color, cr, c.addr, cl);
      if !IsRed(cl) && !IsRed(cr) {
        RotateOrder(s, b.color, l, t.addr, c, b.addr, bl, Black, t.color, t.color);
        SameChild(s, t.color, c, c.(color := Red), t.addr, l);
        SameChild(s, Black, Mk(s, t.color, l, t.addr, c), Mk(s, t.color, l, t.addr, c.(color := Red)), b.addr, bl);
      } else if !IsRed(cr) {
        FarRotateOrder(s, l, t.addr, cr, c.addr, cl, b.addr, bl, t.color, b.color, c.color, c.color, t.color, Red);
        SameChild(s, Red, cl, Blacken(cl), b.addr, bl);
        SameChild(s, c.color, Mk(s, Red, cl, b.addr, bl), Mk(s, Red, Blacken(cl), b.addr, bl), c.addr,
                  Mk(s, t.color, l, t.addr, cr));
      } else {
        var d := cr;
        assert d == Mk(s, d.color, Near(s, d), d.addr, Far(s, d));
        RotateOrder(s, c.color, Near(s, d), d.addr, Far(s, d), c.addr, cl, c.color, d.color, Black);
        var c' := Mk(s, Black, Near(s, d), d.addr, Mk(s, c.color, Far(s, d), c.addr, cl));
        var t' := Mk(s, t.color, l, t.addr, Mk(s, b.color, c', b.addr, bl));
        SameChild(s, b.color, c, c', b.addr, bl);
        SameChild(s, t.color, Mk(s, b.color, c, b.addr, bl), Mk(s, b.color, c', b.addr, bl), t.addr, l);
        assert InOrder(t) == InOrder(t');
        FarRotateOrder(s, l, t.addr, Near(s, d), d.addr, Mk(s, c.color, Far(s, d), c.addr, cl), b.addr, bl,
                       t.color, b.color, Black, Black, t.color, Red);
      }
    } else if !IsRed(bl) && !IsRed(br) {
      SameChild(s, Black, b, b.(color := Red), t.addr, l);
      SameChild(s, t.color, b, b.(color := Red), t.addr, l);
    } else if !IsRed(br) {
      RotateOrder(s, b.color, l, t.addr, br, b.addr, bl, t.color, Black, t.color);
      SameChild(s, t.color, bl, Blacken(bl), b.addr, Mk(s, Black, l, t.addr, br));
    } else {
      var c := br;
      assert c == Mk(s, c.color, Near(s, c), c.addr, Far(s, c));
      FarRotateOrder(s, l, t.addr, Near(s, c), c.addr, Far(s, c), b.addr, bl,
                     t.color, b.color, c.color, t.color, Black, b.color);
    }
  }

  lemma SiblingExists(s: Side, t: Tree)
    requires Short(s, t)
    ensures Far(s, t).Node?
  {
  }

  lemma NephewExists(s: Side, t: Tree)
    requires Short(s, t)
    ensures Far(s, t).Node? && (Far(s, t).color == Red ==> Near(s, Far(s, t)).Node? && !IsRed(Near(s, Far(s, t))))
  {
  }

  /** The double rotation from the other side. */
  lemma FarRotateOrder(s: Side, w: Tree, a: Addr, x: Tree, c: Addr, y: Tree, b: Addr, z: Tree,
                       ca: Color, cb: Color, cc: Color, c1: Color, c2: Color, c3: Color)
    ensures InOrder(Mk(s, c1, Mk(s, c2, w, a, x), c, Mk(s, c3, y, b, z)))
         == InOrder(Mk(s, ca, w, a, Mk(s, cb, Mk(s, cc, x, c, y), b, z)))
  {
    MkOrder(s, cc, x, c, y);
    MkOrder(s, cb, Mk(s, cc, x, c, y), b, z);
    MkOrder(s, ca, w, a, Mk(s, cb, Mk(s, cc, x, c, y), b, z));
    MkOrder(s, c2, w, a, x);
    MkOrder(s, c3, y, b, z);
    MkOrder(s, c1, Mk(s, c2, w, a, x), c, Mk(s, c3, y, b, z));
    hide InOrder, Mk;
    var W, X, Y, Z := InOrder(w), InOrder(x), InOrder(y), InOrder(z);
    Reassociate(W, a, X, c, Y, b, Z);
    Reassociate(Z, b, Y, c, X, a, W);
  }
}
