/** storage_item_cmp (storage.c:59-106): the order of each index, shown to be the three-way
    comparison of a total preorder, as the red-black trees need. */
module ItemOrder {
  import opened Basics
  import opened Bytes
  import opened RbTree
  import opened RbOps
  import opened TreeIter

  /** The fields of a storage item that indices look at. A value of an index is a C string
      or NULL. */
  datatype Entry = Entry(internalId: nat, key: seq<Byte>, indexVal: nat -> Option<seq<Byte>>)

  const INTERNAL_ID_INDEX: nat := 0
  const LFM_INDEX: nat := 1
  const NAME_INDEX: nat := 2
  const NUM_SPECIAL_INDICES: nat := 3

  /** memcmp of equally long strings, and strcmp of NUL-free ones. */
  function LexCmp(a: seq<Byte>, b: seq<Byte>): int
  {
    if a == [] then (if b == [] then 0 else -1)
    else if b == [] then 1
    else if a[0] != b[0] then a[0] - b[0]
    else LexCmp(a[1..], b[1..])
  }

  /** The C string at the start of a key: the bytes before the first NUL. */
  function CString(key: seq<Byte>): seq<Byte>
  {
    if key == [] || key[0] == 0 then [] else [key[0]] + CString(key[1..])
  }

  /** nullstrcmp */
  function NullCmp(a: Option<seq<Byte>>, b: Option<seq<Byte>>): int
  {
    match (a, b)
    case (None, None) => 0
    case (None, Some(_)) => -1
    case (Some(_), None) => 1
    case (Some(x), Some(y)) => LexCmp(x, y)
  }

  function LfmCmp(a: seq<Byte>, b: seq<Byte>): int
  {
    if |a| != |b| then |a| - |b| else LexCmp(a, b)
  }

  /** storage_item_cmp */
  function ItemCmp(a: Entry, b: Entry, index: nat): int
  {
    if index == INTERNAL_ID_INDEX then
      (if a.internalId < b.internalId then -1 else if a.internalId > b.internalId then 1 else 0)
    else if index == LFM_INDEX then LfmCmp(a.key, b.key)
    else if index == NAME_INDEX then NullCmp(Some(CString(a.key)), Some(CString(b.key)))
    else NullCmp(a.indexVal(index - NUM_SPECIAL_INDICES), b.indexVal(index - NUM_SPECIAL_INDICES))
  }

  lemma {:induction false} LexAntisymmetric(a: seq<Byte>, b: seq<Byte>)
    ensures LexCmp(a, b) < 0 <==> LexCmp(b, a) > 0
    ensures LexCmp(a, b) == 0 <==> a == b
  {
    if a != [] && b != [] && a[0] == b[0] {
      LexAntisymmetric(a[1..], b[1..]);
      assert a == [a[0]] + a[1..] && b == [b[0]] + b[1..];
    }
  }

  /** Equal up to byte i, where a ends or has the smaller byte. */
  ghost predicate SmallerAt(a: seq<Byte>, b: seq<Byte>, i: nat)
  {
    i <= |a| && i < |b| && a[..i] == b[..i] && (i == |a| || a[i] < b[i])
  }

  /** The order of strcmp: decided by the first byte that differs, a proper prefix being smaller. */
  lemma {:induction false} LexOrder(a: seq<Byte>, b: seq<Byte>)
    ensures LexCmp(a, b) < 0 <==> exists i: nat :: SmallerAt(a, b, i)
  {
    if a == [] {
      if b != [] { assert SmallerAt(a, b, 0); }
    } else if b != [] {
      if a[0] == b[0] {
        LexOrder(a[1..], b[1..]);
        if i: nat :| SmallerAt(a[1..], b[1..], i) {
          assert a[..i + 1] == [a[0]] + a[1..][..i] && b[..i + 1] == [b[0]] + b[1..][..i];
          assert SmallerAt(a, b, i + 1);
        }
        if i: nat :| SmallerAt(a, b, i) {
          assert i > 0 && a[1..][..i - 1] == a[..i][1..] && b[1..][..i - 1] == b[..i][1..];
          assert SmallerAt(a[1..], b[1..], i - 1);
        }
      } else {
        if a[0] < b[0] { assert SmallerAt(a, b, 0); }
        forall i: nat | 0 < i <= |a| && i <= |b| ensures a[..i] != b[..i] {
          assert a[..i][0] == a[0] && b[..i][0] == b[0];
        }
      }
    }
  }

  lemma {:induction false} LexTransitive(a: seq<Byte>, b: seq<Byte>, c: seq<Byte>)
    requires LexCmp(a, b) <= 0 && LexCmp(b, c) <= 0
    ensures LexCmp(a, c) <= 0
  {
    if a != [] && b != [] && c != [] && a[0] == b[0] == c[0] {
      LexTransitive(a[1..], b[1..], c[1..]);
    }
  }

  lemma CmpAntisymmetric(a: Entry, b: Entry, index: nat)
    ensures ItemCmp(a, b, index) < 0 <==> ItemCmp(b, a, index) > 0
  {
    hide LexCmp, CString;
    LexAntisymmetric(a.key, b.key);
    LexAntisymmetric(CString(a.key), CString(b.key));
    if index >= NUM_SPECIAL_INDICES {
      var x, y := a.indexVal(index - NUM_SPECIAL_INDICES), b.indexVal(index - NUM_SPECIAL_INDICES);
      if x.Some? && y.Some? { LexAntisymmetric(x.value, y.value); }
    }
  }

  lemma CmpTransitive(a: Entry, b: Entry, c: Entry, index: nat)
    requires ItemCmp(a, b, index) <= 0 && ItemCmp(b, c, index) <= 0
    ensures ItemCmp(a, c, index) <= 0
  {
    hide LexCmp, CString;
    if index == LFM_INDEX {
      if |a.key| == |b.key| == |c.key| { LexTransitive(a.key, b.key, c.key); }
    } else if index == NAME_INDEX {
      LexTransitive(CString(a.key), CString(b.key), CString(c.key));
    } else if index >= NUM_SPECIAL_INDICES {
      var i := index - NUM_SPECIAL_INDICES;
      var x, y, z := a.indexVal(i), b.indexVal(i), c.indexVal(i);
      if x.Some? && y.Some? && z.Some? { LexTransitive(x.value, y.value, z.value); }
    }
  }

  /** The comparator of an index over the items in memory. */
  function CmpOf(at: Addr -> Entry, index: nat): Cmp
  {
    (x: Addr, y: Addr) => ItemCmp(at(x), at(y), index)
  }

  /** Looking for a given item in an index. */
  function ProbeOf(at: Addr -> Entry, query: Entry, index: nat): Probe
  {
    (x: Addr) => ItemCmp(query, at(x), index)
  }

  lemma ComparatorOk(at: Addr -> Entry, index: nat)
    ensures IsComparator(CmpOf(at, index))
  {
    hide ItemCmp;
    var cmp := CmpOf(at, index);
    forall a, b ensures cmp(a, b) < 0 <==> cmp(b, a) > 0 { CmpAntisymmetric(at(a), at(b), index); }
    forall a, b, c | cmp(a, b) <= 0 && cmp(b, c) <= 0 ensures cmp(a, c) <= 0 {
      CmpTransitive(at(a), at(b), at(c), index);
    }
  }

  /** A query item orders consistently with the items in the index. */
  lemma ProbeFits(at: Addr -> Entry, query: Entry, index: nat)
    ensures Fits(CmpOf(at, index), ProbeOf(at, query, index))
  {
    hide ItemCmp;
    var cmp, q := CmpOf(at, index), ProbeOf(at, query, index);
    forall a, b | cmp(a, b) <= 0 && q(a) < 0 ensures q(b) < 0 {
      BelowStays(query, at(a), at(b), index);
    }
    forall a, b | cmp(a, b) <= 0 && q(b) > 0 ensures q(a) > 0 {
      AboveStays(query, at(a), at(b), index);
    }
  }

  lemma BelowStays(q: Entry, a: Entry, b: Entry, index: nat)
    requires ItemCmp(q, a, index) < 0 && ItemCmp(a, b, index) <= 0
    ensures ItemCmp(q, b, index) < 0
  {
    hide ItemCmp;
    CmpTransitive(q, a, b, index);
    CmpAntisymmetric(q, a, index);
    CmpAntisymmetric(q, b, index);
    CmpAntisymmetric(b, q, index);
    CmpAntisymmetric(a, q, index);
    if ItemCmp(b, q, index) <= 0 {
      CmpTransitive(a, b, q, index);
    }
  }

  lemma AboveStays(q: Entry, a: Entry, b: Entry, index: nat)
    requires ItemCmp(q, b, index) > 0 && ItemCmp(a, b, index) <= 0
    ensures ItemCmp(q, a, index) > 0
  {
    hide ItemCmp;
    CmpAntisymmetric(q, b, index);
    CmpAntisymmetric(b, q, index);
    CmpAntisymmetric(q, a, index);
    CmpAntisymmetric(a, q, index);
    if ItemCmp(q, a, index) <= 0 {
      CmpTransitive(q, a, b, index);
    }
  }
}
