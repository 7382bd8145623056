/** The compressed point format as bit strings: what a point is written as, how a
    reader takes it apart, and the proof that reading undoes writing. */
module TscCodec {
  import opened Basics
  import opened Words

  /** A sample: a timestamp and the bit pattern of a double. */
  datatype Point = Point(t: int, y: Word)

  // ----- leading and trailing zeros -----

  /** `__builtin_ctzll` from bit `from` up; 64 when no bit is set. */
  function TrailingZeros(x: Word, from: nat): (n: nat)
    requires from <= 64
    ensures from <= n <= 64 && (n < 64 ==> x[n])
    ensures forall k :: from <= k < n ==> !x[k]
    decreases 64 - from
  {
    if from == 64 || x[from] then from else TrailingZeros(x, from + 1)
  }

  /** `__builtin_clzll` from bit 63 - `from` down; 64 when no bit is set. */
  function LeadingZeros(x: Word, from: nat): (n: nat)
    requires from <= 64
    ensures from <= n <= 64 && (n < 64 ==> x[63 - n])
    ensures forall k :: 63 - n < k <= 63 - from ==> !x[k]
    decreases 64 - from
  {
    if from == 64 || x[63 - from] then from else LeadingZeros(x, from + 1)
  }

  // ----- fields inside a longer bit string -----

  ghost predicate FieldAt(bits: seq<bool>, i: nat, field: seq<bool>)
  {
    i + |field| <= |bits| && forall k :: 0 <= k < |field| ==> field[k] == bits[i + k]
  }

  /** Unsigned and sign-extending reads of w bits. */
  function Zext(bits: seq<bool>, i: nat, w: nat): (r: Word)
    requires w <= 64 && i + w <= |bits|
    ensures forall k :: 0 <= k < 64 ==> r[k] == (k < w && bits[i + k])
  {
    seq(64, k requires 0 <= k < 64 => k < w && bits[i + k])
  }

  function Sext(bits: seq<bool>, i: nat, w: nat): (r: Word)
    requires 1 <= w <= 64 && i + w <= |bits|
    ensures forall k :: 0 <= k < 64 ==> r[k] == if k < w then bits[i + k] else bits[i + w - 1]
  {
    seq(64, k requires 0 <= k < 64 => if k < w then bits[i + k] else bits[i + w - 1])
  }

  lemma FieldSplit(bits: seq<bool>, i: nat, a: seq<bool>, b: seq<bool>)
    requires FieldAt(bits, i, a + b)
    ensures FieldAt(bits, i, a) && FieldAt(bits, i + |a|, b)
  {
    forall k | 0 <= k < |a| ensures a[k] == bits[i + k] {
      assert (a + b)[k] == a[k];
    }
    forall k | 0 <= k < |b| ensures b[k] == bits[i + |a| + k] {
      assert (a + b)[|a| + k] == b[k];
    }
  }

  lemma SignedField(bits: seq<bool>, i: nat, w: nat, x: int)
    requires 2 <= w <= 64 && IsInt64(x) && FitsSigned(x, w)
    requires FieldAt(bits, i, OfInt(x)[..w])
    ensures ToInt(Sext(bits, i, w)) == x
  {
    SignBits(x, w);
    OfIntValue(x);
    forall k | 0 <= k < 64 ensures Sext(bits, i, w)[k] == OfInt(x)[k] {
      assert k < w ==> OfInt(x)[..w][k] == bits[i + k];
      assert OfInt(x)[..w][w - 1] == bits[i + (w - 1)];
    }
    assert Sext(bits, i, w) == OfInt(x);
  }

  lemma UnsignedField(bits: seq<bool>, i: nat, w: nat, v: nat)
    requires w <= 64 && v < Pow2(w)
    requires FieldAt(bits, i, FromNat(v, w))
    ensures ToNat(bits[i..i + w]) == v
  {
    ToNatFromNat(v, w);
    hide FromNat, ToNat;
    forall k | 0 <= k < w ensures bits[i..i + w][k] == FromNat(v, w)[k] {
      assert bits[i..i + w][k] == bits[i + k];
    }
    assert bits[i..i + w] == FromNat(v, w);
  }

  // ----- timestamps: prefix-coded integers -----

  /** The prefix and field width tsc_write_int64 picks for a value. */
  function IntTag(x: int): (r: (seq<bool>, nat))
    ensures r.1 <= 32
  {
    if x == 0 then ([false], 0)
    else if -64 <= x <= 63 then ([true, false], 7)
    else if -256 <= x <= 255 then ([true, true, false], 9)
    else if -2048 <= x <= 2047 then ([true, true, true, false], 12)
    else ([true, true, true, true], 32)
  }

  /** tsc_write_int64. Values beyond 32 bits are refused by the field writer. */
  function EncInt(x: int): (bits: seq<bool>)
    requires IsInt64(x)
    ensures 1 <= |bits| <= 36
  {
    IntTag(x).0 + OfInt(x)[..IntTag(x).1]
  }

  /** tsc_read_int64: the value at bit i and the number of bits read. */
  function DecInt(bits: seq<bool>, i: nat): (r: Option<(int, nat)>)
  {
    if i + 1 > |bits| then None
    else if !bits[i] then Some((0, 1))
    else if i + 2 > |bits| then None
    else if !bits[i + 1] then
      if i + 9 > |bits| then None else Some((ToInt(Sext(bits, i + 2, 7)), 9))
    else if i + 3 > |bits| then None
    else if !bits[i + 2] then
      if i + 12 > |bits| then None else Some((ToInt(Sext(bits, i + 3, 9)), 12))
    else if i + 4 > |bits| then None
    else if !bits[i + 3] then
      if i + 16 > |bits| then None else Some((ToInt(Sext(bits, i + 4, 12)), 16))
    else
      if i + 36 > |bits| then None else Some((ToInt(Sext(bits, i + 4, 32)), 36))
  }

  lemma TagWidthFits(x: int)
    requires x != 0 && FitsSigned(x, 32)
    ensures 2 <= IntTag(x).1 && FitsSigned(x, IntTag(x).1)
  {
    Pow2Values();
  }

  lemma IntRoundTrip(bits: seq<bool>, i: nat, x: int)
    requires IsInt64(x) && FitsSigned(x, 32) && FieldAt(bits, i, EncInt(x))
    ensures DecInt(bits, i) == Some((x, |EncInt(x)|))
  {
    hide Sext, ToInt, OfInt, FitsSigned;
    var (tag, w) := IntTag(x);
    FieldSplit(bits, i, tag, OfInt(x)[..w]);
    assert bits[i] == tag[0];
    if x != 0 {
      assert bits[i + 1] == tag[1];
      assert |tag| > 2 ==> bits[i + 2] == tag[2];
      assert |tag| > 3 ==> bits[i + 3] == tag[3];
      TagWidthFits(x);
      SignedField(bits, i + |tag|, w, x);
    }
  }

  // ----- values: XORed bit patterns in a window of significant bits -----

  /** The window the encoder remembers: unset, or `sig` bits below `lead` zeros. */
  predicate WindowOk(lead: nat, sig: nat)
  {
    (lead == 0 && sig == 0) || (1 <= sig && lead <= 31 && lead + sig <= 64)
  }

  /** Leading zeros clamped to the five bits that store them. */
  function ClampedLead(x: Word): (n: nat)
    requires x != Zero()
    ensures n <= 31 && n < 64
    ensures forall k :: 63 - n < k < 64 ==> !x[k]
    ensures n < 31 ==> x[63 - n]
  {
    if LeadingZeros(x, 0) >= 32 then 31 else LeadingZeros(x, 0)
  }

  function Trail(x: Word): (n: nat)
    requires x != Zero()
    ensures n < 64 && x[n] && forall k :: 0 <= k < n ==> !x[k]
  {
    TrailingZeros(x, 0)
  }

  function SigBits(x: Word): (n: nat)
    requires x != Zero()
    ensures 1 <= n <= 64 && ClampedLead(x) + n + Trail(x) == 64
    ensures n == 64 ==> ClampedLead(x) == 0 && Trail(x) == 0
  {
    64 - ClampedLead(x) - Trail(x)
  }

  /** Whether the remembered window is used again (tsc.c:537-539). */
  predicate ReuseWindow(x: Word, lead: nat, sig: nat)
    requires x != Zero()
  {
    ClampedLead(x) >= lead && Trail(x) >= 64 - lead - sig && 5 + 6 + SigBits(x) >= sig
  }

  /** tsc_write_double */
  function EncDouble(x: Word, lead: nat, sig: nat): (bits: seq<bool>)
    requires WindowOk(lead, sig)
    ensures 1 <= |bits| <= 77
  {
    if x == Zero() then [false]
    else if ReuseWindow(x, lead, sig) then
      [true, false] + x[64 - lead - sig..64 - lead]
    else
      [true, true] + FromNat(ClampedLead(x), 5) + FromNat(SigBits(x) % 64, 6)
      + x[Trail(x)..Trail(x) + SigBits(x)]
  }

  /** All set bits of a word lie in the window. */
  ghost predicate InWindow(x: Word, lead: nat, sig: nat)
  {
    forall k :: 0 <= k < 64 && x[k] ==> 64 - lead - sig <= k < 64 - lead
  }

  lemma WindowCovers(x: Word, lead: nat, sig: nat)
    requires WindowOk(lead, sig) && x != Zero()
    ensures ReuseWindow(x, lead, sig) <==> InWindow(x, lead, sig) && 2 + sig <= 13 + SigBits(x)
  {
    hide SigBits;
    var l, t := ClampedLead(x), Trail(x);
    assert x[t];
    if l < lead { assert x[63 - l]; }
    if InWindow(x, lead, sig) && l >= lead { assert 64 - lead - sig <= t; }
    if l >= lead && t >= 64 - lead - sig {
      forall k | 0 <= k < 64 && x[k] ensures 64 - lead - sig <= k < 64 - lead { }
    }
  }

  /** What a value costs: one bit when it did not change, and otherwise the shorter of the two forms,
      of which the remembered window can only be used when it holds every set bit. */
  lemma ValueCost(x: Word, lead: nat, sig: nat)
    requires WindowOk(lead, sig)
    ensures x == Zero() ==> |EncDouble(x, lead, sig)| == 1
    ensures x != Zero() ==>
      (|EncDouble(x, lead, sig)| == if InWindow(x, lead, sig) && 2 + sig <= 13 + SigBits(x) then 2 + sig else 13 + SigBits(x))
  {
    hide ClampedLead, SigBits, Trail, InWindow, ReuseWindow;
    if x != Zero() { WindowCovers(x, lead, sig); }
  }

  /** What a change of step costs: the shortest of the five forms that can hold it. */
  lemma IntCost(x: int)
    requires IsInt64(x)
    ensures |EncInt(x)| == if x == 0 then 1 else if FitsSigned(x, 7) then 9 else if FitsSigned(x, 9) then 12
                           else if FitsSigned(x, 12) then 16 else 36
  {
    hide OfInt, Pow2;
    Pow2Values();
  }

  /** The window after a value. */
  function WindowAfter(x: Word, lead: nat, sig: nat): (w: (nat, nat))
    requires WindowOk(lead, sig)
    ensures WindowOk(w.0, w.1)
  {
    if x == Zero() || ReuseWindow(x, lead, sig) then (lead, sig) else (ClampedLead(x), SigBits(x))
  }

  datatype Reading = Reading(x: Word, n: nat, lead: nat, sig: nat)

  /** tsc_read_double: value, bits read and the window left behind. */
  function DecDouble(bits: seq<bool>, i: nat, lead: nat, sig: nat): (r: Option<Reading>)
  {
    if i + 1 > |bits| then None
    else if !bits[i] then Some(Reading(Zero(), 1, lead, sig))
    else if i + 2 > |bits| then None
    else if !bits[i + 1] then
      if sig == 0 || lead + sig > 64 || i + 2 + sig > |bits| then None
      else Some(Reading(Shl(Zext(bits, i + 2, sig), 64 - sig - lead), 2 + sig, lead, sig))
    else if i + 13 > |bits| then None
    else ReadWindow(bits, i + 13, ToNat(bits[i + 2..i + 7]), StoredSig(ToNat(bits[i + 7..i + 13])))
  }

  /** A stored width of 0 stands for 64. */
  function StoredSig(stored: nat): nat { if stored == 0 then 64 else stored }

  function ReadWindow(bits: seq<bool>, i: nat, lead: nat, sig: nat): (r: Option<Reading>)
  {
    if lead + sig > 64 || i + sig > |bits| then None
    else Some(Reading(Shl(Zext(bits, i, sig), 64 - sig - lead), 13 + sig, lead, sig))
  }

  /** Shifting a window's bits back in place restores a word that is zero outside it. */
  lemma WindowRestores(bits: seq<bool>, i: nat, x: Word, lead: nat, sig: nat)
    requires lead + sig <= 64 && FieldAt(bits, i, x[64 - lead - sig..64 - lead])
    requires forall k :: 0 <= k < 64 - lead - sig ==> !x[k]
    requires forall k :: 64 - lead <= k < 64 ==> !x[k]
    ensures Shl(Zext(bits, i, sig), 64 - sig - lead) == x
  {
    var base := 64 - lead - sig;
    var r := Shl(Zext(bits, i, sig), base);
    forall k | 0 <= k < 64
      ensures r[k] == x[k]
    {
      if base <= k < 64 - lead {
        assert bits[i + (k - base)] == x[base..64 - lead][k - base];
      }
    }
  }

  lemma DoubleRoundTrip(bits: seq<bool>, i: nat, x: Word, lead: nat, sig: nat)
    requires WindowOk(lead, sig) && FieldAt(bits, i, EncDouble(x, lead, sig))
    ensures DecDouble(bits, i, lead, sig)
         == Some(Reading(x, |EncDouble(x, lead, sig)|, WindowAfter(x, lead, sig).0, WindowAfter(x, lead, sig).1))
  {
    hide Zext, Shl, ReadWindow, ClampedLead, SigBits, Trail;
    if x == Zero() {
      assert bits[i] == [false][0];
    } else if ReuseWindow(x, lead, sig) {
      ReuseRoundTrip(bits, i, x, lead, sig);
    } else {
      ResetRoundTrip(bits, i, x, lead, sig);
    }
  }

  lemma TwoBits(bits: seq<bool>, i: nat, a: bool, b: bool)
    requires FieldAt(bits, i, [a, b])
    ensures bits[i] == a && bits[i + 1] == b
  {
    assert bits[i + 0] == [a, b][0] && bits[i + 1] == [a, b][1];
  }

  lemma ReuseRoundTrip(bits: seq<bool>, i: nat, x: Word, lead: nat, sig: nat)
    requires WindowOk(lead, sig) && x != Zero() && ReuseWindow(x, lead, sig)
    requires FieldAt(bits, i, [true, false] + x[64 - lead - sig..64 - lead])
    ensures DecDouble(bits, i, lead, sig) == Some(Reading(x, 2 + sig, lead, sig))
  {
    FieldSplit(bits, i, [true, false], x[64 - lead - sig..64 - lead]);
    TwoBits(bits, i, true, false);
    WindowRestores(bits, i + 2, x, lead, sig);
  }

  lemma ResetRoundTrip(bits: seq<bool>, i: nat, x: Word, lead: nat, sig: nat)
    requires WindowOk(lead, sig) && x != Zero() && !ReuseWindow(x, lead, sig)
    requires FieldAt(bits, i, EncDouble(x, lead, sig))
    ensures DecDouble(bits, i, lead, sig) == Some(Reading(x, 13 + SigBits(x), ClampedLead(x), SigBits(x)))
  {
    hide ClampedLead, SigBits, Trail, ReuseWindow;
    var l, s, t := ClampedLead(x), SigBits(x), Trail(x);
    var f1, f2, f3 := FromNat(l, 5), FromNat(s % 64, 6), x[t..t + s];
    assert EncDouble(x, lead, sig) == [true, true] + f1 + f2 + f3;
    FieldSplit(bits, i, [true, true] + f1 + f2, f3);
    FieldSplit(bits, i, [true, true] + f1, f2);
    FieldSplit(bits, i, [true, true], f1);
    TwoBits(bits, i, true, true);
    ResetFields(bits, i, x);
    hide FieldAt, ReadWindow, FromNat;
  }

  lemma ResetFields(bits: seq<bool>, i: nat, x: Word)
    requires x != Zero()
    requires FieldAt(bits, i + 2, FromNat(ClampedLead(x), 5)) && FieldAt(bits, i + 7, FromNat(SigBits(x) % 64, 6))
    requires FieldAt(bits, i + 13, x[Trail(x)..Trail(x) + SigBits(x)])
    ensures ToNat(bits[i + 2..i + 7]) == ClampedLead(x)
    ensures StoredSig(ToNat(bits[i + 7..i + 13])) == SigBits(x)
    ensures ReadWindow(bits, i + 13, ClampedLead(x), SigBits(x))
         == Some(Reading(x, 13 + SigBits(x), ClampedLead(x), SigBits(x)))
  {
    hide FromNat, ToNat, ClampedLead, SigBits, Trail, Zext, Shl;
    var l, s := ClampedLead(x), SigBits(x);
    assert Trail(x) == 64 - l - s;
    StoredFields(bits, i, l, s);
    WindowRestores(bits, i + 13, x, l, s);
  }

  lemma StoredFields(bits: seq<bool>, i: nat, lead: nat, sig: nat)
    requires lead < 32 && 1 <= sig <= 64
    requires FieldAt(bits, i + 2, FromNat(lead, 5)) && FieldAt(bits, i + 7, FromNat(sig % 64, 6))
    ensures ToNat(bits[i + 2..i + 7]) == lead && StoredSig(ToNat(bits[i + 7..i + 13])) == sig
  {
    hide FromNat, ToNat, FieldAt, Pow2;
    Pow2Values();
    UnsignedField(bits, i + 2, 5, lead);
    UnsignedField(bits, i + 7, 6, sig % 64);
  }

  // ----- whole points -----

  /** What the encoder carries from point to point: the header fields, the point
      count and the number of bits written. */
  datatype Header = Header(lastT: int, lastDelta: int, prev: Word, bits: nat, lead: nat, sig: nat, pts: nat)

  const CLEAR: Header := Header(0, 0, Zero(), 0, 0, 0, 0)

  /** What the timestamp part of the next point encodes: delta of deltas. */
  function TimeCode(h: Header, p: Point): (code: int)
    ensures IsInt64(code)
  {
    Wrap(Wrap(p.t - h.lastT) - h.lastDelta)
  }

  /** The header reached by accepted points. */
  ghost predicate HeaderOk(h: Header)
  {
    && IsInt64(h.lastT) && IsInt64(h.lastDelta) && WindowOk(h.lead, h.sig)
    && 2 * h.pts <= h.bits
    && (h.pts == 0 ==> h == CLEAR) && (h.pts == 1 ==> h.lastDelta == 0)
  }

  /** A point the codec can represent after h (space aside). */
  predicate Representable(h: Header, p: Point)
  {
    IsInt64(p.t) && (h.pts > 0 ==> p.t > h.lastT && FitsSigned(TimeCode(h, p), 32))
  }

  /** The word whose bits the value part encodes: the pattern itself, then XORs. */
  function ValueCode(h: Header, p: Point): Word
  {
    if h.pts == 0 then p.y else Xor(h.prev, p.y)
  }

  function PointBits(h: Header, p: Point): (bits: seq<bool>)
    requires WindowOk(h.lead, h.sig) && IsInt64(p.t)
    ensures 2 <= |bits| <= if h.pts == 0 then 141 else 113
  {
    (if h.pts == 0 then OfInt(p.t) else EncInt(TimeCode(h, p)))
    + EncDouble(ValueCode(h, p), h.lead, h.sig)
  }

  function After(h: Header, p: Point): (h': Header)
    requires WindowOk(h.lead, h.sig) && IsInt64(p.t)
  {
    var w := WindowAfter(ValueCode(h, p), h.lead, h.sig);
    Header(p.t, if h.pts == 0 then h.lastDelta else Wrap(p.t - h.lastT), p.y,
           h.bits + |PointBits(h, p)|, w.0, w.1, h.pts + 1)
  }

  lemma AfterOk(h: Header, p: Point)
    requires HeaderOk(h) && Representable(h, p)
    ensures HeaderOk(After(h, p))
  {
  }

  /** A sequence of points every one of which is representable in turn. */
  predicate Encodable(ps: seq<Point>)
    decreases |ps|, 0
  {
    ps == [] || (Encodable(ps[..|ps| - 1]) && Representable(HeaderOf(ps[..|ps| - 1]), ps[|ps| - 1]))
  }

  function HeaderOf(ps: seq<Point>): (h: Header)
    requires Encodable(ps)
    ensures HeaderOk(h) && h.pts == |ps|
    decreases |ps|, 1
  {
    if ps == [] then CLEAR
    else
      var h := HeaderOf(ps[..|ps| - 1]);
      AfterOk(h, ps[|ps| - 1]);
      After(h, ps[|ps| - 1])
  }

  /** The bit string of a block holding ps. */
  ghost function Encode(ps: seq<Point>): (bits: seq<bool>)
    requires Encodable(ps)
    ensures |bits| == HeaderOf(ps).bits
  {
    if ps == [] then []
    else Encode(ps[..|ps| - 1]) + PointBits(HeaderOf(ps[..|ps| - 1]), ps[|ps| - 1])
  }

  /** The reader's state. */
  datatype Cursor = Cursor(y: Word, t: int, i: nat, r: nat, dt: int, lead: nat, sig: nat)

  const ORIGIN: Cursor := Cursor(Zero(), 0, 0, 0, 0, 0, 0)

  /** One step of tsc_iter_next past its end test, on the bit string. */
  function ReadPoint(bits: seq<bool>, c: Cursor): (r: Option<Cursor>)
  {
    if c.i == 0 then
      if c.r + 64 > |bits| then None else
      var t := ToInt(bits[c.r..c.r + 64]);
      match DecDouble(bits, c.r + 64, c.lead, c.sig)
      case None => None
      case Some(Reading(y, n, lead, sig)) => Some(Cursor(y, t, 1, c.r + 64 + n, 0, lead, sig))
    else
      match DecInt(bits, c.r)
      case None => None
      case Some((t, m)) =>
        match DecDouble(bits, c.r + m, c.lead, c.sig)
        case None => None
        case Some(Reading(y, n, lead, sig)) =>
          Some(Cursor(Xor(c.y, y), Wrap(c.t + Wrap(c.dt + t)), c.i + 1, c.r + m + n, Wrap(c.dt + t), lead, sig))
  }

  /** The cursor that has just read the points a header describes. */
  function CursorAt(h: Header): Cursor
  {
    Cursor(h.prev, h.lastT, h.pts, h.bits, h.lastDelta, h.lead, h.sig)
  }

  lemma XorCancels(a: Word, b: Word)
    ensures Xor(a, Xor(a, b)) == b
  {
    assert forall k :: 0 <= k < 64 ==> Xor(a, Xor(a, b))[k] == b[k];
  }

  /** Reading at a point's bits yields the cursor after that point. */
  lemma PointRoundTrip(bits: seq<bool>, h: Header, p: Point)
    requires HeaderOk(h) && Representable(h, p)
    requires FieldAt(bits, h.bits, PointBits(h, p))
    ensures ReadPoint(bits, CursorAt(h)) == Some(CursorAt(After(h, p)))
  {
    hide EncDouble, DecDouble, WindowAfter, DecInt, EncInt;
    var x := ValueCode(h, p);
    if h.pts == 0 {
      FieldSplit(bits, h.bits, OfInt(p.t), EncDouble(x, h.lead, h.sig));
      OfIntValue(p.t);
      assert bits[h.bits..h.bits + 64] == OfInt(p.t);
      DoubleRoundTrip(bits, h.bits + 64, x, h.lead, h.sig);
    } else {
      var m := |EncInt(TimeCode(h, p))|;
      FieldSplit(bits, h.bits, EncInt(TimeCode(h, p)), EncDouble(x, h.lead, h.sig));
      IntRoundTrip(bits, h.bits, TimeCode(h, p));
      DoubleRoundTrip(bits, h.bits + m, x, h.lead, h.sig);
      XorCancels(h.prev, p.y);
      WrapUndoes(h.lastDelta, TimeCode(h, p), Wrap(p.t - h.lastT));
      WrapUndoes(h.lastT, Wrap(p.t - h.lastT), p.t);
    }
  }

  lemma {:induction false} PrefixEncodable(ps: seq<Point>, k: nat)
    requires Encodable(ps) && k <= |ps|
    ensures Encodable(ps[..k])
    ensures Encode(ps[..k]) <= Encode(ps)
    decreases |ps|
  {
    hide PointBits, Representable;
    if k == |ps| {
      assert ps[..k] == ps;
    } else {
      PrefixEncodable(ps[..|ps| - 1], k);
      assert ps[..|ps| - 1][..k] == ps[..k];
    }
  }

  lemma LastPoint(qs: seq<Point>, init: seq<Point>)
    requires Encodable(qs) && qs != [] && init == qs[..|qs| - 1]
    ensures Encodable(init) && Representable(HeaderOf(init), qs[|qs| - 1])
    ensures HeaderOf(qs) == After(HeaderOf(init), qs[|qs| - 1])
    ensures Encode(qs) == Encode(init) + PointBits(HeaderOf(init), qs[|qs| - 1])
  {
    hide PointBits, After, Representable;
  }

  lemma HeaderStep(ps: seq<Point>, k: nat)
    requires Encodable(ps) && k < |ps|
    ensures Encodable(ps[..k]) && Encodable(ps[..k + 1])
    ensures Representable(HeaderOf(ps[..k]), ps[k])
    ensures HeaderOf(ps[..k + 1]) == After(HeaderOf(ps[..k]), ps[k])
    ensures Encode(ps[..k + 1]) == Encode(ps[..k]) + PointBits(HeaderOf(ps[..k]), ps[k])
  {
    hide PointBits, After, Representable, Encodable, HeaderOf, Encode;
    PrefixEncodable(ps, k + 1);
    assert ps[..k + 1][..k] == ps[..k] && ps[..k + 1][k] == ps[k];
    LastPoint(ps[..k + 1], ps[..k]);
  }

  /** In any bit string that starts with Encode(ps), whatever follows, the reader steps
      from the first k points to the first k + 1. */
  lemma StepRoundTrip(bits: seq<bool>, ps: seq<Point>, k: nat)
    requires Encodable(ps) && Encode(ps) <= bits && k < |ps|
    ensures Encodable(ps[..k]) && Encodable(ps[..k + 1])
    ensures ReadPoint(bits, CursorAt(HeaderOf(ps[..k]))) == Some(CursorAt(HeaderOf(ps[..k + 1])))
    ensures CursorAt(HeaderOf(ps[..k + 1])).t == ps[k].t && CursorAt(HeaderOf(ps[..k + 1])).y == ps[k].y
  {
    hide PointBits, ReadPoint, Representable, HeaderOf, Encode;
    HeaderStep(ps, k);
    PrefixEncodable(ps, k + 1);
    var h := HeaderOf(ps[..k]);
    assert FieldAt(bits, 0, Encode(ps[..k]) + PointBits(h, ps[k]));
    FieldSplit(bits, 0, Encode(ps[..k]), PointBits(h, ps[k]));
    PointRoundTrip(bits, h, ps[k]);
  }

  /** The reader run to the end of a block of n points. */
  ghost function ReadAll(bits: seq<bool>, n: nat, c: Cursor): (r: Option<seq<Point>>)
    decreases n - c.i
  {
    if c.i >= n then Some([])
    else match ReadPoint(bits, c)
      case None => None
      case Some(c') =>
        if c'.i != c.i + 1 then None else
        match ReadAll(bits, n, c')
        case None => None
        case Some(rest) => Some([Point(c'.t, c'.y)] + rest)
  }

  lemma {:induction false} ReadFrom(bits: seq<bool>, ps: seq<Point>, k: nat)
    requires Encodable(ps) && Encode(ps) <= bits && k <= |ps| && Encodable(ps[..k])
    ensures ReadAll(bits, |ps|, CursorAt(HeaderOf(ps[..k]))) == Some(ps[k..])
    decreases |ps| - k
  {
    hide ReadPoint, HeaderOf, Encode;
    if k == |ps| {
      assert ps[k..] == [];
    } else {
      StepRoundTrip(bits, ps, k);
      ReadFrom(bits, ps, k + 1);
      assert ps[k..] == [ps[k]] + ps[k + 1..];
    }
  }

  /** Decoding undoes encoding, for every block of points and any bits after it. */
  lemma BlockRoundTrip(bits: seq<bool>, ps: seq<Point>)
    requires Encodable(ps) && Encode(ps) <= bits
    ensures ReadAll(bits, |ps|, ORIGIN) == Some(ps)
  {
    assert ps[..0] == [] && ps[0..] == ps;
    ReadFrom(bits, ps, 0);
  }

  /** Accepted points are strictly increasing in time. */
  lemma {:induction false} EncodableIncreasing(ps: seq<Point>)
    requires Encodable(ps)
    ensures forall i, j :: 0 <= i < j < |ps| ==> ps[i].t < ps[j].t
    ensures forall i :: 0 <= i < |ps| ==> IsInt64(ps[i].t)
    ensures ps != [] ==> HeaderOf(ps).lastT == ps[|ps| - 1].t && HeaderOf(ps).prev == ps[|ps| - 1].y
  {
    hide PointBits, Encodable, HeaderOf, WindowAfter, FitsSigned;
    if ps != [] {
      var init, last := ps[..|ps| - 1], ps[|ps| - 1];
      assert Encodable(init) && Representable(HeaderOf(init), last) && HeaderOf(ps) == After(HeaderOf(init), last)
      by {
        LastPoint(ps, init);
      }
      EncodableIncreasing(init);
      assert forall i :: 0 <= i < |init| ==> ps[i] == init[i];
    }
  }
}
