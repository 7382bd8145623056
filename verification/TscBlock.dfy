/** The compressor of one series (tsc.c): a header and a fixed word buffer updated in
    place, and the iterator that reads a block back. */
module TscBlock {
  import opened Basics
  import opened Words
  import opened Bitstream
  import opened TscCodec
  import TscHeader

  // ----- sequencing field writes -----

  lemma SpliceTwice(bs: seq<bool>, i: nat, f: seq<bool>, g: seq<bool>)
    requires i + |f| + |g| <= |bs|
    ensures Splice(Splice(bs, i, f), i + |f|, g) == Splice(bs, i, f + g)
  {
    var l, r := Splice(Splice(bs, i, f), i + |f|, g), Splice(bs, i, f + g);
    forall k | 0 <= k < |bs| ensures l[k] == r[k] {
    }
  }

  lemma SpliceKeepsPrefix(bs: seq<bool>, i: nat, f: seq<bool>)
    requires i + |f| <= |bs|
    ensures Splice(bs, i, f)[..i] == bs[..i]
    ensures Splice(bs, i, f)[..i + |f|] == bs[..i] + f
  {
  }

  /** A small constant written as a w-bit field. */
  lemma NatField(v: nat, w: nat)
    requires w <= 63 && v < Pow2(w)
    ensures ToNat(FromNat(v, 64)) == v && FromNat(v, 64)[..w] == FromNat(v, w)
  {
    hide FromNat, ToNat, Pow2;
    Pow2Monotone(w, 64);
    ToNatFromNat(v, 64);
    FromNatWiden(v, w, 64);
    assert forall k :: 0 <= k < w ==> FromNat(v, 64)[..w][k] == FromNat(v, w)[k];
  }

  lemma TagField()
    ensures FromNat(0, 1) == [false] && FromNat(1, 1) == [true]
    ensures FromNat(1, 2) == [true, false] && FromNat(3, 3) == [true, true, false]
    ensures FromNat(7, 4) == [true, true, true, false] && FromNat(15, 4) == [true, true, true, true]
    ensures Pow2(1) == 2 && Pow2(2) == 4 && Pow2(3) == 8 && Pow2(4) == 16 && Pow2(5) == 32 && Pow2(6) == 64
  {
    assert FromNat(1, 2) == [true] + FromNat(0, 1);
    assert FromNat(3, 3) == [true] + FromNat(1, 2);
    assert FromNat(7, 4) == [true] + FromNat(3, 3);
    assert FromNat(15, 4) == [true] + FromNat(7, 3) && FromNat(7, 3) == [true] + FromNat(3, 2);
    assert FromNat(3, 2) == [true] + FromNat(1, 1);
  }

  /** bitstream_write_uint64 of a constant. */
  method WriteNat(buf: array<Word>, n: nat, i: nat, w: nat, v: nat) returns (st: Status, next: nat)
    requires buf.Length == n / 64 && 1 <= w <= 6 && v < Pow2(w)
    modifies buf
    ensures st == if HasSpace(n, i, w) then Ok else OutOfSpace
    ensures st == Ok ==> next == i + w && Bits(buf[..]) == Splice(old(Bits(buf[..])), i, FromNat(v, w))
    ensures st != Ok ==> next == i && buf[..] == old(buf[..])
  {
    NatField(v, w);
    hide FromNat, ToNat, Pow2, Bits, Splice;
    st, next := WriteUint64(buf, n, i, w, FromNat(v, 64));
  }

  /** What a writer of a multi-field code leaves behind: the whole code on success,
      otherwise nothing before bit i has changed. */
  ghost predicate Written(st: Status, next: nat, before: seq<bool>, after: seq<bool>, i: nat, code: seq<bool>)
  {
    && |after| == |before|
    && (st == Ok ==> next == i + |code| && i + |code| <= |before| && after == Splice(before, i, code))
    && (i <= |before| ==> after[..i] == before[..i])
  }

  lemma WrittenTwice(st: Status, mid: nat, next: nat, before: seq<bool>, m: seq<bool>, after: seq<bool>,
                     i: nat, f: seq<bool>, g: seq<bool>)
    requires Written(Ok, mid, before, m, i, f) && Written(st, next, m, after, mid, g)
    ensures Written(st, next, before, after, i, f + g)
  {
    if st == Ok {
      SpliceTwice(before, i, f, g);
    }
    assert mid <= |m|;
    assert after[..i] == after[..mid][..i] == m[..mid][..i] == m[..i];
  }

  lemma WrittenField(st: Status, next: nat, before: seq<bool>, after: seq<bool>, i: nat, code: seq<bool>)
    requires st == Ok ==> next == i + |code| && i + |code| <= |before| && after == Splice(before, i, code)
    requires st != Ok ==> after == before
    ensures Written(st, next, before, after, i, code)
  {
    if st == Ok {
      SpliceKeepsPrefix(before, i, code);
    }
  }

  // ----- the two codes -----

  /** tsc_write_int64 */
  method WriteInt(buf: array<Word>, n: nat, i: nat, x: int) returns (st: Status, next: nat)
    requires buf.Length == n / 64 && IsInt64(x)
    modifies buf
    ensures st == if !HasSpace(n, i, |EncInt(x)|) then OutOfSpace
                  else if FitsSigned(x, 32) then Ok else BadValue
    ensures Written(st, next, old(Bits(buf[..])), Bits(buf[..]), i, EncInt(x))
  {
    hide Written, Splice, Bits, HasSpace, OfInt, FromNat, FitsSigned, Pow2;
    TagField();
    IntFits(x);
    ghost var b0 := Bits(buf[..]);
    if x == 0 {
      st, next := WriteNat(buf, n, i, 1, 0);
      WrittenField(st, next, b0, Bits(buf[..]), i, [false]);
      assert EncInt(x) == [false];
      return;
    }
    var tag: nat, tagWidth, w;
    if -64 <= x <= 63 {
      tag, tagWidth, w := 1, 2, 7;
    } else if -256 <= x <= 255 {
      tag, tagWidth, w := 3, 3, 9;
    } else if -2048 <= x <= 2047 {
      tag, tagWidth, w := 7, 4, 12;
    } else {
      tag, tagWidth, w := 15, 4, 32;
    }
    assert EncInt(x) == FromNat(tag, tagWidth) + OfInt(x)[..w];
    st, next := WriteNat(buf, n, i, tagWidth, tag);
    ghost var b1 := Bits(buf[..]);
    ghost var mid := next;
    WrittenField(st, next, b0, b1, i, FromNat(tag, tagWidth));
    if st != Ok {
      FailedStill(st, next, b0, b1, i, FromNat(tag, tagWidth), EncInt(x));
      return;
    }
    st, next := WriteInt64(buf, n, next, w, x);
    WrittenField(st, next, b1, Bits(buf[..]), mid, OfInt(x)[..w]);
    WrittenTwice(st, mid, next, b0, b1, Bits(buf[..]), i, FromNat(tag, tagWidth), OfInt(x)[..w]);
  }

  /** Every bucket but the last holds only values that fit its field. */
  lemma IntFits(x: int)
    ensures -64 <= x <= 63 ==> FitsSigned(x, 7) && FitsSigned(x, 32)
    ensures -256 <= x <= 255 ==> FitsSigned(x, 9) && FitsSigned(x, 32)
    ensures -2048 <= x <= 2047 ==> FitsSigned(x, 12) && FitsSigned(x, 32)
  {
    Pow2Values();
  }

  /** A failed write of a first part is a failed write of the whole code. */
  lemma FailedStill(st: Status, next: nat, before: seq<bool>, after: seq<bool>, i: nat, f: seq<bool>, code: seq<bool>)
    requires st != Ok && Written(st, next, before, after, i, f)
    ensures Written(st, next, before, after, i, code)
  {
  }

  /** The part of a word a window keeps, as the field that is written. */
  lemma WindowField(x: Word, low: nat, sig: nat)
    requires 1 <= sig && low + sig <= 64
    requires forall k :: low + sig <= k < 64 ==> !x[k]
    ensures ToNat(Shr(x, low)) < Pow2(sig)
    ensures Shr(x, low)[..sig] == x[low..low + sig]
  {
    HighBitsClear(Shr(x, low), sig);
    hide ToNat;
    assert forall k :: 0 <= k < sig ==> Shr(x, low)[..sig][k] == x[low..low + sig][k];
  }

  /** The last field of a value code, after `head`. */
  method WriteWindow(buf: array<Word>, n: nat, i: nat, x: Word, low: nat, sig: nat) returns (st: Status, next: nat)
    requires buf.Length == n / 64 && 1 <= sig && low + sig <= 64
    requires forall k :: low + sig <= k < 64 ==> !x[k]
    modifies buf
    ensures st == if HasSpace(n, i, sig) then Ok else OutOfSpace
    ensures Written(st, next, old(Bits(buf[..])), Bits(buf[..]), i, x[low..low + sig])
  {
    hide Written, Splice, Bits, HasSpace, ToNat, Pow2, Shr;
    WindowField(x, low, sig);
    ghost var b0 := Bits(buf[..]);
    st, next := WriteUint64(buf, n, i, sig, Shr(x, low));
    WrittenField(st, next, b0, Bits(buf[..]), i, x[low..low + sig]);
  }

  /** Two constant fields in a row. */
  method WritePair(buf: array<Word>, n: nat, i: nat, w1: nat, v1: nat, w2: nat, v2: nat)
    returns (st: Status, next: nat)
    requires buf.Length == n / 64 && 1 <= w1 <= 6 && 1 <= w2 <= 6 && v1 < Pow2(w1) && v2 < Pow2(w2)
    modifies buf
    ensures st == if HasSpace(n, i, w1 + w2) then Ok else OutOfSpace
    ensures Written(st, next, old(Bits(buf[..])), Bits(buf[..]), i, FromNat(v1, w1) + FromNat(v2, w2))
  {
    hide Written, Splice, Bits, HasSpace, FromNat, Pow2;
    ghost var f1, f2 := FromNat(v1, w1), FromNat(v2, w2);
    ghost var b0 := Bits(buf[..]);
    st, next := WriteNat(buf, n, i, w1, v1);
    ghost var b1, mid := Bits(buf[..]), next;
    WrittenField(st, next, b0, b1, i, f1);
    if st != Ok {
      FailedStill(st, next, b0, b1, i, f1, f1 + f2);
      return;
    }
    st, next := WriteNat(buf, n, next, w2, v2);
    WrittenField(st, next, b1, Bits(buf[..]), mid, f2);
    WrittenTwice(st, mid, next, b0, b1, Bits(buf[..]), i, f1, f2);
  }

  /** tsc_write_double: the window is replaced only after every field has been written. */
  method WriteDouble(buf: array<Word>, n: nat, i: nat, x: Word, lead: nat, sig: nat)
    returns (st: Status, next: nat, lead': nat, sig': nat)
    requires buf.Length == n / 64 && WindowOk(lead, sig)
    modifies buf
    ensures st == if HasSpace(n, i, |EncDouble(x, lead, sig)|) then Ok else OutOfSpace
    ensures Written(st, next, old(Bits(buf[..])), Bits(buf[..]), i, EncDouble(x, lead, sig))
    ensures (lead', sig') == if st == Ok then WindowAfter(x, lead, sig) else (lead, sig)
  {
    hide Written, Splice, Bits, HasSpace, FromNat, ClampedLead, SigBits, Trail, Pow2, EncDouble, WindowAfter;
    TagField();
    lead', sig' := lead, sig;
    ghost var b0 := Bits(buf[..]);
    DoubleCode(x, lead, sig);
    if x == Zero() {
      st, next := WriteNat(buf, n, i, 1, 0);
      WrittenField(st, next, b0, Bits(buf[..]), i, [false]);
      return;
    }
    var leading, trailing, sigBits := ClampedLead(x), Trail(x), SigBits(x);
    var lastTrailing: int := 64 - lead - sig;
    if leading >= lead && trailing >= lastTrailing && 5 + 6 + sigBits >= sig {
      st, next := WriteReuse(buf, n, i, x, lastTrailing, sig);
    } else {
      st, next := WriteReset(buf, n, i, x, leading, sigBits);
      if st == Ok {
        lead', sig' := leading, sigBits;
      }
    }
  }

  lemma WrittenEnd(next: nat, before: seq<bool>, after: seq<bool>, i: nat, code: seq<bool>)
    requires Written(Ok, next, before, after, i, code)
    ensures next == i + |code| <= |before| == |after|
  {
  }

  /** The three shapes of a value code. */
  lemma DoubleCode(x: Word, lead: nat, sig: nat)
    requires WindowOk(lead, sig)
    ensures x == Zero() ==> EncDouble(x, lead, sig) == [false] && WindowAfter(x, lead, sig) == (lead, sig)
    ensures x != Zero() && ReuseWindow(x, lead, sig) ==>
      && 0 < sig && lead + sig <= 64 && (forall k :: 64 - lead <= k < 64 ==> !x[k])
      && EncDouble(x, lead, sig) == [true, false] + x[64 - lead - sig..64 - lead] && WindowAfter(x, lead, sig) == (lead, sig)
    ensures x != Zero() && !ReuseWindow(x, lead, sig) ==>
      && EncDouble(x, lead, sig) == [true, true] + FromNat(ClampedLead(x), 5) + FromNat(SigBits(x) % 64, 6)
                                    + x[Trail(x)..Trail(x) + SigBits(x)]
      && |EncDouble(x, lead, sig)| == 13 + SigBits(x) && WindowAfter(x, lead, sig) == (ClampedLead(x), SigBits(x))
  {
  }

  /** The branch that reuses the cached window. */
  method WriteReuse(buf: array<Word>, n: nat, i: nat, x: Word, trailing: nat, sig: nat) returns (st: Status, next: nat)
    requires buf.Length == n / 64 && 0 < sig && trailing + sig <= 64
    requires forall k :: trailing + sig <= k < 64 ==> !x[k]
    modifies buf
    ensures st == if HasSpace(n, i, 2 + sig) then Ok else OutOfSpace
    ensures Written(st, next, old(Bits(buf[..])), Bits(buf[..]), i, [true, false] + x[trailing..trailing + sig])
  {
    hide Written, Splice, Bits, HasSpace, FromNat, Pow2;
    TagField();
    ghost var b0, rest := Bits(buf[..]), x[trailing..trailing + sig];
    st, next := WritePair(buf, n, i, 1, 1, 1, 0);
    ghost var b1, mid := Bits(buf[..]), next;
    assert FromNat(1, 1) + FromNat(0, 1) == [true, false];
    if st != Ok {
      FailedStill(st, next, b0, b1, i, [true, false], [true, false] + rest);
      return;
    }
    WrittenEnd(next, b0, b1, i, [true, false]);
    st, next := WriteWindow(buf, n, next, x, trailing, sig);
    WrittenTwice(st, mid, next, b0, b1, Bits(buf[..]), i, [true, false], rest);
  }

  /** The branch that stores a new window. */
  method WriteReset(buf: array<Word>, n: nat, i: nat, x: Word, leading: nat, sigBits: nat)
    returns (st: Status, next: nat)
    requires buf.Length == n / 64 && x != Zero() && leading == ClampedLead(x) && sigBits == SigBits(x)
    modifies buf
    ensures st == if HasSpace(n, i, 13 + sigBits) then Ok else OutOfSpace
    ensures Written(st, next, old(Bits(buf[..])), Bits(buf[..]), i,
                    [true, true] + FromNat(leading, 5) + FromNat(sigBits % 64, 6) + x[Trail(x)..Trail(x) + sigBits])
  {
    hide Written, Splice, Bits, HasSpace, FromNat, ClampedLead, SigBits, Trail, Pow2;
    TagField();
    var trailing := Trail(x);
    ghost var f1, f2, f3 := [true, true], FromNat(leading, 5) + FromNat(sigBits % 64, 6), x[trailing..trailing + sigBits];
    ghost var code := f1 + FromNat(leading, 5) + FromNat(sigBits % 64, 6) + f3;
    assert code == f1 + f2 + f3;
    assert FromNat(1, 1) + FromNat(1, 1) == f1;
    ghost var b0 := Bits(buf[..]);
    st, next := WritePair(buf, n, i, 1, 1, 1, 1);
    ghost var b1, m1 := Bits(buf[..]), next;
    if st != Ok {
      FailedStill(st, next, b0, b1, i, f1, code);
      return;
    }
    WrittenEnd(next, b0, b1, i, f1);
    // a width of 64 is stored as 0
    st, next := WritePair(buf, n, next, 5, leading, 6, sigBits % 64);
    ghost var b2, m2 := Bits(buf[..]), next;
    WrittenTwice(st, m1, next, b0, b1, b2, i, f1, f2);
    if st != Ok {
      FailedStill(st, next, b0, b2, i, f1 + f2, code);
      return;
    }
    WrittenEnd(next, b0, b2, i, f1 + f2);
    st, next := WriteWindow(buf, n, next, x, trailing, sigBits);
    WrittenTwice(st, m2, next, b0, b2, Bits(buf[..]), i, f1 + f2, f3);
  }

  // ----- the two readers -----

  /** The buffer size the iterator passes to the bit readers (tsc.c:360). */
  const UNBOUNDED: nat := 9999999999999

  /** A one-bit read. */
  method ReadBit(buf: array<Word>, i: nat) returns (bit: bool)
    requires i + 1 <= 64 * buf.Length <= UNBOUNDED
    ensures bit == Bits(buf[..])[i]
  {
    hide Bits;
    var st, x := ReadUint64(buf, UNBOUNDED, i, 1);
    assert x[0] == Bits(buf[..])[i + 0];
    Bitstream.NonZero(x);
    bit := x != Zero();
  }

  method ReadSigned(buf: array<Word>, i: nat, w: nat) returns (value: int)
    requires 2 <= w <= 32 && i + w <= 64 * buf.Length <= UNBOUNDED
    ensures value == ToInt(Sext(Bits(buf[..]), i, w))
  {
    hide Bits;
    var st, x := ReadInt64(buf, UNBOUNDED, i, w);
    assert x == Sext(Bits(buf[..]), i, w);
    value := ToInt(x);
  }

  method ReadUnsigned(buf: array<Word>, i: nat, w: nat) returns (value: Word)
    requires 1 <= w <= 64 && i + w <= 64 * buf.Length <= UNBOUNDED
    ensures value == Zext(Bits(buf[..]), i, w)
  {
    hide Bits;
    var st, x := ReadUint64(buf, UNBOUNDED, i, w);
    assert x == Zext(Bits(buf[..]), i, w);
    value := x;
  }

  /** The number a short unsigned field denotes. */
  lemma {:induction false} ZextValue(bits: seq<bool>, i: nat, w: nat)
    requires w <= 64 && i + w <= |bits|
    ensures ToNat(Zext(bits, i, w)) == ToNat(bits[i..i + w])
  {
    hide FromNat, ToNat, Pow2;
    var field := bits[i..i + w];
    ToNatBound(field);
    FromNatToNat(field);
    Pow2Monotone(w, 64);
    FromNatWiden(ToNat(field), w, 64);
    ToNatFromNat(ToNat(field), 64);
    assert forall k :: 0 <= k < 64 ==> Zext(bits, i, w)[k] == FromNat(ToNat(field), 64)[k];
    assert Zext(bits, i, w) == FromNat(ToNat(field), 64);
  }

  /** tsc_read_int64 */
  method ReadInt(buf: array<Word>, i: nat) returns (value: int, bitsRead: nat)
    requires 64 * buf.Length <= UNBOUNDED && DecInt(Bits(buf[..]), i).Some?
    ensures DecInt(Bits(buf[..]), i) == Some((value, bitsRead))
  {
    hide Bits, Sext, ToInt;
    var b := ReadBit(buf, i);
    if !b { return 0, 1; }
    b := ReadBit(buf, i + 1);
    if !b { value := ReadSigned(buf, i + 2, 7); return value, 9; }
    b := ReadBit(buf, i + 2);
    if !b { value := ReadSigned(buf, i + 3, 9); return value, 12; }
    b := ReadBit(buf, i + 3);
    if !b { value := ReadSigned(buf, i + 4, 12); return value, 16; }
    value := ReadSigned(buf, i + 4, 32);
    return value, 36;
  }

  /** tsc_read_double */
  method ReadDouble(buf: array<Word>, i: nat, lead: nat, sig: nat)
    returns (value: Word, bitsRead: nat, lead': nat, sig': nat)
    requires 64 * buf.Length <= UNBOUNDED && DecDouble(Bits(buf[..]), i, lead, sig).Some?
    ensures DecDouble(Bits(buf[..]), i, lead, sig) == Some(Reading(value, bitsRead, lead', sig'))
  {
    hide Bits, Zext, Shl, ToNat;
    lead', sig' := lead, sig;
    var b := ReadBit(buf, i);
    if !b { return Zero(), 1, lead, sig; }
    b := ReadBit(buf, i + 1);
    if !b {
      var x := ReadUnsigned(buf, i + 2, sig);
      return Shl(x, 64 - sig - lead), 2 + sig, lead, sig;
    }
    var x := ReadUnsigned(buf, i + 2, 5);
    ZextValue(Bits(buf[..]), i + 2, 5);
    lead' := ToNat(x);
    x := ReadUnsigned(buf, i + 7, 6);
    ZextValue(Bits(buf[..]), i + 7, 6);
    sig' := if ToNat(x) == 0 then 64 else ToNat(x);
    x := ReadUnsigned(buf, i + 13, sig');
    return Shl(x, 64 - sig' - lead'), 13 + sig', lead', sig';
  }

  // ----- the iterator -----

  datatype IterStatus = Read | IterDone

  class TscIter {
    var y: Word
    var t: int
    var i: nat
    var r: nat
    var dt: int
    var lead: nat
    var sig: nat

    ghost function Position(): Cursor
      reads this
    {
      Cursor(y, t, i, r, dt, lead, sig)
    }

    /** tsc_iter_init */
    constructor ()
      ensures Position() == ORIGIN
    {
      y, t, i, r, dt, lead, sig := Zero(), 0, 0, 0, 0, 0, 0;
    }

    /** tsc_iter_next */
    method Next(numPts: nat, words: array<Word>) returns (st: IterStatus)
      requires 64 * words.Length <= UNBOUNDED
      requires i < numPts ==> ReadPoint(Bits(words[..]), Position()).Some?
      modifies this
      ensures st == if old(i) >= numPts then IterDone else Read
      ensures st == Read ==> Some(Position()) == old(ReadPoint(Bits(words[..]), Position()))
      ensures st == IterDone ==> Position() == old(Position())
    {
      if i >= numPts {
        return IterDone;
      }
      st := Read;
      if i == 0 { NextFirst(words); } else { NextLater(words); }
    }

    /** The first point: a whole timestamp and a double. */
    method NextFirst(words: array<Word>)
      requires 64 * words.Length <= UNBOUNDED && i == 0 && ReadPoint(Bits(words[..]), Position()).Some?
      modifies this
      ensures Some(Position()) == old(ReadPoint(Bits(words[..]), Position()))
    {
      hide Bits, DecInt, DecDouble;
      ghost var bits := Bits(words[..]);
      var rs, first := ReadInt64(words, UNBOUNDED, r, 64);
      assert first == bits[r..r + 64] by {
        forall k | 0 <= k < 64 ensures first[k] == bits[r..r + 64][k] {
          assert first[k] == bits[r + k];
        }
      }
      r := r + 64;
      var n;
      y, n, lead, sig := ReadDouble(words, r, lead, sig);
      r := r + n;
      dt := 0;
      t := ToInt(first);
      i := i + 1;
    }

    /** A later point: the change of the delta and an XORed double. */
    method NextLater(words: array<Word>)
      requires 64 * words.Length <= UNBOUNDED && i > 0 && ReadPoint(Bits(words[..]), Position()).Some?
      modifies this
      ensures Some(Position()) == old(ReadPoint(Bits(words[..]), Position()))
    {
      hide Bits, DecInt, DecDouble;
      var code, n := ReadInt(words, r);
      r := r + n;
      var x;
      x, n, lead, sig := ReadDouble(words, r, lead, sig);
      r := r + n;
      dt := Wrap(dt + code);
      t := Wrap(t + dt);
      y := Xor(y, x);
      i := i + 1;
    }
  }

  /** The read loop of storage_get over one block: it yields exactly the points that were
      encoded, whatever the buffer holds after them. */
  method ReadBlock(numPts: nat, words: array<Word>, ghost ps: seq<Point>) returns (out: seq<Point>)
    requires 64 * words.Length <= UNBOUNDED
    requires Encodable(ps) && numPts == |ps| && Encode(ps) <= Bits(words[..])
    ensures out == ps
  {
    hide Bits, Encode, Encodable, ReadPoint, HeaderOf;
    var iter := new TscIter();
    out := [];
    assert ps[..0] == [];
    EmptyHeader();
    var st := Read;
    while st == Read
      invariant |out| <= |ps| && out == ps[..|out|] && Encodable(out)
      invariant iter.Position() == CursorAt(HeaderOf(out))
      invariant st == IterDone ==> |out| == |ps|
      decreases |ps| - |out|, if st == Read then 1 else 0
    {
      ghost var k := |out|;
      if k < |ps| {
        StepRoundTrip(Bits(words[..]), ps, k);
      }
      st := iter.Next(numPts, words);
      if st == Read {
        out := out + [Point(iter.t, iter.y)];
        assert out == ps[..k + 1];
      }
    }
  }

  lemma EmptyHeader()
    ensures Encodable([]) && HeaderOf([]) == CLEAR && CursorAt(HeaderOf([])) == ORIGIN && Encode([]) == []
  {
  }

  // ----- the compressor -----

  datatype AddStatus = Added | BlockFull | OutOfOrder | Rejected(why: Status)

  /** What tsc_add answers, as a function of the buffer size in bits, the points already
      in the block and the new point. */
  function AddOutcome(n: nat, ps: seq<Point>, p: Point): (st: AddStatus)
    requires Encodable(ps) && IsInt64(p.t)
  {
    var h := HeaderOf(ps);
    if n - h.bits < 18 * 8 then BlockFull
    else if h.pts == 0 then
      if HasSpace(n, h.bits, |PointBits(h, p)|) then Added else Rejected(OutOfSpace)
    else if p.t <= h.lastT then OutOfOrder
    else if !HasSpace(n, h.bits, |EncInt(TimeCode(h, p))|) then Rejected(OutOfSpace)
    else if !FitsSigned(TimeCode(h, p), 32) then Rejected(BadValue)
    else if HasSpace(n, h.bits, |PointBits(h, p)|) then Added else Rejected(OutOfSpace)
  }

  lemma EncodedFits(ps: seq<Point>, bits: seq<bool>)
    requires Encodable(ps) && Encode(ps) <= bits
    ensures HeaderOf(ps).bits <= |bits|
  {
  }

  /** The first timestamp is a 64-bit field at bit 0. */
  lemma FirstField(st: Status, next: nat, before: seq<bool>, after: seq<bool>, t: int)
    requires IsInt64(t)
    requires st == Ok ==> next == 64 && 64 <= |before| && after == Splice(before, 0, OfInt(t)[..64])
    requires st != Ok ==> after == before
    ensures Written(st, next, before, after, 0, OfInt(t))
  {
    assert OfInt(t)[..64] == OfInt(t);
    WrittenField(st, next, before, after, 0, OfInt(t));
  }

  /** A failed write leaves the encoded points in place. */
  lemma WrittenKeeps(st: Status, next: nat, before: seq<bool>, after: seq<bool>, i: nat, code: seq<bool>, ps: seq<Point>)
    requires Encodable(ps) && i == HeaderOf(ps).bits && Encode(ps) <= before
    requires Written(st, next, before, after, i, code)
    ensures Encode(ps) <= after
  {
    hide Encode, HeaderOf, Splice;
    assert after[..i] == before[..i] == Encode(ps);
  }

  /** A successful write of a point's code extends the encoding by that point. */
  lemma Appended(ps: seq<Point>, p: Point, before: seq<bool>, after: seq<bool>, next: nat)
    requires Encodable(ps) && Representable(HeaderOf(ps), p) && Encode(ps) <= before
    requires Written(Ok, next, before, after, HeaderOf(ps).bits, PointBits(HeaderOf(ps), p))
    ensures Encodable(ps + [p]) && HeaderOf(ps + [p]) == After(HeaderOf(ps), p)
    ensures Encode(ps + [p]) <= after && next == HeaderOf(ps + [p]).bits
  {
    var qs := ps + [p];
    assert qs[..|qs| - 1] == ps && qs[|qs| - 1] == p;
    AppendUnfolds(ps, p, qs);
    hide PointBits, Encodable, HeaderOf, Encode;
    var h := HeaderOf(ps);
    SpliceKeepsPrefix(before, h.bits, PointBits(h, p));
    assert before[..h.bits] == Encode(ps);
  }

  lemma AppendUnfolds(ps: seq<Point>, p: Point, qs: seq<Point>)
    requires Encodable(ps) && Representable(HeaderOf(ps), p)
    requires qs != [] && qs[..|qs| - 1] == ps && qs[|qs| - 1] == p
    ensures Encodable(qs) && HeaderOf(qs) == After(HeaderOf(ps), p)
    ensures Encode(qs) == Encode(ps) + PointBits(HeaderOf(ps), p)
  {
    hide PointBits, Representable;
  }

  /** memcpy of a whole buffer */
  method CopyWords(words: array<Word>, data: seq<Word>)
    requires |data| == words.Length
    modifies words
    ensures words[..] == data
  {
    forall i | 0 <= i < words.Length {
      words[i] := data[i];
    }
  }

  /** tsc.c:15: the largest buffer, in bits. */
  const MAX_NUM_VALID_BITS: nat := 536870912

  class TscBlock {
    var lastTimestamp: int
    var lastTimestampDelta: int
    var prevValue: Word
    var numValidBits: nat
    var lastLeading: nat
    var lastSigbits: nat
    var numPts: nat
    /** The buffer after the point count: n bits, of which whole words are used. */
    const n: nat
    const words: array<Word>
    ghost var points: seq<Point>

    ghost function Fields(): Header
      reads this
    {
      Header(lastTimestamp, lastTimestampDelta, prevValue, numValidBits, lastLeading, lastSigbits, numPts)
    }

    ghost predicate Valid()
      reads this, words
    {
      && n <= MAX_NUM_VALID_BITS && words.Length == n / 64
      && Encodable(points) && Fields() == HeaderOf(points)
      && Encode(points) <= Bits(words[..])
    }

    /** tsc_init: the buffer's contents are whatever memory held. */
    constructor (dataLen: nat, garbage: seq<Word>)
      requires 4 <= dataLen && dataLen * 8 <= MAX_NUM_VALID_BITS && |garbage| == (dataLen - 4) * 8 / 64
      ensures Valid() && points == [] && n == (dataLen - 4) * 8 && fresh(words) && words[..] == garbage
    {
      n := (dataLen - 4) * 8;
      words := new Word[|garbage|](i requires 0 <= i < |garbage| => garbage[i]);
      lastTimestamp, lastTimestampDelta, prevValue := 0, 0, Zero();
      numValidBits, lastLeading, lastSigbits, numPts := 0, 0, 0, 0;
      points := [];
      new;
      assert words[..] == garbage;
    }

    /** tsc_clear */
    method Clear()
      requires Valid()
      modifies this
      ensures Valid() && points == []
    {
      hide Bits, HeaderOf, Encode, Encodable;
      EmptyHeader();
      lastTimestamp, lastTimestampDelta, prevValue := 0, 0, Zero();
      numValidBits, lastLeading, lastSigbits, numPts := 0, 0, 0, 0;
      points := [];
    }

    /** tsc_load_block: a header written by tsc_serialize_header and the data it belongs to
        restore the compressor, with the same points and so the same answers later. */
    method LoadBlock(s: seq<TscHeader.Bytes.Byte>, count: nat, data: seq<Word>, ghost ps: seq<Point>)
      requires Valid() && |s| == TscHeader.SERIALIZED_SIZE && |data| == words.Length
      requires Encodable(ps) && HeaderOf(ps).bits <= n && count == |ps| && Encode(ps) <= Bits(data)
      requires s == TscHeader.Serialize(HeaderOf(ps))
      modifies this, words
      ensures Valid() && points == ps && words[..] == data
      ensures Fields() == HeaderOf(ps)
    {
      hide Bits, Encode, Encodable, HeaderOf, TscHeader.Serialize, TscHeader.Deserialize;
      Clear();
      CopyWords(words, data);
      TscHeader.HeaderRoundTrip(HeaderOf(ps));
      var h := TscHeader.Deserialize(s, count);
      lastTimestamp, lastTimestampDelta, prevValue := h.lastT, h.lastDelta, h.prev;
      numValidBits, lastLeading, lastSigbits, numPts := h.bits, h.lead, h.sig, h.pts;
      points := ps;
    }

    /** tsc_add */
    method Add(t: int, y: Word) returns (st: AddStatus)
      requires Valid() && IsInt64(t)
      modifies this, words
      ensures Valid()
      ensures st == AddOutcome(n, old(points), Point(t, y))
      ensures points == old(points) + if st == Added then [Point(t, y)] else []
      ensures st != Added ==> Fields() == old(Fields())
    {
      hide Bits, Written, HasSpace, EncInt, EncDouble, HeaderOf, Encode, Encodable, FitsSigned, WindowAfter;
      ghost var h, p := HeaderOf(points), Point(t, y);
      ghost var before := Bits(words[..]);
      EncodedFits(points, before);
      if n - numValidBits < 18 * 8 {
        return BlockFull;
      }
      var ws, next, lead, sig;
      if numPts == 0 {
        ws, next, lead, sig := WriteFirst(words, n, t, y);
      } else {
        if t <= lastTimestamp {
          return OutOfOrder;
        }
        var tDelta := Wrap(t - lastTimestamp);
        // for the second point the remembered delta is still zero
        var code := if numPts == 1 then tDelta else Wrap(tDelta - lastTimestampDelta);
        ws, next, lead, sig := WriteLater(words, n, numValidBits, code, Xor(prevValue, y), lastLeading, lastSigbits);
      }
      if ws != Ok {
        WrittenKeeps(ws, next, before, Bits(words[..]), h.bits, PointBits(h, p), points);
        return Rejected(ws);
      }
      if numPts > 0 {
        lastTimestampDelta := Wrap(t - lastTimestamp);
      }
      lastLeading, lastSigbits := lead, sig;
      numValidBits := next;
      lastTimestamp := t;
      prevValue := y;
      numPts := numPts + 1;
      points := points + [p];
      Appended(old(points), p, before, Bits(words[..]), next);
      st := Added;
    }
  }

  /** The first point of a block: 64 timestamp bits, then the value itself. */
  method WriteFirst(words: array<Word>, n: nat, t: int, y: Word) returns (st: Status, next: nat, lead: nat, sig: nat)
    requires words.Length == n / 64 && IsInt64(t)
    modifies words
    ensures st == if HasSpace(n, 0, 64 + |EncDouble(y, 0, 0)|) then Ok else OutOfSpace
    ensures Written(st, next, old(Bits(words[..])), Bits(words[..]), 0, OfInt(t) + EncDouble(y, 0, 0))
    ensures st == Ok ==> (lead, sig) == WindowAfter(y, 0, 0)
  {
    hide Bits, Splice, Written, HasSpace, EncDouble, WindowAfter, OfInt;
    ghost var before := Bits(words[..]);
    FitsSixtyFour(t);
    st, next := WriteInt64(words, n, 0, 64, t);
    ghost var mid, m := next, Bits(words[..]);
    FirstField(st, mid, before, m, t);
    if st != Ok {
      FailedStill(st, next, before, m, 0, OfInt(t), OfInt(t) + EncDouble(y, 0, 0));
      return st, next, 0, 0;
    }
    st, next, lead, sig := WriteDouble(words, n, next, y, 0, 0);
    WrittenTwice(st, mid, next, before, m, Bits(words[..]), 0, OfInt(t), EncDouble(y, 0, 0));
  }

  lemma FitsSixtyFour(t: int)
    requires IsInt64(t)
    ensures FitsSigned(t, 64)
  {
    Pow2Values();
  }

  /** A later point: delta of deltas, then the XOR with the previous value. */
  method WriteLater(words: array<Word>, n: nat, i: nat, code: int, x: Word, lead: nat, sig: nat)
    returns (st: Status, next: nat, lead': nat, sig': nat)
    requires words.Length == n / 64 && IsInt64(code) && WindowOk(lead, sig)
    modifies words
    ensures st == if !HasSpace(n, i, |EncInt(code)|) then OutOfSpace
                  else if !FitsSigned(code, 32) then BadValue
                  else if HasSpace(n, i, |EncInt(code)| + |EncDouble(x, lead, sig)|) then Ok else OutOfSpace
    ensures Written(st, next, old(Bits(words[..])), Bits(words[..]), i, EncInt(code) + EncDouble(x, lead, sig))
    ensures st == Ok ==> (lead', sig') == WindowAfter(x, lead, sig)
  {
    hide Bits, Splice, Written, HasSpace, EncInt, EncDouble, WindowAfter, FitsSigned;
    ghost var before := Bits(words[..]);
    ghost var f, g := EncInt(code), EncDouble(x, lead, sig);
    st, next := WriteInt(words, n, i, code);
    ghost var mid, m := next, Bits(words[..]);
    if st != Ok {
      FailedStill(st, next, before, m, i, f, f + g);
      return st, next, lead, sig;
    }
    WrittenEnd(next, before, m, i, f);
    st, next, lead', sig' := WriteDouble(words, n, next, x, lead, sig);
    WrittenTwice(st, mid, next, before, m, Bits(words[..]), i, f, g);
  }
}
