/** Fields of up to 64 bits at any bit offset of a buffer of 64-bit words. A buffer
    denotes the string of its bits; a write splices a field into that string. */
module Bitstream {
  import opened Words

  datatype Status = Ok | BadValue | OutOfSpace

  /** The bit string a run of words denotes. */
  ghost function Bits(ws: seq<Word>): (bs: seq<bool>)
    ensures |bs| == 64 * |ws|
    ensures forall k :: 0 <= k < 64 * |ws| ==> bs[k] == ws[k / 64][k % 64]
  {
    seq(64 * |ws|, k requires 0 <= k < 64 * |ws| => ws[k / 64][k % 64])
  }

  ghost function Splice(bs: seq<bool>, i: nat, field: seq<bool>): (r: seq<bool>)
    requires i + |field| <= |bs|
    ensures |r| == |bs|
    ensures forall k :: 0 <= k < |bs| ==> r[k] == if i <= k < i + |field| then field[k - i] else bs[k]
  {
    bs[..i] + field + bs[i + |field|..]
  }

  /** The space check of both writers: the end of the field, rounded up to a word,
      lies inside the buffer. */
  predicate HasSpace(bufBits: nat, i: nat, w: nat)
    ensures HasSpace(bufBits, i, w) <==> i + w <= 64 * (bufBits / 64)
  {
    var required := i + w;
    var extra := required % 64;
    (if extra != 0 then required + (64 - extra) else required) <= bufBits
  }

  /** Where bit k of the buffer lies relative to a field starting at bit i. */
  lemma BitPosition(i: nat, k: nat)
    ensures k / 64 == i / 64 ==> k % 64 - i % 64 == k - i
    ensures k / 64 == i / 64 + 1 ==> k % 64 + 64 - i % 64 == k - i
    ensures k / 64 < i / 64 ==> k < i
    ensures k / 64 > i / 64 + 1 ==> k > i + 64
  {
  }

  lemma NonZero(a: Word)
    ensures a != Zero() <==> exists k :: 0 <= k < 64 && a[k]
  {
    if forall k :: 0 <= k < 64 ==> !a[k] {
      assert a == Zero();
    }
  }

  /** The high mask of a field at bit j of a word is set exactly when the field crosses. */
  lemma SecondWordTouched(w: nat, j: nat)
    requires 1 <= w <= 64 && 1 <= j < 64
    ensures Shr(BitMask(w), 64 - j) != Zero() <==> j + w > 64
  {
    var m := Shr(BitMask(w), 64 - j);
    NonZero(m);
    assert m[0] == (64 - j < w);
  }

  /** The masked store both writers share (bitstream.c:81-131 and 174-225): `low` and
      `high` carry the field bits to the first and the second word it touches. */
  method StoreField(buf: array<Word>, i: nat, w: nat, value: Word, high: Word)
    requires 1 <= w <= 64 && i + w <= 64 * buf.Length
    requires forall k :: 0 <= k < i % 64 ==> high[k] == value[k + 64 - i % 64]
    modifies buf
    ensures Bits(buf[..]) == Splice(old(Bits(buf[..])), i, value[..w])
  {
    var vmask := BitMask(w);
    var p := i / 64;
    var j := i % 64;
    ghost var before := buf[..];
    if j == 0 {
      buf[p] := Or(And(buf[p], Not(vmask)), And(value, vmask));
    } else {
      var low := Shl(value, j);
      var lowMask := Shl(vmask, j);
      var highMask := Shr(vmask, 64 - j);
      assert lowMask[j];
      buf[p] := Or(And(buf[p], Not(lowMask)), And(low, lowMask));
      SecondWordTouched(w, j);
      if highMask != Zero() {
        buf[p + 1] := Or(And(buf[p + 1], Not(highMask)), And(high, highMask));
      }
    }
    forall k | 0 <= k < 64 * buf.Length
      ensures Bits(buf[..])[k] == Splice(Bits(before), i, value[..w])[k]
    {
      BitPosition(i, k);
    }
  }

  /** bitstream_write_uint64 */
  method WriteUint64(buf: array<Word>, bufBits: nat, i: nat, w: nat, value: Word)
    returns (st: Status, next: nat)
    requires buf.Length == bufBits / 64 && 1 <= w <= 64
    modifies buf
    ensures st == if !HasSpace(bufBits, i, w) then OutOfSpace
                  else if ToNat(value) >= Pow2(w) then BadValue else Ok
    ensures st == Ok ==> next == i + w
    ensures st == Ok ==> Bits(buf[..]) == Splice(old(Bits(buf[..])), i, value[..w])
    ensures st != Ok ==> next == i && buf[..] == old(buf[..])
  {
    next := i;
    if !HasSpace(bufBits, i, w) {
      return OutOfSpace, i;
    }
    HighBitsClear(value, w);
    var extra := And(value, Not(BitMask(w)));
    NonZero(extra);
    if extra != Zero() {
      return BadValue, i;
    }
    assert forall k :: w <= k < 64 ==> value[k] == extra[k];
    StoreField(buf, i, w, value, Shr(value, 64 - i % 64));
    return Ok, i + w;
  }

  /** bitstream_write_int64 */
  method WriteInt64(buf: array<Word>, bufBits: nat, i: nat, w: nat, value: int)
    returns (st: Status, next: nat)
    requires buf.Length == bufBits / 64 && 2 <= w <= 64 && IsInt64(value)
    modifies buf
    ensures st == if !HasSpace(bufBits, i, w) then OutOfSpace
                  else if !FitsSigned(value, w) then BadValue else Ok
    ensures st == Ok ==> next == i + w
    ensures st == Ok ==> Bits(buf[..]) == Splice(old(Bits(buf[..])), i, OfInt(value)[..w])
    ensures st != Ok ==> next == i && buf[..] == old(buf[..])
  {
    next := i;
    if !HasSpace(bufBits, i, w) {
      return OutOfSpace, i;
    }
    var v := OfInt(value);
    SignBits(value, w);
    OfIntValue(value);
    Pow2Values();
    if w < 64 {
      if value < 0 {
        // the comparison is unsigned in C: value against 2^64 - 2^(w-1)
        if ToNat(v) < TWO64 - Pow2(w - 1) {
          return BadValue, i;
        }
      } else {
        var extra := And(v, Not(BitMask(w - 1)));
        NonZero(extra);
        if extra != Zero() {
          return BadValue, i;
        }
        assert forall k :: w - 1 <= k < 64 ==> v[k] == extra[k];
      }
    }
    StoreField(buf, i, w, v, Sar(v, 64 - i % 64));
    return Ok, i + w;
  }

  /** The masked load both readers share. */
  method LoadField(buf: array<Word>, i: nat, w: nat) returns (value: Word)
    requires 1 <= w <= 64 && i + w <= 64 * buf.Length
    ensures forall k :: 0 <= k < 64 ==> value[k] == (k < w && Bits(buf[..])[i + k])
  {
    var vmask := BitMask(w);
    var p := i / 64;
    var j := i % 64;
    if j == 0 {
      value := And(buf[p], vmask);
    } else {
      var lowMask := Shl(vmask, j);
      var highMask := Shr(vmask, 64 - j);
      var high := Zero();
      assert lowMask[j];
      var low := And(buf[p], lowMask);
      SecondWordTouched(w, j);
      if highMask != Zero() {
        high := And(buf[p + 1], highMask);
      }
      value := Or(Shr(low, j), Shl(high, 64 - j));
    }
    forall k | 0 <= k < 64
      ensures value[k] == (k < w && Bits(buf[..])[i + k])
    {
      if k < w { BitPosition(i, i + k); }
    }
  }

  /** bitstream_read_uint64. A caller may pass any buffer size of at least the words
      it owns; the requires keeps the load inside those words. */
  method ReadUint64(buf: array<Word>, bufBits: nat, i: nat, w: nat) returns (st: Status, value: Word)
    requires 1 <= w <= 64
    requires i + w <= bufBits ==> i + w <= 64 * buf.Length
    ensures st == if i + w > bufBits then OutOfSpace else Ok
    ensures st == Ok ==> forall k :: 0 <= k < 64 ==> value[k] == (k < w && Bits(buf[..])[i + k])
  {
    if i + w > bufBits {
      return OutOfSpace, Zero();
    }
    value := LoadField(buf, i, w);
    st := Ok;
  }

  /** `(int64_t)( 1 << ( w - 1 ) )` of bitstream.c:241: an `int` shift that is then sign
      extended, so from bit 31 up it sets every higher bit as well. */
  function SignMask(w: nat): (m: Word)
    requires 2 <= w <= 32 || w == 64
  {
    var shift := (w - 1) % 32;
    seq(64, k => k == shift || (shift == 31 && k > 31))
  }

  /** On a zero-extended field the sign mask tests exactly the field's top bit. */
  lemma SignMaskTests(raw: Word, w: nat)
    requires 2 <= w <= 32 || w == 64
    requires forall k :: w <= k < 64 ==> !raw[k]
    ensures w < 64 ==> (And(raw, SignMask(w)) != Zero() <==> raw[w - 1])
  {
    var m := And(raw, SignMask(w));
    NonZero(m);
    if w < 64 {
      assert m[w - 1] == raw[w - 1];
    }
  }

  /** bitstream_read_int64, for the widths its sign mask supports. */
  method ReadInt64(buf: array<Word>, bufBits: nat, i: nat, w: nat) returns (st: Status, value: Word)
    requires 2 <= w <= 32 || w == 64
    requires i + w <= bufBits ==> i + w <= 64 * buf.Length
    ensures st == if i + w > bufBits then OutOfSpace else Ok
    ensures st == Ok ==> forall k :: 0 <= k < 64 ==>
      value[k] == if k < w then Bits(buf[..])[i + k] else Bits(buf[..])[i + w - 1]
  {
    if i + w > bufBits {
      return OutOfSpace, Zero();
    }
    st := Ok;
    var raw := LoadField(buf, i, w);
    value := raw;
    SignMaskTests(raw, w);
    if i % 64 == 0 || w < 64 {
      if And(raw, SignMask(w)) != Zero() {
        value := Or(raw, Not(BitMask(w)));
      }
    }
  }

  /** What an unsigned read returns after an unsigned write at the same place. */
  lemma UnsignedReadBack(bits: seq<bool>, i: nat, w: nat, value: Word, read: Word)
    requires 1 <= w <= 64 && i + w <= |bits| && ToNat(value) < Pow2(w)
    requires forall k :: 0 <= k < 64 ==> read[k] == (k < w && Splice(bits, i, value[..w])[i + k])
    ensures read == value
  {
    HighBitsClear(value, w);
    assert forall k :: 0 <= k < 64 ==> read[k] == value[k];
  }

  /** What a signed read returns after a signed write at the same place. */
  lemma SignedReadBack(bits: seq<bool>, i: nat, w: nat, value: int, read: Word)
    requires (2 <= w <= 32 || w == 64) && i + w <= |bits| && IsInt64(value) && FitsSigned(value, w)
    requires forall k :: 0 <= k < 64 ==>
      read[k] == if k < w then Splice(bits, i, OfInt(value)[..w])[i + k] else Splice(bits, i, OfInt(value)[..w])[i + w - 1]
    ensures ToInt(read) == value
  {
    SignBits(value, w);
    OfIntValue(value);
    assert forall k :: 0 <= k < 64 ==> read[k] == OfInt(value)[k];
    assert read == OfInt(value);
  }
}
