/** The 64-bit machine word of the block codec, least significant bit first, with
    the C operators the codec uses on it and its two numeric readings. */
module Words {

  type Word = w: seq<bool> | |w| == 64 witness seq(64, i => false)

  function Zero(): (z: Word)
    ensures forall k :: 0 <= k < 64 ==> !z[k]
  {
    seq(64, k => false)
  }

  // ----- C operators -----

  /** `bit_mask`: 2^x - 1 as a word, which has exactly its x low bits set. */
  function BitMask(x: nat): (m: Word)
    requires x <= 64
    ensures forall k :: 0 <= k < 64 ==> m[k] == (k < x)
  {
    OnesBits(x, Pow2(x) - 1, 64);
    FromNat(Pow2(x) - 1, 64)
  }

  /** The binary digits of 2^x - 1. */
  lemma {:induction false} OnesBits(x: nat, v: nat, w: nat)
    requires x <= w && v == Pow2(x) - 1
    ensures forall k :: 0 <= k < w ==> FromNat(v, w)[k] == (k < x)
    decreases w
  {
    if w > 0 {
      OnesBits(if x == 0 then 0 else x - 1, v / 2, w - 1);
      assert FromNat(v, w) == [v % 2 == 1] + FromNat(v / 2, w - 1);
    }
  }

  function And(a: Word, b: Word): (r: Word)
    ensures forall k :: 0 <= k < 64 ==> r[k] == (a[k] && b[k])
  {
    seq(64, k requires 0 <= k < 64 => a[k] && b[k])
  }

  function Or(a: Word, b: Word): (r: Word)
    ensures forall k :: 0 <= k < 64 ==> r[k] == (a[k] || b[k])
  {
    seq(64, k requires 0 <= k < 64 => a[k] || b[k])
  }

  function Xor(a: Word, b: Word): (r: Word)
    ensures forall k :: 0 <= k < 64 ==> r[k] == (a[k] != b[k])
  {
    seq(64, k requires 0 <= k < 64 => a[k] != b[k])
  }

  function Not(a: Word): (r: Word)
    ensures forall k :: 0 <= k < 64 ==> r[k] == !a[k]
  {
    seq(64, k requires 0 <= k < 64 => !a[k])
  }

  /** `a << j` */
  function Shl(a: Word, j: nat): (r: Word)
    ensures forall k :: 0 <= k < 64 ==> r[k] == (j <= k && a[k - j])
  {
    seq(64, k requires 0 <= k < 64 => j <= k && a[k - j])
  }

  /** `a >> j` on an unsigned operand */
  function Shr(a: Word, j: nat): (r: Word)
    ensures forall k :: 0 <= k < 64 ==> r[k] == (k + j < 64 && a[k + j])
  {
    seq(64, k requires 0 <= k < 64 => k + j < 64 && a[k + j])
  }

  /** `a >> j` on a signed operand: the sign bit is copied in. */
  function Sar(a: Word, j: nat): (r: Word)
    ensures forall k :: 0 <= k < 64 ==> r[k] == (if k + j < 64 then a[k + j] else a[63])
  {
    seq(64, k requires 0 <= k < 64 => if k + j < 64 then a[k + j] else a[63])
  }

  // ----- numeric readings -----

  function Pow2(n: nat): (r: nat)
    ensures r >= 1
  {
    if n == 0 then 1 else 2 * Pow2(n - 1)
  }

  const TWO63: int := 0x8000_0000_0000_0000
  const TWO64: int := 0x1_0000_0000_0000_0000

  lemma Pow2Values()
    ensures Pow2(5) == 32 && Pow2(6) == 64 && Pow2(7) == 128 && Pow2(9) == 512 && Pow2(12) == 4096
    ensures Pow2(8) == 256 && Pow2(11) == 2048 && Pow2(31) == 0x8000_0000 && Pow2(32) == 0x1_0000_0000
    ensures Pow2(63) == TWO63 && Pow2(64) == TWO64
  {
    assert Pow2(8) == 256;
    assert Pow2(16) == 65536;
    assert Pow2(24) == 0x100_0000;
    assert Pow2(32) == 0x1_0000_0000;
    assert Pow2(40) == 0x100_0000_0000;
    assert Pow2(48) == 0x1_0000_0000_0000;
    assert Pow2(56) == 0x100_0000_0000_0000;
    assert Pow2(64) == TWO64;
  }

  lemma {:induction false} Pow2Monotone(a: nat, b: nat)
    requires a <= b
    ensures Pow2(a) <= Pow2(b)
    decreases b
  {
    if a < b { Pow2Monotone(a, b - 1); }
  }

  /** Unsigned value of a bit string. */
  function ToNat(bs: seq<bool>): (v: nat)
  {
    if bs == [] then 0 else (if bs[0] then 1 else 0) + 2 * ToNat(bs[1..])
  }

  /** The w-bit string of a value. */
  function FromNat(v: nat, w: nat): (bs: seq<bool>)
    ensures |bs| == w
  {
    if w == 0 then [] else [v % 2 == 1] + FromNat(v / 2, w - 1)
  }

  lemma {:induction false} ToNatBound(bs: seq<bool>)
    ensures ToNat(bs) < Pow2(|bs|)
  {
    if bs != [] { ToNatBound(bs[1..]); }
  }

  lemma {:induction false} ToNatFromNat(v: nat, w: nat)
    requires v < Pow2(w)
    ensures ToNat(FromNat(v, w)) == v
    decreases w
  {
    if w > 0 {
      ToNatFromNat(v / 2, w - 1);
      assert FromNat(v, w)[1..] == FromNat(v / 2, w - 1);
    }
  }

  lemma {:induction false} FromNatToNat(bs: seq<bool>)
    ensures FromNat(ToNat(bs), |bs|) == bs
  {
    if bs != [] {
      FromNatToNat(bs[1..]);
      assert ToNat(bs) / 2 == ToNat(bs[1..]);
      assert bs == [bs[0]] + bs[1..];
    }
  }

  /** Widening with zero bits does not change the value. */
  lemma {:induction false} FromNatWiden(v: nat, w: nat, wide: nat)
    requires v < Pow2(w) && w <= wide
    ensures forall k :: 0 <= k < wide ==> FromNat(v, wide)[k] == (k < w && FromNat(v, w)[k])
    decreases wide
  {
    if wide > 0 {
      if w == 0 {
        FromNatWiden(0, 0, wide - 1);
        assert FromNat(0, wide) == [false] + FromNat(0, wide - 1);
      } else {
        FromNatWiden(v / 2, w - 1, wide - 1);
        assert FromNat(v, wide) == [v % 2 == 1] + FromNat(v / 2, wide - 1);
        assert FromNat(v, w) == [v % 2 == 1] + FromNat(v / 2, w - 1);
      }
    }
  }

  /** A value is below 2^k exactly when every bit from k up is clear. */
  lemma {:induction false} HighBitsClear(bs: seq<bool>, k: nat)
    requires k <= |bs|
    ensures ToNat(bs) < Pow2(k) <==> (forall i :: k <= i < |bs| ==> !bs[i])
  {
    if bs != [] {
      if k > 0 {
        HighBitsClear(bs[1..], k - 1);
        assert forall i :: k <= i < |bs| ==> bs[i] == bs[1..][i - 1];
        assert forall i :: k - 1 <= i < |bs| - 1 ==> bs[1..][i] == bs[i + 1];
      } else {
        HighBitsClear(bs[1..], 0);
        assert forall i :: 0 <= i < |bs| - 1 ==> bs[1..][i] == bs[i + 1];
        assert forall i :: 1 <= i < |bs| ==> bs[i] == bs[1..][i - 1];
      }
    }
  }

  /** A value is at least 2^n - 2^k exactly when every bit from k up is set. */
  lemma {:induction false} HighBitsSet(bs: seq<bool>, k: nat)
    requires k <= |bs|
    ensures ToNat(bs) >= Pow2(|bs|) - Pow2(k) <==> (forall i :: k <= i < |bs| ==> bs[i])
  {
    ToNatBound(bs);
    if bs != [] {
      ToNatBound(bs[1..]);
      if k > 0 {
        HighBitsSet(bs[1..], k - 1);
        assert forall i :: k <= i < |bs| ==> bs[i] == bs[1..][i - 1];
        assert forall i :: k - 1 <= i < |bs| - 1 ==> bs[1..][i] == bs[i + 1];
      } else {
        HighBitsSet(bs[1..], 0);
        assert forall i :: 0 <= i < |bs| - 1 ==> bs[1..][i] == bs[i + 1];
        assert forall i :: 1 <= i < |bs| ==> bs[i] == bs[1..][i - 1];
      }
    }
  }

  predicate IsInt64(x: int) { -TWO63 <= x < TWO63 }

  /** int64 arithmetic as two's complement machines do it: modulo 2^64. */
  function Wrap(x: int): (r: int)
    ensures IsInt64(r)
    ensures IsInt64(x) ==> r == x
  {
    (x + TWO63) % TWO64 - TWO63
  }

  /** Wrapping differs from the plain result by a multiple of 2^64 only, so a wrapped
      difference added back, wrapping again, restores the int64 it came from. */
  lemma WrapUndoes(base: int, d: int, target: int)
    requires IsInt64(target) && Wrap(target - base) == Wrap(d)
    ensures Wrap(base + d) == target
  {
    var i, j := (target - base + TWO63) / TWO64, (d + TWO63) / TWO64;
    assert target - base - i * TWO64 == d - j * TWO64;
    assert base + d + TWO63 == (target + TWO63) + (j - i) * TWO64;
    assert (base + d + TWO63) % TWO64 == target + TWO63;
  }

  /** Two's complement word of an int64. */
  function OfInt(x: int): (w: Word)
    requires -TWO63 <= x < TWO63
  {
    FromNat(if x < 0 then x + TWO64 else x, 64)
  }

  /** The int64 a word denotes. */
  function ToInt(w: Word): (x: int)
  {
    if w[63] then ToNat(w) - TWO64 else ToNat(w)
  }

  lemma OfIntValue(x: int)
    requires IsInt64(x)
    ensures ToNat(OfInt(x)) == if x < 0 then x + TWO64 else x
    ensures OfInt(x)[63] == (x < 0)
    ensures ToInt(OfInt(x)) == x
  {
    Pow2Values();
    ToNatFromNat(if x < 0 then x + TWO64 else x, 64);
    HighBitsClear(OfInt(x), 63);
  }

  /** A signed value fits w bits. */
  predicate FitsSigned(x: int, w: nat)
    requires 1 <= w
  {
    -(Pow2(w - 1) as int) <= x < Pow2(w - 1)
  }

  /** An int64 fits w bits exactly when bits w-1..63 are all copies of its sign. */
  lemma SignBits(x: int, w: nat)
    requires IsInt64(x) && 2 <= w <= 64
    ensures FitsSigned(x, w) <==> (forall k :: w - 1 <= k < 64 ==> OfInt(x)[k] == (x < 0))
  {
    Pow2Values();
    OfIntValue(x);
    Pow2Monotone(w - 1, 63);
    if x < 0 {
      HighBitsSet(OfInt(x), w - 1);
    } else {
      HighBitsClear(OfInt(x), w - 1);
    }
  }
}
