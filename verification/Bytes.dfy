/** Bytes, little-endian integers and files that are overwritten in place. */
module Bytes {

  type Byte = b: int | 0 <= b < 256

  const U64_MAX: nat := 0xFFFF_FFFF_FFFF_FFFF

  function Pow256(n: nat): (r: nat)
    ensures r >= 1
  {
    if n == 0 then 1 else 256 * Pow256(n - 1)
  }

  /** The n low bytes of v, least significant first. */
  function Le(v: nat, n: nat): (bs: seq<Byte>)
    ensures |bs| == n
  {
    if n == 0 then [] else [v % 256] + Le(v / 256, n - 1)
  }

  function FromLe(bs: seq<Byte>): (v: nat)
  {
    if bs == [] then 0 else bs[0] + 256 * FromLe(bs[1..])
  }

  lemma {:induction false} FromLeBound(bs: seq<Byte>)
    ensures FromLe(bs) < Pow256(|bs|)
  {
    if bs != [] { FromLeBound(bs[1..]); }
  }

  lemma {:induction false} LeRoundTrip(v: nat, n: nat)
    requires v < Pow256(n)
    ensures FromLe(Le(v, n)) == v
    decreases n
  {
    if n > 0 {
      LeRoundTrip(v / 256, n - 1);
      assert Le(v, n)[1..] == Le(v / 256, n - 1);
    }
  }

  lemma {:induction false} FromLeRoundTrip(bs: seq<Byte>)
    ensures Le(FromLe(bs), |bs|) == bs
  {
    if bs != [] {
      FromLeRoundTrip(bs[1..]);
      assert FromLe(bs) / 256 == FromLe(bs[1..]);
      assert bs == [bs[0]] + bs[1..];
    }
  }

  lemma Pow256Eight()
    ensures Pow256(8) == U64_MAX + 1
  {
    assert Pow256(4) == 0x1_0000_0000;
  }

  /** The byte strings of a number and of its complement are bytewise complements. */
  lemma {:induction false} ComplementBytes(v: nat, n: nat)
    requires v < Pow256(n)
    ensures forall k :: 0 <= k < n ==> Le(Pow256(n) - 1 - v, n)[k] == 255 - Le(v, n)[k]
    decreases n
  {
    if n > 0 {
      var w := Pow256(n) - 1 - v;
      assert w / 256 == Pow256(n - 1) - 1 - v / 256 && w % 256 == 255 - v % 256;
      ComplementBytes(v / 256, n - 1);
      assert Le(w, n) == [w % 256] + Le(w / 256, n - 1);
      assert Le(v, n) == [v % 256] + Le(v / 256, n - 1);
    }
  }

  function Repeat(b: Byte, n: nat): (bs: seq<Byte>)
    ensures |bs| == n && forall k :: 0 <= k < n ==> bs[k] == b
  {
    seq(n, k => b)
  }

  // ----- files -----

  type File = seq<Byte>

  /** The file after `data` is written at `pos`; a gap past the end reads as zeros. */
  function Overlay(f: File, pos: nat, data: seq<Byte>): (r: File)
    ensures |r| == if data == [] || pos + |data| <= |f| then |f| else pos + |data|
    ensures forall k :: 0 <= k < |r| ==>
      r[k] == if pos <= k < pos + |data| then data[k - pos] else if k < |f| then f[k] else 0
  {
    if data == [] then f
    else
      var size := if pos + |data| <= |f| then |f| else pos + |data|;
      seq(size, k requires 0 <= k < size =>
        if pos <= k < pos + |data| then data[k - pos] else if k < |f| then f[k] else 0)
  }

  /** Bytes [pos, pos + n) of a file. */
  function Slice(f: File, pos: nat, n: nat): (r: seq<Byte>)
    requires pos + n <= |f|
    ensures |r| == n && forall k :: 0 <= k < n ==> r[k] == f[pos + k]
  {
    f[pos..pos + n]
  }

  /** Writing again what a prefix of the same write already put there. */
  lemma OverlayResumes(f: File, pos: nat, data: seq<Byte>, k: nat)
    requires k <= |data| && pos + |data| <= |f|
    ensures Overlay(Overlay(f, pos, data[..k]), pos, data) == Overlay(f, pos, data)
  {
  }

  /** Writing what is already there changes nothing. */
  lemma OverlayIdle(f: File, pos: nat, data: seq<Byte>)
    requires pos + |data| <= |f| && Slice(f, pos, |data|) == data
    ensures Overlay(f, pos, data) == f
  {
    forall k | 0 <= k < |f| ensures Overlay(f, pos, data)[k] == f[k] {
      if pos <= k < pos + |data| {
        assert Slice(f, pos, |data|)[k - pos] == f[k];
      }
    }
  }

  /** Reading back a write, and reading beside it. */
  lemma OverlayReads(f: File, pos: nat, data: seq<Byte>)
    requires pos <= |f| || data != []
    ensures pos + |data| <= |Overlay(f, pos, data)| && Slice(Overlay(f, pos, data), pos, |data|) == data
  {
  }

  lemma OverlayMisses(f: File, pos: nat, data: seq<Byte>, p: nat, n: nat)
    requires p + n <= |f| && (p + n <= pos || pos + |data| <= p)
    ensures Slice(Overlay(f, pos, data), p, n) == Slice(f, p, n)
  {
  }
}
