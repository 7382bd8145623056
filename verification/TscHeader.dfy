/** The 30-byte header an ACTIVE block carries, so that its compressor can be resumed. */
module TscHeader {
  import opened Bytes
  import opened Words
  import opened TscCodec

  const SERIALIZED_SIZE: nat := 30

  function WordBytes(w: Word): (bs: seq<Byte>)
    ensures |bs| == 8
  {
    Le(ToNat(w), 8)
  }

  function WordOfBytes(bs: seq<Byte>): Word
    requires |bs| == 8
  {
    FromNat(FromLe(bs), 64)
  }

  lemma WordRoundTrip(w: Word)
    ensures WordOfBytes(WordBytes(w)) == w
  {
    hide Le, FromLe, ToNat, FromNat, Pow2, Pow256;
    Pow256Eight();
    Pow2Values();
    ToNatBound(w);
    LeRoundTrip(ToNat(w), 8);
    FromNatToNat(w);
  }

  /** tsc_serialize_header */
  function Serialize(h: Header): (bs: seq<Byte>)
    requires IsInt64(h.lastT) && IsInt64(h.lastDelta) && h.lead < 256 && h.sig < 256
    ensures |bs| == SERIALIZED_SIZE
  {
    WordBytes(OfInt(h.lastT)) + WordBytes(OfInt(h.lastDelta)) + WordBytes(h.prev) + Le(h.bits, 4) + [h.lead] + [h.sig]
  }

  /** tsc_deserialize_header; the point count lies in the data, not in the header. */
  function Deserialize(s: seq<Byte>, pts: nat): Header
    requires |s| == SERIALIZED_SIZE
  {
    Header(ToInt(WordOfBytes(s[0..8])), ToInt(WordOfBytes(s[8..16])), WordOfBytes(s[16..24]),
           FromLe(s[24..28]), s[28], s[29], pts)
  }

  lemma HeaderRoundTrip(h: Header)
    requires HeaderOk(h) && h.bits < 0x1_0000_0000
    ensures Deserialize(Serialize(h), h.pts) == h
  {
    hide WordBytes, WordOfBytes, Le, FromLe, OfInt, ToInt;
    var s := Serialize(h);
    var a, b, c, d := WordBytes(OfInt(h.lastT)), WordBytes(OfInt(h.lastDelta)), WordBytes(h.prev), Le(h.bits, 4);
    assert s[0..8] == a && s[8..16] == b && s[16..24] == c && s[24..28] == d && s[28] == h.lead && s[29] == h.sig;
    WordRoundTrip(OfInt(h.lastT));
    WordRoundTrip(OfInt(h.lastDelta));
    WordRoundTrip(h.prev);
    OfIntValue(h.lastT);
    OfIntValue(h.lastDelta);
    assert Pow256(4) == 0x1_0000_0000;
    LeRoundTrip(h.bits, 4);
  }
}
