/** Whole runs of the compressor: every sequence of calls decodes to the accepted points,
    and for exactly which buffer sizes the 144-bit reserve test of tsc_add suffices. */
module TscRuns {
  import opened Words
  import opened Bitstream
  import opened TscCodec
  import opened TscBlock

  /** A point tsc_add accepts can be appended to the block. */
  lemma AddedAppends(n: nat, ps: seq<Point>, p: Point)
    requires Encodable(ps) && IsInt64(p.t) && AddOutcome(n, ps, p) == Added
    ensures Encodable(ps + [p]) && HeaderOf(ps + [p]) == After(HeaderOf(ps), p)
    ensures HeaderOf(ps + [p]).bits <= 64 * (n / 64)
  {
    hide PointBits, Encodable, HeaderOf, Encode;
    var qs := ps + [p];
    assert qs[..|qs| - 1] == ps && qs[|qs| - 1] == p;
    AppendUnfolds(ps, p, qs);
  }

  /** The points a block holds after a run of tsc_add calls on a clear block. */
  ghost function Accepted(n: nat, calls: seq<Point>): (ps: seq<Point>)
    requires forall k :: 0 <= k < |calls| ==> IsInt64(calls[k].t)
    ensures Encodable(ps)
  {
    if calls == [] then []
    else AcceptOne(n, Accepted(n, calls[..|calls| - 1]), calls[|calls| - 1])
  }

  ghost function AcceptOne(n: nat, ps: seq<Point>, p: Point): (qs: seq<Point>)
    requires Encodable(ps) && IsInt64(p.t)
    ensures Encodable(qs)
  {
    if AddOutcome(n, ps, p) == Added then
      AddedAppends(n, ps, p);
      ps + [p]
    else ps
  }

  datatype Call = AddCall(p: Point) | ClearCall

  /** The calls since the last clear. */
  ghost function SinceClear(calls: seq<Call>): (r: seq<Point>)
    ensures forall k :: 0 <= k < |r| ==> AddCall(r[k]) in calls
  {
    if calls == [] then []
    else match calls[|calls| - 1]
      case ClearCall => []
      case AddCall(p) => SinceClear(calls[..|calls| - 1]) + [p]
  }

  ghost predicate Timely(calls: seq<Call>)
  {
    forall k :: 0 <= k < |calls| && calls[k].AddCall? ==> IsInt64(calls[k].p.t)
  }

  lemma SinceClearTimely(calls: seq<Call>)
    requires Timely(calls)
    ensures forall k :: 0 <= k < |SinceClear(calls)| ==> IsInt64(SinceClear(calls)[k].t)
  {
  }

  /** End to end: whatever the buffer held, whatever is added, refused and cleared, the
      block reads back as exactly the points accepted since the last clear. */
  method CompressAndRead(dataLen: nat, garbage: seq<Word>, calls: seq<Call>) returns (out: seq<Point>)
    requires 4 <= dataLen && dataLen * 8 <= MAX_NUM_VALID_BITS && |garbage| == (dataLen - 4) * 8 / 64
    requires Timely(calls)
    ensures forall k :: 0 <= k < |SinceClear(calls)| ==> IsInt64(SinceClear(calls)[k].t)
    ensures out == Accepted((dataLen - 4) * 8, SinceClear(calls))
  {
    hide Bits, Encode, HeaderOf, AddOutcome, Encodable;
    SinceClearTimely(calls);
    var block := new TscBlock(dataLen, garbage);
    ghost var n := block.n;
    var k := 0;
    assert SinceClear(calls[..0]) == [];
    while k < |calls|
      invariant 0 <= k <= |calls| && block.Valid() && fresh(block) && fresh(block.words)
      invariant Timely(calls[..k])
      invariant forall j :: 0 <= j < |SinceClear(calls[..k])| ==> IsInt64(SinceClear(calls[..k])[j].t)
      invariant block.points == Accepted(n, SinceClear(calls[..k]))
    {
      ghost var done := SinceClear(calls[..k]);
      assert calls[..k + 1][..k] == calls[..k] && calls[..k + 1][k] == calls[k];
      match calls[k] {
        case ClearCall =>
          block.Clear();
        case AddCall(p) =>
          ghost var now := done + [p];
          assert now[..|now| - 1] == done && SinceClear(calls[..k + 1]) == now;
          var st := block.Add(p.t, p.y);
      }
      k := k + 1;
    }
    assert calls[..|calls|] == calls;
    out := ReadBlock(block.numPts, block.words, block.points);
  }

  // ----- the reserve test -----

  /** No call that passes the reserve test runs out of buffer. */
  ghost predicate ReserveSuffices(n: nat)
  {
    forall calls: seq<Point>, p: Point ::
      (forall k :: 0 <= k < |calls| ==> IsInt64(calls[k].t)) && IsInt64(p.t) ==>
      AddOutcome(n, Accepted(n, calls), p) != Rejected(OutOfSpace)
  }

  lemma ReserveHolds(n: nat, ps: seq<Point>, p: Point)
    requires n < 144 || (n >= 192 && n % 64 < 32)
    requires Encodable(ps) && IsInt64(p.t)
    ensures AddOutcome(n, ps, p) != Rejected(OutOfSpace)
  {
    hide Encodable, HeaderOf, EncInt, EncDouble, FitsSigned;
  }

  /** A word with the top bit and bit `low` set. */
  function Marked(low: nat): (x: Word)
    requires low < 64
    ensures x[63] && x[low]
  {
    seq(64, k => k == 63 || k == low)
  }

  lemma MarkedShape(low: nat)
    requires low < 64
    ensures Marked(low) != Zero()
    ensures ClampedLead(Marked(low)) == 0 && Trail(Marked(low)) == low && SigBits(Marked(low)) == 64 - low
  {
    var x := Marked(low);
    assert x[63];
    assert Zero()[63] == false;
  }

  /** Storing a marked word under a window that ends above bit `low` costs 13 + 64 - low bits. */
  lemma MarkedCost(low: nat, sig: nat)
    requires low < 64 && WindowOk(0, sig) && low < 64 - sig
    ensures |EncDouble(Marked(low), 0, sig)| == 13 + (64 - low)
    ensures WindowAfter(Marked(low), 0, sig) == (0, 64 - low)
  {
    hide Marked, FromNat, ClampedLead, Trail, SigBits;
    MarkedShape(low);
    var x := Marked(low);
    assert !ReuseWindow(x, 0, sig);
    assert x != Zero();
  }

  /** A final point that takes the worst case of 113 bits. */
  function Worst(h: Header): Point
  {
    Point(h.lastT + h.lastDelta + 2048, Xor(h.prev, Marked(0)))
  }

  lemma WorstCost(h: Header)
    requires HeaderOk(h) && h.pts > 0 && h.lead == 0 && h.sig < 64 && 0 <= h.lastT && 0 <= h.lastDelta && h.lastT + h.lastDelta + 2048 < TWO63
    ensures IsInt64(Worst(h).t) && Worst(h).t > h.lastT && FitsSigned(TimeCode(h, Worst(h)), 32)
    ensures |PointBits(h, Worst(h))| == 113 && |EncInt(TimeCode(h, Worst(h)))| == 36
  {
    hide EncDouble, WindowAfter;
    XorCancels(h.prev, Marked(0));
    MarkedCost(0, h.sig);
    Pow2Values();
  }

  /** A reachable block at n - 144 bits or a little less, with room for the worst point
      only if n mod 64 is below 32. */
  lemma WorstFails(n: nat, calls: seq<Point>)
    requires forall k :: 0 <= k < |calls| ==> IsInt64(calls[k].t)
    requires var h := HeaderOf(Accepted(n, calls));
      h.pts > 0 && h.lead == 0 && h.sig < 64 && 0 <= h.lastT && 0 <= h.lastDelta && h.lastT + h.lastDelta + 2048 < TWO63 &&
      h.bits <= n - 144 && h.bits + 113 > 64 * (n / 64)
    ensures !ReserveSuffices(n)
  {
    hide EncInt, EncDouble, HeaderOf, Encodable, Accepted, FitsSigned;
    var ps := Accepted(n, calls);
    WorstCost(HeaderOf(ps));
    assert AddOutcome(n, ps, Worst(HeaderOf(ps))) == Rejected(OutOfSpace);
  }

  /** One point per tick, all with the same value: m + 1 of them. */
  function Ticks(y: Word, m: nat): (calls: seq<Point>)
  {
    seq(m + 1, k requires 0 <= k => Point(k, y))
  }

  /** Bits after Ticks(y, m): two for every point from the third on. */
  function TickBits(first: nat, m: nat): nat
  {
    if m == 0 then first else first + 10 + 2 * (m - 1)
  }

  /** Where a run of ticks starting at the value y leaves the header. */
  ghost predicate TickHeader(h: Header, y: Word, first: nat, sig: nat, m: nat)
  {
    h == Header(m, if m == 0 then 0 else 1, y, TickBits(first, m), 0, sig, m + 1)
  }

  lemma FirstTick(n: nat, y: Word, sig: nat)
    requires WindowOk(0, sig) && WindowAfter(y, 0, 0) == (0, sig)
    requires n >= 144 + 64 + |EncDouble(y, 0, 0)|
    ensures AddOutcome(n, [], Point(0, y)) == Added
    ensures TickHeader(After(CLEAR, Point(0, y)), y, 64 + |EncDouble(y, 0, 0)|, sig, 0)
  {
    hide EncDouble, WindowAfter;
    EmptyHeader();
  }

  lemma NextTick(n: nat, ps: seq<Point>, y: Word, first: nat, sig: nat, m: nat)
    requires Encodable(ps) && TickHeader(HeaderOf(ps), y, first, sig, m)
    requires m + 1 < TWO63 && TickBits(first, m + 1) <= n - 144
    ensures AddOutcome(n, ps, Point(m + 1, y)) == Added
    ensures TickHeader(After(HeaderOf(ps), Point(m + 1, y)), y, first, sig, m + 1)
  {
    hide Encodable, HeaderOf, ClampedLead, Trail, SigBits, OfInt;
    var h, p := HeaderOf(ps), Point(m + 1, y);
    assert Xor(y, y) == Zero();
    assert TimeCode(h, p) == if m == 0 then 1 else 0;
    Pow2Values();
  }

  lemma {:induction false} TicksRun(n: nat, y: Word, sig: nat, m: nat)
    requires WindowOk(0, sig) && WindowAfter(y, 0, 0) == (0, sig) && m < TWO63
    requires TickBits(64 + |EncDouble(y, 0, 0)|, m) <= n - 144
    ensures Accepted(n, Ticks(y, m)) == Ticks(y, m)
    ensures TickHeader(HeaderOf(Ticks(y, m)), y, 64 + |EncDouble(y, 0, 0)|, sig, m)
  {
    hide Encodable, HeaderOf, AddOutcome, After, EncDouble, WindowAfter;
    var calls, p := Ticks(y, m), Point(m, y);
    var init := if m == 0 then [] else Ticks(y, m - 1);
    assert calls[..m] == init && calls[m] == p && calls == init + [p];
    EmptyHeader();
    if m == 0 {
      FirstTick(n, y, sig);
    } else {
      TicksRun(n, y, sig, m - 1);
      NextTick(n, init, y, 64 + |EncDouble(y, 0, 0)|, sig, m - 1);
    }
    AddedAppends(n, init, p);
  }

  /** The exact buffer sizes, in bits after the point count, for which the reserve test
      of 144 bits guarantees room. The default data_len of 1016 gives n = 8096, n mod 64 =
      32, and is not one of them. */
  lemma ReserveExact(n: nat)
    requires n <= MAX_NUM_VALID_BITS
    ensures ReserveSuffices(n) <==> n < 144 || (n >= 192 && n % 64 < 32)
  {
    hide AddOutcome, Accepted, HeaderOf, Encodable, EncDouble, Marked;
    if n < 144 || (n >= 192 && n % 64 < 32) {
      forall calls: seq<Point>, p: Point | (forall k :: 0 <= k < |calls| ==> IsInt64(calls[k].t)) && IsInt64(p.t)
        ensures AddOutcome(n, Accepted(n, calls), p) != Rejected(OutOfSpace)
      {
        ReserveHolds(n, Accepted(n, calls), p);
      }
    } else if n < 192 {
      FirstPointFails(n);
    } else if n < 232 {
      MarkedCost(61, 0);
      TicksRun(n, Marked(61), 3, 0);
      WorstFails(n, Ticks(Marked(61), 0));
    } else if n % 2 == 0 {
      MarkedCost(63, 0);
      TicksRun(n, Marked(63), 1, (n - 230) / 2);
      WorstFails(n, Ticks(Marked(63), (n - 230) / 2));
    } else {
      ZeroCost();
      TicksRun(n, Zero(), 0, (n - 217) / 2);
      WorstFails(n, Ticks(Zero(), (n - 217) / 2));
    }
  }

  lemma ZeroCost()
    ensures |EncDouble(Zero(), 0, 0)| == 1 && WindowAfter(Zero(), 0, 0) == (0, 0)
  {
  }

  /** Below 192 bits the first point can already need more than the whole words there are. */
  lemma FirstPointFails(n: nat)
    requires 144 <= n < 192
    ensures !ReserveSuffices(n)
  {
    hide EncDouble, WindowAfter, Marked, Encodable, HeaderOf;
    var p := Point(0, Marked(0));
    EmptyHeader();
    assert Accepted(n, []) == [];
    MarkedCost(0, 0);
    assert AddOutcome(n, Accepted(n, []), p) == Rejected(OutOfSpace);
  }

  /** The default block size (1016 bytes) is one for which the reserve is too small. */
  lemma DefaultBlockSizeReserveFails()
    ensures !ReserveSuffices((1016 - 4) * 8)
  {
    ReserveExact(8096);
  }
}
