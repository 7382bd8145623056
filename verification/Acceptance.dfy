/** Which points are accepted, said on their times alone (tsc.c:181-284, storage.c:850-911), and runs
    in which nothing is refused. */
module Acceptance {
  import opened Words
  import opened Bitstream
  import opened TscCodec
  import opened TscBlock
  import opened TscRuns
  import opened SeriesStore
  import opened SeriesOps
  import opened StoreRuns

  // ----- one block -----

  /** The step between the last two points; zero until there are two. */
  ghost function LastStep(ps: seq<Point>): int
  {
    if |ps| < 2 then 0 else Wrap(ps[|ps| - 1].t - ps[|ps| - 2].t)
  }

  /** By how much a new point changes the step: the second difference of the last three times. */
  ghost function StepChange(ps: seq<Point>, p: Point): int
    requires ps != []
  {
    Wrap(Wrap(p.t - ps[|ps| - 1].t) - LastStep(ps))
  }

  /** The new point is later than all before it, and the change of step fits 32 bits. */
  ghost predicate Continues(ps: seq<Point>, p: Point)
  {
    IsInt64(p.t) && (ps != [] ==> p.t > ps[|ps| - 1].t && -0x8000_0000 <= StepChange(ps, p) < 0x8000_0000)
  }

  /** The header remembers the last time and the last step. */
  lemma HeaderTimes(ps: seq<Point>)
    requires Encodable(ps) && ps != []
    ensures HeaderOf(ps).lastT == ps[|ps| - 1].t && HeaderOf(ps).lastDelta == LastStep(ps)
  {
    hide PointBits, Encodable, HeaderOf, WindowAfter, FitsSigned, Encode, Wrap, Representable;
    var init := ps[..|ps| - 1];
    LastPoint(ps, init);
    if init != [] {
      assert HeaderOf(init).lastT == init[|init| - 1].t by { LastPoint(init, init[..|init| - 1]); }
    }
  }

  lemma RepresentableExact(ps: seq<Point>, p: Point)
    requires Encodable(ps)
    ensures Representable(HeaderOf(ps), p) <==> Continues(ps, p)
  {
    hide Encodable, HeaderOf, Encode, FitsSigned, Wrap;
    if ps != [] {
      HeaderTimes(ps);
      FitsHalf(TimeCode(HeaderOf(ps), p));
    }
  }

  lemma FitsHalf(x: int)
    ensures FitsSigned(x, 32) <==> -0x8000_0000 <= x < 0x8000_0000
  {
    hide Pow2;
    Pow2Values();
  }

  /** What a block can hold: every point continues those before it. */
  lemma {:induction false} EncodableExact(ps: seq<Point>)
    ensures Encodable(ps) <==> forall i :: 0 <= i < |ps| ==> ContinuesAt(ps, i)
  {
    hide Encodable, HeaderOf, Continues, Representable;
    EmptyHeader();
    if ps != [] {
      var init, last := ps[..|ps| - 1], ps[|ps| - 1];
      EncodableExact(init);
      forall i | 0 <= i < |init| ensures ContinuesAt(init, i) <==> ContinuesAt(ps, i) { assert init[..i] == ps[..i]; }
      assert ContinuesAt(ps, |init|) <==> Continues(init, last);
      EncodableUnfolds(ps, init, last);
      if Encodable(init) { RepresentableExact(init, last); }
    }
  }

  ghost predicate ContinuesAt(ps: seq<Point>, i: nat)
    requires i < |ps|
  {
    Continues(ps[..i], ps[i])
  }

  lemma EncodableUnfolds(ps: seq<Point>, init: seq<Point>, last: Point)
    requires ps != [] && init == ps[..|ps| - 1] && last == ps[|ps| - 1]
    ensures Encodable(ps) <==> Encodable(init) && Representable(HeaderOf(init), last)
  {
    hide Representable, HeaderOf;
  }

  /** tsc_add: the block is full by the bits left, the point too early by its time; it is added
      exactly when it continues the block and its bits fit the whole words there are. */
  lemma AddExact(n: nat, ps: seq<Point>, p: Point)
    requires Encodable(ps) && IsInt64(p.t)
    ensures var st, room := AddOutcome(n, ps, p), 64 * (n / 64);
      && (st == BlockFull <==> n - |Encode(ps)| < 144)
      && (st == OutOfOrder <==> n - |Encode(ps)| >= 144 && ps != [] && p.t <= ps[|ps| - 1].t)
      && (st == Added <==> n - |Encode(ps)| >= 144 && Continues(ps, p) && Encodable(ps + [p]) && |Encode(ps + [p])| <= room)
  {
    hide Encodable, HeaderOf, Encode, EncInt, EncDouble, OfInt;
    RepresentableExact(ps, p);
    if ps != [] { HeaderTimes(ps); }
    var qs := ps + [p];
    assert qs[..|qs| - 1] == ps && qs[|qs| - 1] == p;
    if Representable(HeaderOf(ps), p) { AppendUnfolds(ps, p, qs); }
  }

  /** With 113 bits of whole words left, or a buffer size for which the reserve suffices, a later
      point is added exactly when the change of step fits 32 bits, and refused for it otherwise. */
  lemma LaterExact(n: nat, ps: seq<Point>, p: Point)
    requires Encodable(ps) && IsInt64(p.t) && ps != [] && p.t > ps[|ps| - 1].t && n - |Encode(ps)| >= 144
    requires |Encode(ps)| + 113 <= 64 * (n / 64) || (n >= 192 && n % 64 < 32)
    ensures var fits := -0x8000_0000 <= StepChange(ps, p) < 0x8000_0000;
      && (AddOutcome(n, ps, p) == Added <==> fits) && (AddOutcome(n, ps, p) == Rejected(BadValue) <==> !fits)
  {
    hide Encodable, HeaderOf, Encode, EncInt, EncDouble, OfInt;
    RepresentableExact(ps, p);
    HeaderTimes(ps);
    if n >= 192 && n % 64 < 32 { ReserveHolds(n, ps, p); }
  }

  // ----- requests -----

  /** One point offered to a series: it starts a new block exactly when the bits left are too few,
      and is then always accepted; otherwise it is accepted exactly when it continues the block and
      its bits fit the whole words there are. */
  lemma OfferedExact(n: nat, mem: seq<Point>, p: Point)
    requires n >= 192 && Encodable(mem) && IsInt64(p.t)
    ensures var (flushed, mem', st) := Offered(n, mem, p);
      && (flushed <==> n - |Encode(mem)| < 144)
      && (st == Added <==> flushed || (Continues(mem, p) && Encodable(mem + [p]) && |Encode(mem + [p])| <= 64 * (n / 64)))
      && mem' == if flushed then [p] else if st == Added then mem + [p] else mem
  {
    hide Encodable, Encode, AddOutcome, Continues;
    AddExact(n, mem, p);
  }

  /** For buffer sizes for which the reserve suffices the bits always fit. */
  lemma OfferedContinues(n: nat, mem: seq<Point>, p: Point)
    requires n >= 192 && n % 64 < 32 && Encodable(mem) && IsInt64(p.t)
    ensures var (flushed, mem', st) := Offered(n, mem, p); st == Added <==> flushed || Continues(mem, p)
  {
    hide Encodable, Encode, AddOutcome, Continues;
    AddExact(n, mem, p);
    if mem == [] {
      RetryAdds(n, p);
      AddExact(n, [], p);
    } else {
      LaterContinues(mem, p);
      if n - |Encode(mem)| >= 144 && p.t > mem[|mem| - 1].t { LaterExact(n, mem, p); }
    }
  }

  lemma LaterContinues(mem: seq<Point>, p: Point)
    requires mem != [] && IsInt64(p.t)
    ensures Continues(mem, p) <==> p.t > mem[|mem| - 1].t && -0x8000_0000 <= StepChange(mem, p) < 0x8000_0000
  {
  }

  /** Each point is later than the one before it, by less than 2^31. */
  ghost predicate Steady(ps: seq<Point>)
  {
    forall i :: 0 < i < |ps| ==> 0 < ps[i].t - ps[i - 1].t < 0x8000_0000
  }

  ghost predicate Timed(ps: seq<Point>) { forall i :: 0 <= i < |ps| ==> IsInt64(ps[i].t) }

  lemma SteadyContinues(mem: seq<Point>, p: Point)
    requires Timed(mem + [p]) && Steady(mem + [p])
    ensures Continues(mem, p)
  {
    var all := mem + [p];
    assert IsInt64(all[|mem|].t);
    if mem != [] {
      assert all[|mem|] == p && all[|mem| - 1] == mem[|mem| - 1];
      if |mem| >= 2 { assert all[|mem| - 2] == mem[|mem| - 2] && 0 < all[|mem| - 1].t - all[|mem| - 2].t < 0x8000_0000; }
    }
  }

  lemma SteadyParts(a: seq<Point>, b: seq<Point>)
    requires Steady(a + b)
    ensures Steady(a) && Steady(b)
  {
    var all := a + b;
    forall i | 0 < i < |a| ensures 0 < a[i].t - a[i - 1].t < 0x8000_0000 { assert all[i] == a[i] && all[i - 1] == a[i - 1]; }
    forall i | 0 < i < |b| ensures 0 < b[i].t - b[i - 1].t < 0x8000_0000 {
      assert all[|a| + i] == b[i] && all[|a| + i - 1] == b[i - 1];
    }
  }

  lemma TimedParts(a: seq<Point>, b: seq<Point>)
    ensures Timed(a + b) <==> Timed(a) && Timed(b)
  {
    var all := a + b;
    assert forall i :: 0 <= i < |a| ==> all[i] == a[i];
    assert forall i :: 0 <= i < |b| ==> all[|a| + i] == b[i];
  }

  /** Steady points are all accepted, however many blocks they fill. */
  lemma {:induction false} SteadyAccepted(n: nat, mem: seq<Point>, ps: seq<Point>)
    requires n >= 192 && n % 64 < 32 && Encodable(mem) && Timed(mem + ps) && Timed(ps) && Steady(mem + ps)
    ensures AcceptedCount(n, mem, ps) == |ps|
    decreases |ps|
  {
    hide Encodable, AcceptedCount, MemAfter, Steady, Timed, Offered, Continues;
    CountUnfolds(n, mem, ps) by { TimedMeans(ps); }
    if ps != [] {
      var p, rest := ps[0], ps[1..];
      assert mem + ps == (mem + [p]) + rest && mem + ps == mem + ([p] + rest) && ps == [p] + rest;
      SteadyParts(mem + [p], rest);
      SteadyParts(mem, [p] + rest);
      TimedParts(mem + [p], rest);
      TimedParts(mem, [p] + rest);
      TimedMeans(ps);
      SteadyContinues(mem, p);
      OfferedExact(n, mem, p);
      OfferedContinues(n, mem, p);
      OfferedEncodable(n, mem, p);
      SteadyAccepted(n, Offered(n, mem, p).1, rest);
    }
  }

  lemma TimedMeans(ps: seq<Point>)
    requires Timed(ps)
    ensures forall i :: 0 <= i < |ps| ==> IsInt64(ps[i].t)
  {
  }

  // ----- runs -----

  /** Everything a run was asked to write under a key, in order. */
  ghost function Sent(ops: seq<Op>, key: Key): seq<Point>
  {
    if ops == [] then []
    else Sent(ops[..|ops| - 1], key) + var op := ops[|ops| - 1]; if op.WriteOp? && op.key == key then op.ps else []
  }

  /** What is in memory is the end of what was accepted. */
  lemma {:induction false} MemoryEnds(n: nat, mem: seq<Point>, ps: seq<Point>)
    requires n >= 192 && Encodable(mem) && Timed(ps)
    ensures Suffix(MemAfter(n, mem, ps), mem + ps[..AcceptedCount(n, mem, ps)])
    decreases |ps|
  {
    hide Encodable, AcceptedCount, MemAfter, Offered, Timed, Suffix;
    CountUnfolds(n, mem, ps) by { TimedMeans(ps); }
    if ps == [] {
      assert mem + ps[..0] == mem;
      SuffixItself(mem);
    } else {
      var p, rest := ps[0], ps[1..];
      assert IsInt64(p.t) by { TimedMeans(ps); }
      assert Timed(rest) by { assert ps == [p] + rest; TimedParts([p], rest); }
      TimedMeans(rest);
      var r := Offered(n, mem, p);
      if r.2 == Added {
        MemoryEnds(n, r.1, rest);
        MemoryStep(n, mem, ps, MemAfter(n, r.1, rest), AcceptedCount(n, r.1, rest));
      } else {
        assert mem + ps[..0] == mem;
        SuffixItself(mem);
      }
    }
  }

  lemma MemoryStep(n: nat, mem: seq<Point>, ps: seq<Point>, end: seq<Point>, k: nat)
    requires n >= 192 && Encodable(mem) && ps != [] && IsInt64(ps[0].t) && k < |ps|
    requires Offered(n, mem, ps[0]).2 == Added && Suffix(end, Offered(n, mem, ps[0]).1 + ps[1..][..k])
    ensures Suffix(end, mem + ps[..k + 1])
  {
    hide Encodable, Offered, Suffix, Continues, Encode;
    var p, rest, now := ps[0], ps[1..], Offered(n, mem, ps[0]).1;
    OfferedExact(n, mem, p);
    assert ps[..k + 1] == [p] + rest[..k];
    AcceptedEnds(mem, p, now, rest[..k]);
    SuffixTransitive(mem + ps[..k + 1], now + rest[..k], end);
  }

  lemma AcceptedEnds(mem: seq<Point>, p: Point, now: seq<Point>, more: seq<Point>)
    requires now == [p] || now == mem + [p]
    ensures Suffix(now + more, mem + ([p] + more))
  {
    assert mem + ([p] + more) == mem + [p] + more;
  }

  lemma SuffixItself(a: seq<Point>)
    ensures Suffix(a, a)
  {
  }

  lemma {:induction false} ReplayEnds(n: nat, ops: seq<Op>, key: Key)
    requires n >= 192 && Requests(ops)
    ensures Suffix(Replay(n, ops, key).mem, Replay(n, ops, key).all)
    decreases |ops|
  {
    hide Encodable, AcceptedCount, MemAfter, Suffix;
    if ops == [] {
      SuffixItself([]);
    } else {
      var init, op := ops[..|ops| - 1], ops[|ops| - 1];
      ReplayEnds(n, init, key);
      if op.WriteOp? && op.key == key {
        var e := Replay(n, init, key);
        MemoryEnds(n, e.mem, op.ps);
        var more := op.ps[..AcceptedCount(n, e.mem, op.ps)];
        SuffixExtends(e.mem, e.all, more);
        SuffixTransitive(e.all + more, e.mem + more, MemAfter(n, e.mem, op.ps));
      }
    }
  }

  lemma SuffixExtends(a: seq<Point>, b: seq<Point>, more: seq<Point>)
    requires Suffix(a, b)
    ensures Suffix(a + more, b + more)
  {
    assert (b + more)[|b| - |a|..] == b[|b| - |a|..] + more;
  }

  /** If what was sent under a key is steady, all of it was accepted. */
  lemma {:induction false} SteadyRun(n: nat, ops: seq<Op>, key: Key)
    requires n >= 192 && n % 64 < 32 && Requests(ops) && Steady(Sent(ops, key))
    ensures Replay(n, ops, key).all == Sent(ops, key) && Timed(Sent(ops, key))
    decreases |ops|
  {
    hide Encodable, AcceptedCount, MemAfter, Suffix, Steady, Timed;
    if ops == [] {
      assert Timed([]) by { NothingTimed(); }
    } else {
      var init, op := ops[..|ops| - 1], ops[|ops| - 1];
      var now := if op.WriteOp? && op.key == key then op.ps else [];
      SteadyParts(Sent(init, key), now);
      SteadyRun(n, init, key);
      if op.WriteOp? && op.key == key {
        var e := Replay(n, init, key);
        ReplayEnds(n, init, key);
        assert Timed(now) by { RequestTimed(op); }
        EndsSteady(e.mem, e.all, now);
        SteadyAccepted(n, e.mem, now);
        assert now[..|now|] == now;
        TimedParts(e.all, now);
      } else {
        assert Sent(ops, key) == Sent(init, key) + [] == Sent(init, key);
      }
    }
  }

  lemma NothingTimed()
    ensures Timed([])
  {
  }

  lemma RequestTimed(op: Op)
    requires Request(op) && op.WriteOp?
    ensures Timed(op.ps)
  {
  }

  lemma EndsSteady(mem: seq<Point>, all: seq<Point>, now: seq<Point>)
    requires Suffix(mem, all) && Steady(all + now) && Timed(all) && Timed(now)
    ensures Steady(mem + now) && Timed(mem + now)
  {
    hide Steady, Timed;
    var cut := |all| - |mem|;
    assert all == all[..cut] + mem && all + now == all[..cut] + (mem + now);
    SteadyParts(all[..cut], mem + now);
    TimedParts(all[..cut], mem);
    TimedParts(mem, now);
  }

  /** storage_get after a run whose points for the key are steady returns everything that was sent. */
  method SteadyRunThenGet(n: nat, ops: seq<Op>, key: Key) returns (err: Error, out: seq<Point>)
    requires n >= 192 && n % 64 < 32 && Requests(ops) && Sound(n, ops) && Wrote(ops, key) && Steady(Sent(ops, key))
    ensures err == ErrOk && out == Sent(ops, key)
  {
    hide Sound, Replay, Steady, Sent;
    SteadyRun(n, ops, key);
    var most := Count(ops);
    SentBound(ops, key);
    err, out := RunThenGet(n, ops, key, most);
  }

  /** How many points a run sends in all. */
  function Count(ops: seq<Op>): nat
  {
    if ops == [] then 0 else Count(ops[..|ops| - 1]) + if ops[|ops| - 1].WriteOp? then |ops[|ops| - 1].ps| else 0
  }

  lemma {:induction false} SentBound(ops: seq<Op>, key: Key)
    ensures |Sent(ops, key)| <= Count(ops)
    decreases |ops|
  {
    if ops != [] { SentBound(ops[..|ops| - 1], key); }
  }
}
