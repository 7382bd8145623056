/** Whole runs of the series store: every series returns exactly its accepted points, and every
    moment of the run is bounded by what was accepted and synced around it. */
module StoreRuns {
  import opened TscCodec
  import opened TscBlock
  import opened Words
  import opened SeriesStore
  import opened SeriesOps

  datatype Op = WriteOp(key: Key, ps: seq<Point>) | SyncOp

  /** Requests as clients send them: a key and any int64 times. */
  ghost predicate Request(op: Op)
  {
    op.WriteOp? ==> op.key != [] && forall i :: 0 <= i < |op.ps| ==> IsInt64(op.ps[i].t)
  }

  ghost predicate Requests(ops: seq<Op>) { forall i :: 0 <= i < |ops| ==> Request(ops[i]) }

  /** What a run leaves of one series: the points accepted since the last full block, and
      all points accepted. No block, file or sync appears in it. */
  datatype Expected = Expected(mem: seq<Point>, all: seq<Point>)

  ghost function Replay(n: nat, ops: seq<Op>, key: Key): (e: Expected)
    requires n >= 192 && Requests(ops)
    ensures Encodable(e.mem)
  {
    if ops == [] then
      EmptyHeader();
      Expected([], [])
    else After(n, Replay(n, ops[..|ops| - 1], key), ops[|ops| - 1], key)
  }

  ghost function After(n: nat, e: Expected, op: Op, key: Key): (r: Expected)
    requires n >= 192 && Encodable(e.mem) && Request(op)
    ensures Encodable(r.mem)
  {
    if op.SyncOp? || op.key != key then e
    else Expected(MemAfter(n, e.mem, op.ps), e.all + op.ps[..AcceptedCount(n, e.mem, op.ps)])
  }

  ghost predicate Wrote(ops: seq<Op>, key: Key) { exists i :: 0 <= i < |ops| && ops[i].WriteOp? && ops[i].key == key }

  /** The next operation meets the asserts of the C code: no block that is written starts at a
      time of zero or below, and nothing is synced that has no points. */
  ghost predicate Asserted(n: nat, done: seq<Op>, op: Op)
    requires n >= 192 && Requests(done) && Request(op)
  {
    match op
    case WriteOp(key, ps) => Flushable(n, Replay(n, done, key).mem, ps)
    case SyncOp => forall key :: Wrote(done, key) ==> Replay(n, done, key).mem != [] && Replay(n, done, key).mem[0].t > 0
  }

  ghost predicate Sound(n: nat, ops: seq<Op>)
    requires n >= 192 && Requests(ops)
  {
    forall i :: 0 <= i < |ops| ==> SoundAt(n, ops, i)
  }

  ghost predicate SoundAt(n: nat, ops: seq<Op>, i: nat)
    requires n >= 192 && Requests(ops) && i < |ops|
  {
    Asserted(n, ops[..i], ops[i])
  }

  /** The store agrees with the replay of the operations so far. */
  ghost predicate Agrees(store: Storage, ops: seq<Op>)
    requires store.n >= 192 && Requests(ops)
    reads store
  {
    && (forall k :: k in store.items <==> Wrote(ops, k))
    && (forall k :: k in store.items ==> store.items[k].mem == Replay(store.n, ops, k).mem
                                         && store.View(k) == Replay(store.n, ops, k).all)
    && (forall k :: k !in store.items ==> Replay(store.n, ops, k) == Expected([], []))
  }

  /** Any run of writes and syncs over any keys from an empty store. `stops` are the moments
      after each operation, `marks` how many disk operations were done by then. */
  method RunAll(n: nat, ops: seq<Op>) returns (store: Storage, ghost stops: seq<Moment>, ghost marks: seq<nat>)
    requires n >= 192 && Requests(ops) && Sound(n, ops)
    ensures fresh(store) && store.Valid() && store.n == n && Agrees(store, ops)
    ensures Recorded(n, ops, store.trace, stops, marks) && stops[|ops|] == store.Now()
  {
    hide StoreOk, Contents, Encodable, Replay, Agrees, Recorded, Asserted, Advanced, Follows, HeldOf, SavedOf;
    store := new Storage(n);
    stops, marks := [store.Now()], [0];
    var i := 0;
    assert ops[..0] == [];
    AgreesFresh(store);
    RecordedFresh(n, store.Now());
    while i < |ops|
      invariant 0 <= i <= |ops| && store.Valid() && store.n == n && fresh(store)
      invariant Requests(ops[..i]) && Agrees(store, ops[..i]) && |stops| == i + 1 && stops[i] == store.Now()
      invariant Recorded(n, ops[..i], store.trace, stops, marks)
    {
      assert ops[..i + 1] == ops[..i] + [ops[i]];
      assert Request(ops[i]) && SoundAt(n, ops, i);
      ghost var trace := store.trace;
      Perform(store, ops[i], ops[..i]);
      RecordedStep(n, ops[..i], ops[i], trace, stops, marks, store);
      stops, marks := stops + [store.Now()], marks + [|store.trace|];
      i := i + 1;
    }
    assert ops[..|ops|] == ops;
  }

  lemma AgreesFresh(store: Storage)
    requires store.n >= 192 && store.items == map[]
    ensures Agrees(store, [])
  {
  }

  /** One operation keeps the agreement, loses nothing, and if it is a sync saves everything. */
  method Perform(store: Storage, op: Op, ghost done: seq<Op>)
    requires store.Valid() && Requests(done) && Request(op) && Agrees(store, done) && Asserted(store.n, done, op)
    modifies store
    ensures store.Valid() && Requests(done + [op]) && Agrees(store, done + [op])
    ensures old(store.trace) <= store.trace && store.Since(old(store.Now()), |old(store.trace)|)
    ensures op.SyncOp? ==> forall k :: SavedOf(store.Now(), k) == HeldOf(store.Now(), k)
  {
    hide AbsOf, WrittenSeries, Fed, StoreOk, Contents, Encodable, AcceptedCount, MemAfter, Replay, Flushable, Advanced, Follows,
         SyncedItem, Wrote;
    ghost var n := store.n;
    WroteStep(done, op);
    forall k ensures Requests(done + [op]) && Replay(n, done + [op], k) == After(n, Replay(n, done, k), op, k) {
      ReplayStep(n, done, op, k);
    }
    match op {
      case SyncOp =>
        store.Sync();
        SyncedAll(store.Now());
      case WriteOp(key, ps) =>
        assert store.MemoryOf(key) == Replay(n, done, key).mem;
        var err := store.Write(key, ps);
    }
  }

  lemma WroteStep(done: seq<Op>, op: Op)
    ensures forall k :: Wrote(done + [op], k) <==> Wrote(done, k) || (op.WriteOp? && op.key == k)
  {
    var all := done + [op];
    forall k ensures Wrote(all, k) <==> Wrote(done, k) || (op.WriteOp? && op.key == k) {
      if Wrote(done, k) {
        var i :| 0 <= i < |done| && done[i].WriteOp? && done[i].key == k;
        assert all[i] == done[i];
      }
      if op.WriteOp? && op.key == k { assert all[|done|] == op; }
    }
  }

  lemma SyncedAll(m: Moment)
    requires forall k :: k in m.items ==> SyncedItem(m.data, m.items[k])
    ensures forall k :: SavedOf(m, k) == HeldOf(m, k)
  {
  }

  lemma ReplayStep(n: nat, done: seq<Op>, op: Op, key: Key)
    requires n >= 192 && Requests(done) && Request(op)
    ensures Requests(done + [op]) && Replay(n, done + [op], key) == After(n, Replay(n, done, key), op, key)
  {
    hide After, Request;
    var all := done + [op];
    assert all[..|all| - 1] == done && all[|all| - 1] == op;
  }

  /** storage_get after any run: the accepted points of that key, in order, although they
      may be spread over complete blocks, a stale ACTIVE block and memory. */
  method RunThenGet(n: nat, ops: seq<Op>, key: Key, maxPts: nat) returns (err: Error, out: seq<Point>)
    requires n >= 192 && Requests(ops) && Sound(n, ops)
    ensures err == if !Wrote(ops, key) then LookupFailed
                   else if |Replay(n, ops, key).all| > maxPts then TooManyPoints else ErrOk
    ensures err == ErrOk ==> out == Replay(n, ops, key).all
  {
    hide StoreOk, Contents, Encodable, Replay, Recorded, Sound;
    ghost var stops, marks;
    var store;
    store, stops, marks := RunAll(n, ops);
    err, out := store.Get(key, maxPts);
  }

  /** Runs whose writes all have points, of positive times, meet the asserts. */
  lemma {:induction false} PlainRunsSound(n: nat, ops: seq<Op>)
    requires n >= 192 && Requests(ops)
    requires forall i :: 0 <= i < |ops| && ops[i].WriteOp? ==>
      ops[i].ps != [] && forall j :: 0 <= j < |ops[i].ps| ==> 0 < ops[i].ps[j].t
    ensures Sound(n, ops)
  {
    hide Replay, Encodable, Flushable;
    forall i | 0 <= i < |ops| ensures SoundAt(n, ops, i) {
      match ops[i]
      case WriteOp(key, ps) =>
        FilledByWrites(n, ops[..i], key);
        PositiveFlushable(n, Replay(n, ops[..i], key).mem, ps);
      case SyncOp =>
        forall key | Wrote(ops[..i], key) ensures Replay(n, ops[..i], key).mem != [] && Replay(n, ops[..i], key).mem[0].t > 0 {
          FilledByWrites(n, ops[..i], key);
        }
    }
  }

  /** A series that was ever given a point has points in memory, the first of a positive time. */
  lemma {:induction false} FilledByWrites(n: nat, ops: seq<Op>, key: Key)
    requires n >= 192 && Requests(ops)
    requires forall i :: 0 <= i < |ops| && ops[i].WriteOp? ==>
      ops[i].ps != [] && forall j :: 0 <= j < |ops[i].ps| ==> 0 < ops[i].ps[j].t
    ensures var mem := Replay(n, ops, key).mem; (Wrote(ops, key) ==> mem != []) && (mem != [] ==> mem[0].t > 0)
    decreases |ops|
  {
    hide MemAfter, AcceptedCount, Encodable, Flushable;
    if ops != [] {
      var init, op := ops[..|ops| - 1], ops[|ops| - 1];
      assert ops == init + [op];
      WroteStep(init, op);
      FilledByWrites(n, init, key);
      if op.WriteOp? && op.key == key {
        MemAfterFilled(n, Replay(n, init, key).mem, op.ps);
        PositiveFlushable(n, Replay(n, init, key).mem, op.ps);
      }
    }
  }

  // ----- the moments of a run -----

  /** How the moments of a run lie: after j operations the accepted points are those of the
      replay, all of them saved if the last was a sync; the disk operations of operation j lie
      between the stops around it. */
  ghost predicate Recorded(n: nat, ops: seq<Op>, trace: seq<Moment>, stops: seq<Moment>, marks: seq<nat>)
    requires n >= 192 && Requests(ops)
  {
    && |stops| == |marks| == |ops| + 1 && marks[0] == 0 && marks[|ops|] == |trace|
    && (forall j :: 0 <= j <= |ops| ==> StopOk(n, ops, stops, j))
    && (forall j :: 0 <= j < |ops| ==> StepOk(trace, stops, marks, j))
    && (forall i :: 0 <= i < |trace| ==> MomentOk(trace[i]))
  }

  ghost predicate StopOk(n: nat, ops: seq<Op>, stops: seq<Moment>, j: nat)
    requires n >= 192 && Requests(ops) && j <= |ops| && j < |stops|
  {
    && (forall k :: HeldOf(stops[j], k) == Replay(n, ops[..j], k).all)
    && (j > 0 && ops[j - 1].SyncOp? ==> forall k :: SavedOf(stops[j], k) == HeldOf(stops[j], k))
  }

  ghost predicate StepOk(trace: seq<Moment>, stops: seq<Moment>, marks: seq<nat>, j: nat)
    requires j + 1 < |stops| == |marks|
  {
    && marks[j] <= marks[j + 1] <= |trace| && Follows(stops[j], stops[j + 1])
    && forall i :: marks[j] <= i < marks[j + 1] ==> Follows(stops[j], trace[i]) && Follows(trace[i], stops[j + 1])
  }

  lemma RecordedFresh(n: nat, now: Moment)
    requires n >= 192 && now.items == map[]
    ensures Recorded(n, [], [], [now], [0])
  {
    var none: seq<Op> := [];
    assert none[..0] == none;
  }

  lemma RecordedStep(n: nat, ops: seq<Op>, op: Op, trace: seq<Moment>, stops: seq<Moment>, marks: seq<nat>, store: Storage)
    requires n >= 192 && Requests(ops) && Requests(ops + [op]) && Recorded(n, ops, trace, stops, marks)
    requires store.Valid() && store.n == n && Agrees(store, ops + [op])
    requires trace <= store.trace && store.Since(stops[|ops|], |trace|)
    requires op.SyncOp? ==> forall k :: SavedOf(store.Now(), k) == HeldOf(store.Now(), k)
    ensures Recorded(n, ops + [op], store.trace, stops + [store.Now()], marks + [|store.trace|])
  {
    hide StoreOk, Follows, Replay, SavedOf, Contents;
    var ops', trace', stops', marks' := ops + [op], store.trace, stops + [store.Now()], marks + [|store.trace|];
    forall j | 0 <= j <= |ops'| ensures StopOk(n, ops', stops', j) {
      if j <= |ops| {
        assert StopOk(n, ops, stops, j) && ops'[..j] == ops[..j] && stops'[j] == stops[j];
      } else {
        assert ops'[..j] == ops';
      }
    }
    forall j | 0 <= j < |ops'| ensures StepOk(trace', stops', marks', j) {
      if j < |ops| {
        assert StepOk(trace, stops, marks, j) && stops'[j] == stops[j] && stops'[j + 1] == stops[j + 1];
        assert forall i :: 0 <= i < |trace| ==> trace'[i] == trace[i];
      }
    }
  }

  /** Stops further on in a run follow earlier ones. */
  lemma {:induction false} StopsFollow(n: nat, ops: seq<Op>, trace: seq<Moment>, stops: seq<Moment>, marks: seq<nat>, i: nat, j: nat)
    requires n >= 192 && Requests(ops) && Recorded(n, ops, trace, stops, marks) && i <= j <= |ops|
    ensures Follows(stops[i], stops[j])
    decreases j
  {
    hide Follows, StopOk, MomentOk;
    if i < j {
      StopsFollow(n, ops, trace, stops, marks, i, j - 1);
      assert StepOk(trace, stops, marks, j - 1);
      FollowsTransitive(stops[i], stops[j - 1], stops[j]);
    } else {
      FollowsItself(stops[i]);
    }
  }

  lemma FollowsItself(m: Moment)
    ensures Follows(m, m)
  {
  }

  /** The bounds of a crash: at any disk operation i inside operation j, what is saved of a key
      holds everything accepted up to any sync before, and nothing but points accepted by the
      end of operation j, in order. */
  lemma SavedBounds(n: nat, ops: seq<Op>, trace: seq<Moment>, stops: seq<Moment>, marks: seq<nat>, j: nat, i: nat, sync: nat, key: Key)
    requires n >= 192 && Requests(ops) && Recorded(n, ops, trace, stops, marks)
    requires j < |ops| && marks[j] <= i < marks[j + 1] && sync < j && ops[sync].SyncOp?
    ensures i < |trace|
    ensures Replay(n, ops[..sync + 1], key).all <= SavedOf(trace[i], key) <= Replay(n, ops[..j + 1], key).all
  {
    hide Replay, Recorded, HeldOf, SavedOf;
    SavedUpper(n, ops, trace, stops, marks, j, i, key);
    SavedLower(n, ops, trace, stops, marks, j, i, sync, key);
  }

  lemma SavedLower(n: nat, ops: seq<Op>, trace: seq<Moment>, stops: seq<Moment>, marks: seq<nat>, j: nat, i: nat, sync: nat, key: Key)
    requires n >= 192 && Requests(ops) && Recorded(n, ops, trace, stops, marks)
    requires j < |ops| && marks[j] <= i < marks[j + 1] && sync < j && ops[sync].SyncOp?
    ensures i < |trace| && Replay(n, ops[..sync + 1], key).all <= SavedOf(trace[i], key)
  {
    hide Replay, MomentOk, HeldOf, SavedOf, Follows;
    assert StepOk(trace, stops, marks, j) && StopOk(n, ops, stops, sync + 1);
    StopsFollow(n, ops, trace, stops, marks, sync + 1, j);
    FollowsTransitive(stops[sync + 1], stops[j], trace[i]);
    SavedGrows(stops[sync + 1], trace[i], key);
  }

  lemma SavedGrows(a: Moment, b: Moment, key: Key)
    requires Follows(a, b)
    ensures SavedOf(a, key) <= SavedOf(b, key)
  {
    hide HeldOf, SavedOf;
  }

  /** The upper bound alone needs no sync. */
  lemma SavedUpper(n: nat, ops: seq<Op>, trace: seq<Moment>, stops: seq<Moment>, marks: seq<nat>, j: nat, i: nat, key: Key)
    requires n >= 192 && Requests(ops) && Recorded(n, ops, trace, stops, marks)
    requires j < |ops| && marks[j] <= i < marks[j + 1]
    ensures i < |trace| && SavedOf(trace[i], key) <= HeldOf(trace[i], key) <= Replay(n, ops[..j + 1], key).all
  {
    hide Replay, StoreOk, Contents, SavedPoints;
    assert StepOk(trace, stops, marks, j) && StopOk(n, ops, stops, j + 1) && MomentOk(trace[i]);
    SavedPrefix(trace[i], key);
    assert HeldOf(trace[i], key) <= HeldOf(stops[j + 1], key);
  }

  lemma SavedPrefix(m: Moment, key: Key)
    requires MomentOk(m)
    ensures SavedOf(m, key) <= HeldOf(m, key)
  {
    hide StoreOk, ItemOk, Contents, SavedPoints;
    if key in m.items {
      ItemsOk(m.items, m.list, m.nextId, m.data, m.keys, m.names, key);
      SavedOk(m.data, m.items[key]);
    }
  }
}
