/** Whole runs of the store: writes, syncs, cleaning and restarts in any order, against a state
    that knows no ids, offsets or files (storage.c:175-340, 850-943, 1059-1178). */
module StoreMachine {
  import opened Basics
  import opened TscCodec
  import opened TscBlock
  import opened Words
  import opened SeriesStore
  import opened SeriesOps
  import opened Reload
  import opened StoreCrashes

  /** Clean is one turn of the cleaning loop, CleanAll all of clean_items; Restart is a crash
      between operations, storage_init and storage_load. */
  datatype Op = Write(key: Key, ps: seq<Point>) | Sync | Clean(key: Key, t: int) | CleanAll(t: int) | Restart

  type State = map<Key, Series>

  ghost predicate SeriesOk(s: Series) { Encodable(s.mem) && s.active <= s.mem }

  ghost predicate StateOk(st: State) { forall k :: k in st ==> SeriesOk(st[k]) }

  ghost predicate Request(op: Op)
  {
    op.Write? ==> op.key != [] && forall i :: 0 <= i < |op.ps| ==> IsInt64(op.ps[i].t)
  }

  ghost predicate Requests(ops: seq<Op>) { forall i :: 0 <= i < |ops| ==> Request(ops[i]) }

  // ----- one operation on the state -----

  ghost function SeriesAt(st: State, key: Key): Series { if key in st then st[key] else NEW_SERIES }

  /** The cleaning loop deletes a series by the last time in its memory. */
  ghost predicate Expired(s: Series, t: int) { LastTime(s.mem) < t }

  ghost function Cleaned(st: State, keys: set<Key>, t: int): State
  {
    map k | k in st && !(k in keys && Expired(st[k], t)) :: if k in keys then Trimmed(st[k], t) else st[k]
  }

  ghost function Restarted(st: State): State
  {
    map k | k in st && OnDisk(st[k]) != [] :: Reloaded(st[k])
  }

  ghost function Apply(n: nat, st: State, op: Op): (r: State)
    requires n >= 192 && StateOk(st) && Request(op)
    ensures StateOk(r)
  {
    match op
    case Write(key, ps) =>
      NewOk();
      FedOk(n, SeriesAt(st, key), ps);
      st[key := Fed(n, SeriesAt(st, key), ps)]
    case Sync => map k | k in st :: WrittenSeries(st[k], false)
    case Clean(key, t) => Cleaned(st, {key}, t)
    case CleanAll(t) => Cleaned(st, st.Keys, t)
    case Restart =>
      RestartedOk(st);
      Restarted(st)
  }

  ghost function Run(n: nat, ops: seq<Op>): (r: State)
    requires n >= 192 && Requests(ops)
    ensures StateOk(r)
  {
    if ops == [] then map[] else Apply(n, Run(n, ops[..|ops| - 1]), ops[|ops| - 1])
  }

  lemma NewOk()
    ensures SeriesOk(NEW_SERIES)
  {
    EmptyHeader();
  }

  lemma FedOneOk(n: nat, s: Series, p: Point)
    requires n >= 192 && SeriesOk(s) && IsInt64(p.t)
    ensures SeriesOk(FedOne(n, s, p)) && Disk(s) <= Disk(FedOne(n, s, p))
  {
    hide Encodable, AddOutcome, Joined;
    var r := FedOne(n, s, p);
    if Offered(n, s.mem, p).0 {
      JoinedSnoc(s.closed, s.mem);
    }
    DiskIs(s);
    DiskIs(r);
  }

  /** A request loses nothing from disk. */
  lemma {:induction false} FedOk(n: nat, s: Series, ps: seq<Point>)
    requires n >= 192 && SeriesOk(s) && (forall i :: 0 <= i < |ps| ==> IsInt64(ps[i].t))
    ensures SeriesOk(Fed(n, s, ps)) && Disk(s) <= Disk(Fed(n, s, ps))
    decreases |ps|
  {
    hide Encodable, AddOutcome, Disk;
    if ps != [] && Offered(n, s.mem, ps[0]).2 == Added {
      FedOneOk(n, s, ps[0]);
      FedOk(n, FedOne(n, s, ps[0]), ps[1..]);
      PrefixTransitive(Disk(s), Disk(FedOne(n, s, ps[0])), Disk(Fed(n, s, ps)));
    }
  }

  lemma RestartedOk(st: State)
    requires StateOk(st)
    ensures StateOk(Restarted(st))
  {
    hide Encodable;
    forall k | k in st ensures Encodable(st[k].active) {
      assert SeriesOk(st[k]) && st[k].active == st[k].mem[..|st[k].active|];
      PrefixEncodable(st[k].mem, |st[k].active|);
    }
  }

  // ----- what is on disk -----

  ghost function Disk(s: Series): seq<Point> { Joined(OnDisk(s)) }

  ghost function DiskAt(st: State, key: Key): seq<Point> { if key in st then Disk(st[key]) else [] }

  ghost function TotalAt(st: State, key: Key): seq<Point> { if key in st then Total(st[key]) else [] }

  lemma JoinedSnoc(blocks: seq<seq<Point>>, b: seq<Point>)
    ensures Joined(blocks + [b]) == Joined(blocks) + b
  {
    assert (blocks + [b])[..|blocks|] == blocks;
  }

  lemma DiskIs(s: Series)
    ensures Disk(s) == Joined(s.closed) + s.active
  {
    hide Joined;
    if s.active != [] {
      JoinedSnoc(s.closed, s.active);
    } else {
      assert OnDisk(s) == s.closed;
    }
  }

  /** Only cleaning a key takes points of that key off the disk. */
  lemma DiskGrows(n: nat, st: State, op: Op, key: Key)
    requires n >= 192 && StateOk(st) && Request(op)
    requires !op.CleanAll? && !(op.Clean? && op.key == key)
    ensures DiskAt(st, key) <= DiskAt(Apply(n, st, op), key)
    ensures op.Restart? ==> TotalAt(Apply(n, st, op), key) == DiskAt(st, key)
    ensures op.Sync? ==> DiskAt(Apply(n, st, op), key) == TotalAt(st, key) == TotalAt(Apply(n, st, op), key)
  {
    hide Encodable, Joined, Fed, Disk;
    if key in st {
      assert SeriesOk(st[key]);
      DiskIs(st[key]);
      DiskIs(WrittenSeries(st[key], false));
      DiskIs(Reloaded(st[key]));
      NothingJoined();
    }
    if op.Write? {
      NewOk();
      FedOk(n, SeriesAt(st, op.key), op.ps);
    }
  }

  lemma NothingJoined()
    ensures Joined([]) == []
  {
  }

  /** What was synced survives any operations and restarts in which the key is not cleaned. */
  lemma {:induction false} SyncedSurvives(n: nat, ops: seq<Op>, sync: nat, j: nat, key: Key)
    requires n >= 192 && Requests(ops) && sync < j <= |ops| && ops[sync].Sync?
    requires forall i :: sync < i < j ==> !ops[i].CleanAll? && !(ops[i].Clean? && ops[i].key == key)
    ensures TotalAt(Run(n, ops[..sync]), key) <= DiskAt(Run(n, ops[..j]), key)
    decreases j
  {
    hide Run, Apply, DiskAt, TotalAt;
    RunStep(n, ops, j - 1);
    DiskGrows(n, Run(n, ops[..j - 1]), ops[j - 1], key);
    if sync < j - 1 {
      SyncedSurvives(n, ops, sync, j - 1, key);
      PrefixTransitive(TotalAt(Run(n, ops[..sync]), key), DiskAt(Run(n, ops[..j - 1]), key), DiskAt(Run(n, ops[..j]), key));
    }
  }

  lemma RunStep(n: nat, ops: seq<Op>, j: nat)
    requires n >= 192 && Requests(ops) && j < |ops|
    ensures Run(n, ops[..j + 1]) == Apply(n, Run(n, ops[..j]), ops[j])
  {
    assert ops[..j + 1][..j] == ops[..j];
  }

  // ----- the class follows the state -----

  ghost function StateOf(m: Moment): State
  {
    map k | k in m.items :: AbsOf(m.data, m.items[k])
  }

  /** What the source asserts or takes for granted: blocks that are written start at a positive
      time, nothing empty is synced, a deleted series has a key block, and the files at a
      restart are ones storage_load accepts. */
  ghost predicate Legal(n: nat, st: State, op: Op)
    requires n >= 192 && StateOk(st) && Request(op)
  {
    match op
    case Write(key, ps) => NewOk(); Flushable(n, SeriesAt(st, key).mem, ps)
    case Sync => forall k :: k in st ==> st[k].mem != [] && st[k].mem[0].t > 0
    case Clean(key, t) => key in st && (Expired(st[key], t) ==> Storable(key))
    case CleanAll(t) => forall k :: k in st && Expired(st[k], t) ==> Storable(k)
    case Restart => Ordered(st)
  }

  ghost predicate Ordered(st: State) { forall k :: k in st ==> Storable(k) && Increasing(Disk(st[k])) }

  ghost predicate LegalAt(n: nat, ops: seq<Op>, i: nat)
    requires n >= 192 && Requests(ops) && i < |ops|
  {
    Legal(n, Run(n, ops[..i]), ops[i])
  }

  ghost predicate LegalRun(n: nat, ops: seq<Op>)
    requires n >= 192 && Requests(ops)
  {
    forall i :: 0 <= i < |ops| ==> LegalAt(n, ops, i)
  }

  /** Every series has points in memory, of positive times, under a key that can be stored. */
  ghost predicate Plain(st: State)
  {
    forall k :: k in st ==> Storable(k) && st[k].mem != [] && st[k].mem[0].t > 0
  }

  ghost predicate PlainOp(op: Op)
  {
    match op
    case Write(key, ps) => Storable(key) && ps != [] && forall i :: 0 <= i < |ps| ==> ps[i].t > 0
    case Sync => true
    case Clean(_, _) => false
    case CleanAll(_) => true
    case Restart => false
  }

  lemma {:induction false} FedMemory(n: nat, s: Series, ps: seq<Point>)
    requires n >= 192 && Encodable(s.mem) && (forall i :: 0 <= i < |ps| ==> IsInt64(ps[i].t))
    ensures Fed(n, s, ps).mem == MemAfter(n, s.mem, ps)
    decreases |ps|
  {
    hide Encodable, AddOutcome;
    if ps != [] {
      OfferedEncodable(n, s.mem, ps[0]);
      if Offered(n, s.mem, ps[0]).2 == Added { FedMemory(n, FedOne(n, s, ps[0]), ps[1..]); }
    }
  }

  lemma PlainStep(n: nat, st: State, op: Op)
    requires n >= 192 && StateOk(st) && Request(op) && Plain(st) && PlainOp(op)
    ensures Legal(n, st, op) && Plain(Apply(n, st, op))
  {
    hide Encodable, Fed, MemAfter, Flushable, Storable;
    match op
    case Write(key, ps) =>
      NewOk();
      var s := SeriesAt(st, key);
      PositiveFlushable(n, s.mem, ps);
      FedMemory(n, s, ps);
      MemAfterFilled(n, s.mem, ps);
    case Sync =>
    case CleanAll(t) =>
      forall k | k in Cleaned(st, st.Keys, t) ensures Cleaned(st, st.Keys, t)[k].mem == st[k].mem {
        CleanedExact(st, st.Keys, t, k);
      }
  }

  /** Runs of writes of positive times, syncs and full cleanings are legal. */
  lemma {:induction false} PlainRunLegal(n: nat, ops: seq<Op>)
    requires n >= 192 && Requests(ops) && forall i :: 0 <= i < |ops| ==> PlainOp(ops[i])
    ensures LegalRun(n, ops) && Plain(Run(n, ops))
    decreases |ops|
  {
    hide Legal, Apply, PlainOp, Plain;
    if ops == [] {
      assert Plain(Run(n, ops)) by { PlainNone(); }
    } else {
      var m := |ops| - 1;
      PlainRunLegal(n, ops[..m]);
      PlainStep(n, Run(n, ops[..m]), ops[m]);
      forall i | 0 <= i < |ops| ensures LegalAt(n, ops, i) {
        if i < m {
          assert LegalAt(n, ops[..m], i) && ops[..m][..i] == ops[..i];
        }
      }
    }
  }

  lemma PlainNone()
    ensures Plain(map[])
  {
  }

  /** The points of a moment are those of its state. */
  lemma StatePoints(m: Moment, key: Key)
    ensures HeldOf(m, key) == TotalAt(StateOf(m), key) && SavedOf(m, key) == DiskAt(StateOf(m), key)
  {
    hide Joined, Points, BlockPoints;
    if key in m.items {
      ContentsTotal(m.data, m.items[key]);
      ContentsTotal(m.data, Saved(m.data, m.items[key]));
      DiskIs(AbsOf(m.data, m.items[key]));
    }
  }

  lemma MomentState(m: Moment)
    requires MomentOk(m)
    ensures StateOk(StateOf(m))
  {
    hide StoreOk, ItemOk, Encodable;
    forall k | k in m.items ensures SeriesOk(AbsOf(m.data, m.items[k])) {
      ItemsOk(m.items, m.list, m.nextId, m.data, m.keys, m.names, k);
      ItemSeries(m.data, m.items[k]);
    }
  }

  lemma ItemSeries(data: map<nat, DataBlock>, it: Item)
    requires ItemOk(data, it)
    ensures SeriesOk(AbsOf(data, it))
  {
    hide Encodable, BlockPoints;
  }

  lemma OrderedMoment(m: Moment)
    ensures Ordered(StateOf(m)) <==> Orderly(m)
  {
    hide SavedOf, HeldOf, Increasing, Storable, Disk, AbsOf;
    forall k ensures SavedOf(m, k) == DiskAt(StateOf(m), k) { StatePoints(m, k); }
  }

  // ----- running the class -----

  /** How the disk operations of one operation lie: they add points, or they take old ones away;
      a restart only reads. */
  ghost predicate StepsOk(op: Op, a: Moment, steps: seq<Moment>, b: Moment)
  {
    && (forall i :: 0 <= i < |steps| ==> MomentOk(steps[i]))
    && match op
       case Write(_, _) => Advanced(a, 0, steps, b)
       case Sync => Advanced(a, 0, steps, b)
       case Clean(_, _) => Receded(a, 0, steps, b)
       case CleanAll(_) => Receded(a, 0, steps, b)
       case Restart => steps == []
  }

  lemma StepsSince(store: Storage, a: Moment, t0: nat)
    requires store.Valid() && t0 <= |store.trace|
    ensures forall i :: 0 <= i < |store.trace[t0..]| ==> MomentOk(store.trace[t0..][i])
    ensures Advanced(a, t0, store.trace, store.Now()) ==> Advanced(a, 0, store.trace[t0..], store.Now())
    ensures Receded(a, t0, store.trace, store.Now()) ==> Receded(a, 0, store.trace[t0..], store.Now())
  {
    hide StoreOk, Follows, Shrinks;
  }

  /** One operation of the class is one operation on the state. */
  method Perform(store: Storage, op: Op) returns (store': Storage, ghost steps: seq<Moment>)
    requires store.Valid() && Request(op) && StateOk(StateOf(store.Now())) && Legal(store.n, StateOf(store.Now()), op)
    modifies store
    ensures (store' == store || fresh(store')) && store'.Valid() && store'.n == store.n
    ensures StateOf(store'.Now()) == Apply(store.n, old(StateOf(store.Now())), op)
    ensures StepsOk(op, old(store.Now()), steps, store'.Now())
  {
    hide StoreOk, Encodable, AbsOf, Fed, Flushable, Advanced, Receded, Contents;
    assert forall k :: k in store.items ==> k in StateOf(store.Now()) && StateOf(store.Now())[k].mem == store.items[k].mem;
    match op {
      case Write(key, ps) => PerformWrite(store, key, ps);
      case Sync => PerformSync(store);
      case Clean(key, t) => CleanItem(store, key, t);
      case CleanAll(t) => CleanItems(store, t);
      case Restart =>
        store' := PerformRestart(store);
        steps := [];
        return;
    }
    store', steps := store, store.trace[|old(store.trace)|..];
    StepsSince(store, old(store.Now()), |old(store.trace)|);
  }

  method PerformWrite(store: Storage, key: Key, ps: seq<Point>)
    requires store.Valid() && key != [] && (forall i :: 0 <= i < |ps| ==> IsInt64(ps[i].t))
    requires StateOk(StateOf(store.Now())) && Legal(store.n, StateOf(store.Now()), Write(key, ps))
    modifies store
    ensures store.Valid() && old(store.trace) <= store.trace && store.Since(old(store.Now()), |old(store.trace)|)
    ensures StateOf(store.Now()) == Apply(store.n, old(StateOf(store.Now())), Write(key, ps))
  {
    hide StoreOk, Encodable, AbsOf, Fed, Flushable, Advanced, Contents;
    ghost var st := StateOf(store.Now());
    NewOk();
    assert store.MemoryOf(key) == SeriesAt(st, key).mem;
    var err := store.Write(key, ps);
    SameState(StateOf(store.Now()), st[key := Fed(store.n, SeriesAt(st, key), ps)]);
  }

  lemma SameState(a: State, b: State)
    requires a.Keys == b.Keys && forall k :: k in a ==> a[k] == b[k]
    ensures a == b
  {
  }

  method PerformSync(store: Storage)
    requires store.Valid() && StateOk(StateOf(store.Now())) && Legal(store.n, StateOf(store.Now()), Sync)
    modifies store
    ensures store.Valid() && old(store.trace) <= store.trace && store.Since(old(store.Now()), |old(store.trace)|)
    ensures StateOf(store.Now()) == Apply(store.n, old(StateOf(store.Now())), Sync)
  {
    hide StoreOk, Encodable, AbsOf, WrittenSeries, Advanced, Contents, SyncedItem;
    ghost var st := StateOf(store.Now());
    assert forall k :: k in store.items ==> k in st && store.items[k].mem == st[k].mem;
    store.Sync();
    SameState(StateOf(store.Now()), map k | k in st :: WrittenSeries(st[k], false));
  }

  /** One turn of the cleaning loop: the series is trimmed, or deleted when the trim asks for it. */
  method CleanItem(store: Storage, key: Key, t: int)
    requires store.Valid() && key in store.items && (LastTime(store.items[key].mem) < t ==> Storable(key))
    modifies store
    ensures store.Valid() && old(store.trace) <= store.trace && Receded(old(store.Now()), |old(store.trace)|, store.trace, store.Now())
    ensures StateOf(store.Now()) == Cleaned(old(StateOf(store.Now())), {key}, t)
    ensures key in store.items <==> LastTime(old(store.items[key].mem)) >= t
    ensures key in store.items ==> Tight(store.Abs(key), t) && store.items[key].mem == old(store.items[key].mem)
    ensures forall k :: k != key ==> (k in store.items <==> k in old(store.items))
  {
    hide StoreOk, ItemOk, AbsOf, Receded, Contents, Points, SaveIndex, Among, Trimmed, Storable, Tight;
    ghost var st := StateOf(store.Now());
    var shouldDelete := store.Trim(key, t);
    if shouldDelete {
      ghost var mid, done := store.Now(), store.trace;
      store.DeleteItem(key);
      RecededTwice(old(store.Now()), |old(store.trace)|, done, mid, store.trace, store.Now());
    }
    SameState(StateOf(store.Now()), Cleaned(st, {key}, t));
  }

  lemma RecededTwice(base: Moment, t0: nat, trace: seq<Moment>, mid: Moment, trace': seq<Moment>, now: Moment)
    requires Receded(base, t0, trace, mid) && Receded(mid, |trace|, trace', now) && trace <= trace'
    ensures Receded(base, t0, trace', now)
  {
    hide Shrinks;
    ShrinksTransitive(base, mid, now);
    forall i | t0 <= i < |trace'| ensures Shrinks(base, trace'[i]) && Shrinks(trace'[i], now) {
      if i < |trace| {
        assert trace'[i] == trace[i];
        ShrinksTransitive(trace[i], mid, now);
      } else {
        ShrinksTransitive(base, mid, trace'[i]);
      }
    }
  }

  /** clean_items: every series of the list in turn. */
  method CleanItems(store: Storage, t: int)
    requires store.Valid() && forall k :: k in store.items && LastTime(store.items[k].mem) < t ==> Storable(k)
    modifies store
    ensures store.Valid() && old(store.trace) <= store.trace && Receded(old(store.Now()), |old(store.trace)|, store.trace, store.Now())
    ensures StateOf(store.Now()) == Cleaned(old(StateOf(store.Now())), old(store.items.Keys), t)
    ensures forall k :: k in store.items <==> k in old(store.items) && LastTime(old(store.items[k].mem)) >= t
    ensures forall k :: k in store.items ==> Tight(store.Abs(k), t)
  {
    hide StoreOk, ItemOk, AbsOf, Receded, Contents, Trimmed, Storable, Cleaned, Tight;
    ghost var st := StateOf(store.Now());
    var todo := store.list;
    ListedItems(store.items, store.list, store.nextId, store.data, store.keys, store.names);
    RecededNone(store.Now(), store.trace);
    CleanedNone(st, t);
    ghost var seen: set<Key> := {};
    var i := 0;
    while i < |todo|
      invariant 0 <= i <= |todo| && store.Valid() && old(store.trace) <= store.trace
      invariant forall k :: k in seen <==> k in todo[..i]
      invariant StateOf(store.Now()) == Cleaned(st, seen, t)
      invariant Receded(old(store.Now()), |old(store.trace)|, store.trace, store.Now())
    {
      var key := todo[i];
      assert todo[..i + 1] == todo[..i] + [key];
      assert key in todo && key !in seen by { NotBefore(todo, i); }
      CleanedNext(st, seen, key, t);
      assert key in StateOf(store.Now());
      ghost var mid, done := store.Now(), store.trace;
      CleanItem(store, key, t);
      RecededTwice(old(store.Now()), |old(store.trace)|, done, mid, store.trace, store.Now());
      seen := seen + {key};
      i := i + 1;
    }
    assert todo[..|todo|] == todo;
    assert seen == old(store.items.Keys);
    forall k ensures k in store.items <==> k in old(store.items) && LastTime(old(store.items[k].mem)) >= t
             ensures k in store.items ==> Tight(store.Abs(k), t)
    {
      assert k in store.items ==> StateOf(store.Now())[k] == store.Abs(k);
      CleanedExact(st, seen, t, k);
    }
  }

  /** What cleaning does to one key: nothing to one not cleaned; otherwise it is gone exactly when its
      memory is older than the cut, and what is left could not be trimmed further. */
  lemma CleanedExact(st: State, keys: set<Key>, t: int, key: Key)
    ensures var r := Cleaned(st, keys, t);
      && (key in r <==> key in st && !(key in keys && LastTime(st[key].mem) < t))
      && (key in r && key !in keys ==> r[key] == st[key])
      && (key in r && key in keys ==> Tight(r[key], t) && r[key].mem == st[key].mem && r[key].active == st[key].active)
      && (key in r && key in keys ==> exists k :: 0 <= k <= |st[key].closed| && r[key].closed == st[key].closed[k..])
  {
    hide Trimmed, Tight;
    if key in st { TrimmedTight(st[key], t); }
  }

  lemma NotBefore(todo: seq<Key>, i: nat)
    requires Distinct(todo) && i < |todo|
    ensures todo[i] !in todo[..i]
  {
  }

  lemma CleanedNone(st: State, t: int)
    ensures Cleaned(st, {}, t) == st
  {
    SameState(Cleaned(st, {}, t), st);
  }

  lemma CleanedNext(st: State, seen: set<Key>, key: Key, t: int)
    requires key in st && key !in seen
    ensures key in Cleaned(st, seen, t) && Cleaned(st, seen, t)[key] == st[key]
    ensures Cleaned(Cleaned(st, seen, t), {key}, t) == Cleaned(st, seen + {key}, t)
  {
    SameState(Cleaned(Cleaned(st, seen, t), {key}, t), Cleaned(st, seen + {key}, t));
  }

  /** A crash between operations, storage_init and storage_load. */
  method PerformRestart(store: Storage) returns (store': Storage)
    requires store.Valid() && StateOk(StateOf(store.Now())) && Legal(store.n, StateOf(store.Now()), Restart)
    ensures fresh(store') && store'.Valid() && store'.n == store.n
    ensures StateOf(store'.Now()) == Apply(store.n, StateOf(store.Now()), Restart)
  {
    hide StoreOk, AbsOf, Contents, Orderly, Ordered, Reloaded, SavedOf;
    ghost var m := store.Now();
    OrderedMoment(m);
    var dataScan := Enumerate(store.data.Keys);
    var keyScan := Enumerate(store.keys.Keys);
    store' := LoadMoment(store.n, store.data, store.keys, dataScan, keyScan, m);
    forall k ensures k in StateOf(m) && OnDisk(StateOf(m)[k]) != [] <==> SavedOf(m, k) != [] {
      SavedOnDisk(m, k);
    }
    SameState(StateOf(store'.Now()), Restarted(StateOf(m)));
  }

  /** A series has a block on disk exactly when it has saved points. */
  lemma SavedOnDisk(m: Moment, key: Key)
    requires MomentOk(m)
    ensures SavedOf(m, key) != [] <==> key in StateOf(m) && OnDisk(StateOf(m)[key]) != []
  {
    hide StoreOk, ItemOk, Points, Encodable;
    if key in m.items {
      var it := m.items[key];
      ItemsOk(m.items, m.list, m.nextId, m.data, m.keys, m.names, key);
      StatePoints(m, key);
      if OnDisk(StateOf(m)[key]) != [] {
        WrittenFirst(m.data, it);
        FirstBlockPoints(m.data, it, 0);
      } else {
        NothingJoined();
      }
    }
  }

  lemma WrittenFirst(data: map<nat, DataBlock>, it: Item)
    requires ItemOk(data, it) && OnDisk(AbsOf(data, it)) != []
    ensures it.offsets != [] && it.offsets[0].offset != 0
  {
    hide Encodable;
    if |it.offsets| > 1 { assert ClosedOk(data, it.id, it.offsets[0]); }
  }

  // ----- whole runs -----

  /** The moments of a run: after j operations the store has the state of the run, and the disk
      operations of operation j lie between the stops around it. */
  ghost predicate Recorded(n: nat, ops: seq<Op>, stops: seq<Moment>, steps: seq<seq<Moment>>)
    requires n >= 192 && Requests(ops)
  {
    && |stops| == |ops| + 1 && |steps| == |ops|
    && (forall j :: 0 <= j <= |ops| ==> StopOk(n, ops, stops, j))
    && (forall j :: 0 <= j < |ops| ==> StepOk(ops, stops, steps, j))
  }

  ghost predicate StopOk(n: nat, ops: seq<Op>, stops: seq<Moment>, j: nat)
    requires n >= 192 && Requests(ops) && j <= |ops| && j < |stops|
  {
    MomentOk(stops[j]) && StateOf(stops[j]) == Run(n, ops[..j])
  }

  ghost predicate StepOk(ops: seq<Op>, stops: seq<Moment>, steps: seq<seq<Moment>>, j: nat)
    requires j < |ops| == |steps| < |stops|
  {
    StepsOk(ops[j], stops[j], steps[j], stops[j + 1])
  }

  /** Any legal run from an empty store leaves the state the run has without files. */
  method RunMachine(n: nat, ops: seq<Op>) returns (store: Storage, ghost stops: seq<Moment>, ghost steps: seq<seq<Moment>>)
    requires n >= 192 && Requests(ops) && LegalRun(n, ops)
    ensures fresh(store) && store.Valid() && store.n == n && StateOf(store.Now()) == Run(n, ops)
    ensures Recorded(n, ops, stops, steps) && stops[|ops|] == store.Now()
  {
    hide StoreOk, Contents, AbsOf, Run, Apply, Recorded, StepsOk, Legal;
    store := new Storage(n);
    stops, steps := [store.Now()], [];
    assert ops[..0] == [];
    RecordedFresh(n, store.Now());
    var i := 0;
    while i < |ops|
      invariant 0 <= i <= |ops| && fresh(store) && store.Valid() && store.n == n
      invariant Requests(ops[..i]) && StateOf(store.Now()) == Run(n, ops[..i])
      invariant |stops| == i + 1 && stops[i] == store.Now() && Recorded(n, ops[..i], stops, steps)
    {
      assert Request(ops[i]) && LegalAt(n, ops, i);
      RunStep(n, ops, i);
      assert ops[..i + 1] == ops[..i] + [ops[i]];
      ghost var taken;
      store, taken := Perform(store, ops[i]);
      RecordedNext(n, ops[..i], ops[i], stops, steps, taken, store.Now());
      stops, steps := stops + [store.Now()], steps + [taken];
      i := i + 1;
    }
    assert ops[..|ops|] == ops;
  }

  lemma RecordedFresh(n: nat, now: Moment)
    requires n >= 192 && now.items == map[] && MomentOk(now)
    ensures Recorded(n, [], [now], []) && StateOf(now) == Run(n, [])
  {
    hide MomentOk;
    var none: seq<Op> := [];
    assert none[..0] == none && StateOf(now) == map[];
  }

  lemma RecordedNext(n: nat, ops: seq<Op>, op: Op, stops: seq<Moment>, steps: seq<seq<Moment>>, taken: seq<Moment>, now: Moment)
    requires n >= 192 && Requests(ops) && Requests(ops + [op]) && Recorded(n, ops, stops, steps)
    requires MomentOk(now) && StateOf(now) == Run(n, ops + [op]) && StepsOk(op, stops[|ops|], taken, now)
    ensures Recorded(n, ops + [op], stops + [now], steps + [taken])
  {
    hide MomentOk, StepsOk, Run, StateOf;
    var ops', stops', steps' := ops + [op], stops + [now], steps + [taken];
    forall j | 0 <= j <= |ops'| ensures StopOk(n, ops', stops', j) {
      if j <= |ops| {
        assert StopOk(n, ops, stops, j) && ops'[..j] == ops[..j] && stops'[j] == stops[j];
      } else {
        assert ops'[..j] == ops';
      }
    }
    forall j | 0 <= j < |ops'| ensures StepOk(ops', stops', steps', j) {
      if j < |ops| {
        assert StepOk(ops, stops, steps, j) && stops'[j] == stops[j] && stops'[j + 1] == stops[j + 1];
      }
    }
  }

  /** storage_get after any legal run. */
  method MachineThenGet(n: nat, ops: seq<Op>, key: Key, maxPts: nat) returns (err: Error, out: seq<Point>)
    requires n >= 192 && Requests(ops) && LegalRun(n, ops)
    ensures err == if key !in Run(n, ops) then LookupFailed
                   else if |Total(Run(n, ops)[key])| > maxPts then TooManyPoints else ErrOk
    ensures err == ErrOk ==> out == Total(Run(n, ops)[key])
  {
    hide StoreOk, Contents, AbsOf, Run, Recorded, LegalRun, Total;
    ghost var stops, steps;
    var store;
    store, stops, steps := RunMachine(n, ops);
    if key in store.items { ContentsTotal(store.data, store.items[key]); }
    err, out := store.Get(key, maxPts);
  }

  /** A crash at disk operation i of operation j of a legal run: the files load, and what each key
      then has lies between what was on disk before operation j and what is there after it. */
  lemma CrashedMachineLoads(n: nat, ops: seq<Op>, stops: seq<Moment>, steps: seq<seq<Moment>>, j: nat, i: nat)
    requires n >= 192 && Requests(ops) && Recorded(n, ops, stops, steps) && j < |ops| && i < |steps[j]|
    requires Ordered(Run(n, ops[..j])) && Ordered(Run(n, ops[..j + 1]))
    ensures var m := steps[j][i]; MomentOk(m) && Orderly(m) && LoadableData(m.data) && KeysCover(m.keys, m.names, m.data)
    ensures ops[j].Write? || ops[j].Sync? ==>
      (forall key :: DiskAt(Run(n, ops[..j]), key) <= SavedOf(steps[j][i], key) <= DiskAt(Run(n, ops[..j + 1]), key))
    ensures ops[j].Clean? || ops[j].CleanAll? ==>
      (forall key :: Suffix(SavedOf(steps[j][i], key), DiskAt(Run(n, ops[..j]), key))
                     && Suffix(DiskAt(Run(n, ops[..j + 1]), key), SavedOf(steps[j][i], key)))
    ensures !ops[j].Restart?
  {
    hide StoreOk, Run, SavedOf, HeldOf, Ordered, Orderly, LoadableData, KeysCover, DiskAt, TotalAt, StateOf, Suffix;
    var a, m, b := stops[j], steps[j][i], stops[j + 1];
    assert StopOk(n, ops, stops, j) && StopOk(n, ops, stops, j + 1) && StepOk(ops, stops, steps, j);
    OrderedMoment(a);
    OrderedMoment(b);
    forall key ensures SavedOf(a, key) == DiskAt(Run(n, ops[..j]), key) && SavedOf(b, key) == DiskAt(Run(n, ops[..j + 1]), key) {
      StatePoints(a, key);
      StatePoints(b, key);
    }
    if ops[j].Write? || ops[j].Sync? {
      assert Follows(a, m) && Follows(m, b);
      FollowedOrderly(m, b);
    } else {
      assert Shrinks(a, m) && Shrinks(m, b);
      ShrunkOrderly(a, m);
    }
    MomentLoadable(m);
  }

  /** What was synced is still there after a crash inside any later write or sync, with any
      restarts in between, as long as the key was not cleaned. */
  lemma SyncedSurvivesCrash(n: nat, ops: seq<Op>, stops: seq<Moment>, steps: seq<seq<Moment>>, sync: nat, j: nat, i: nat, key: Key)
    requires n >= 192 && Requests(ops) && Recorded(n, ops, stops, steps) && sync < j < |ops| && i < |steps[j]|
    requires ops[sync].Sync? && (ops[j].Write? || ops[j].Sync?)
    requires forall k :: sync < k < j ==> !ops[k].CleanAll? && !(ops[k].Clean? && ops[k].key == key)
    requires Ordered(Run(n, ops[..j])) && Ordered(Run(n, ops[..j + 1]))
    ensures TotalAt(Run(n, ops[..sync]), key) <= SavedOf(steps[j][i], key)
  {
    hide Run, StopOk, StepOk, SavedOf, Ordered, Orderly, LoadableData, KeysCover, DiskAt, TotalAt, MomentOk;
    SyncedSurvives(n, ops, sync, j, key);
    CrashedMachineLoads(n, ops, stops, steps, j, i);
    PrefixTransitive(TotalAt(Run(n, ops[..sync]), key), DiskAt(Run(n, ops[..j]), key), SavedOf(steps[j][i], key));
  }

  lemma FollowedOrderly(a: Moment, b: Moment)
    requires Follows(a, b) && Orderly(b)
    ensures Orderly(a)
  {
    hide HeldOf, SavedOf, Storable, Increasing;
    forall k | k in a.items ensures Storable(k) && Increasing(SavedOf(a, k)) {
      PrefixIncreasing(SavedOf(a, k), SavedOf(b, k));
    }
  }

  // ----- what cleaning loses -----

  /** A trim of a series in time order loses points older than the cut and no others. */
  lemma TrimLosesOld(s: Series, t: int) returns (lost: seq<Point>)
    requires SeriesOk(s) && Increasing(Total(s))
    ensures Total(s) == lost + Total(Trimmed(s, t)) && AllOlder(lost, t)
  {
    hide Encodable, Joined;
    var gone := OldBlocks(OnDisk(s), t);
    if gone == 0 {
      return [];
    }
    lost := Joined(s.closed[..gone - 1]);
    OldBlocksExact(OnDisk(s), t);
    assert OnDisk(s)[gone - 1] != [] && OnDisk(s)[gone - 1][0].t < t;
    JoinedSplit(s.closed, gone - 1);
    if gone - 1 < |s.closed| {
      JoinedHead(s.closed[gone - 1..]);
    } else {
      assert s.closed[gone - 1..] == [];
      NothingJoined();
    }
    var all := Total(s);
    assert all[|lost|].t < t;
    forall i | 0 <= i < |lost| ensures lost[i].t < t { assert all[i] == lost[i]; }
  }

  lemma {:induction false} JoinedSplit(blocks: seq<seq<Point>>, i: nat)
    requires i <= |blocks|
    ensures Joined(blocks) == Joined(blocks[..i]) + Joined(blocks[i..])
    decreases |blocks|
  {
    hide Joined;
    NothingJoined();
    if i == |blocks| {
      assert blocks[..i] == blocks && blocks[i..] == [];
    } else {
      var init, last := blocks[..|blocks| - 1], blocks[|blocks| - 1];
      JoinedSplit(init, i);
      JoinedSnoc(init[i..], last);
      JoinedSnoc(init, last);
      assert blocks == init + [last] && init[..i] == blocks[..i] && init[i..] + [last] == blocks[i..];
    }
  }

  lemma JoinedHead(blocks: seq<seq<Point>>)
    requires blocks != [] && blocks[0] != []
    ensures |Joined(blocks)| > 0 && Joined(blocks)[0] == blocks[0][0]
  {
    JoinedSplit(blocks, 1);
    assert blocks[..1] == [] + [blocks[0]];
    JoinedSnoc([], blocks[0]);
  }

  /** Cleaning a series in time order whose memory is not empty loses points older than the cut
      and no others, whether the series is trimmed or deleted. */
  lemma CleanLosesOld(st: State, keys: set<Key>, t: int, key: Key) returns (lost: seq<Point>)
    requires StateOk(st) && key in st && Increasing(Total(st[key])) && st[key].mem != []
    ensures TotalAt(st, key) == lost + TotalAt(Cleaned(st, keys, t), key) && AllOlder(lost, t)
  {
    hide Encodable, Joined, Trimmed;
    var s := st[key];
    assert SeriesOk(s);
    if key !in keys {
      return [];
    }
    if Expired(s, t) {
      lost := Total(s);
      assert lost[|lost| - 1] == s.mem[|s.mem| - 1];
    } else {
      lost := TrimLosesOld(s, t);
    }
  }
}
