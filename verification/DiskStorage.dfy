/** struct disk_storage: the two files, the in-memory free-list heads, and the operations,
    any of which may die after a given number of written bytes (crash_test.c:75-98). */
module DiskStorage {
  import opened Basics
  import opened Bytes
  import opened Journal
  import opened DiskStore

  /** Dying k bytes into write j. */
  lemma {:induction false} CrashAt(d: Disk, ws: seq<Write>, j: nat, k: nat)
    requires j < |ws| && k <= |ws[j].data|
    ensures Crashed(d, ws, Apply(Run(d, ws[..j]), Torn(ws[j], k)))
    decreases j
  {
    hide Apply;
    if j == 0 {
      assert ws[..0] == [];
    } else {
      assert ws[..j][0] == ws[0] && ws[..j][1..] == ws[1..][..j - 1] && ws[1..][j - 1] == ws[j];
      CrashAt(Apply(d, ws[0]), ws[1..], j - 1, k);
    }
  }

  lemma {:induction false} RunSnoc(d: Disk, ws: seq<Write>, j: nat)
    requires j < |ws|
    ensures Run(d, ws[..j + 1]) == Apply(Run(d, ws[..j]), ws[j])
    decreases j
  {
    hide Apply;
    assert ws[..j + 1][0] == ws[0] && ws[..j + 1][1..] == ws[1..][..j];
    if j == 0 {
      assert ws[..0] == [] && ws[..1][1..] == [];
    } else {
      assert ws[..j][0] == ws[0] && ws[..j][1..] == ws[1..][..j - 1] && ws[1..][j - 1] == ws[j];
      RunSnoc(Apply(d, ws[0]), ws[1..], j - 1);
    }
  }

  /** What a reader sees of one VALID or ACTIVE block. */
  datatype Live = Live(offset: nat, status: Byte, payload: seq<Byte>)

  /** The VALID and ACTIVE blocks from block i on, in file order. */
  ghost function LiveBlocks(main: File, offs: seq<nat>, i: nat): seq<Live>
    requires Tiled(main, offs) && i <= |offs|
    decreases |offs| - i
  {
    if i == |offs| then []
    else
      TileInside(main, offs, i);
      var off := offs[i];
      (if main[off] == VALID || main[off] == ACTIVE
       then [Live(off, main[off], Slice(main, off + HEADER, PoolSize(main[off + 1])))] else [])
      + LiveBlocks(main, offs, i + 1)
  }

  class Store {
    var main: File
    var scratch: File
    var eofOffset: nat
    var nextFree: seq<nat>
    /** Bytes left before the process dies; None when it does not. */
    var budget: Option<nat>
    /** The file position of the scan. */
    var cursor: nat
    ghost var offs: seq<nat>
    ghost var free: seq<seq<nat>>
    ghost var held: set<nat>

    ghost function D(): Disk reads this { Disk(main, scratch) }

    ghost predicate Valid()
      reads this
    {
      && Settled(D()) && eofOffset == |main| < INVALID
      && Consistent(main, offs, nextFree, free, held)
    }

    /** What a dead process leaves: re-opening leads to the file before or after the
        interrupted block write, and to nothing else. */
    ghost predicate DiedIn(before: File, off: nat, buf: seq<Byte>)
      reads this
    {
      Leads(D(), before) || Leads(D(), Overlay(before, off, buf))
    }

    /** maybe_write_ under MUST_WRITE */
    method MustWrite(w: Write) returns (alive: bool)
      modifies this`main, this`scratch, this`budget
      ensures alive <==> old(budget).None? || |w.data| < old(budget).value
      ensures alive && old(budget).Some? ==> budget == Some(old(budget).value - |w.data|)
      ensures alive ==> D() == Apply(old(D()), w)
      ensures !alive ==> exists k :: 0 <= k <= |w.data| && D() == Apply(old(D()), Torn(w, k))
      ensures old(budget).None? ==> alive && budget.None?
    {
      hide Overlay;
      var data := w.data;
      alive := true;
      if budget.Some? {
        if |w.data| < budget.value {
          budget := Some(budget.value - |w.data|);
        } else {
          alive := false;
          data := w.data[..budget.value];
          assert w.(data := data) == Torn(w, budget.value);
        }
      }
      match w.file {
        case Main => main := Overlay(main, w.pos, data);
        case Scratch => scratch := Overlay(scratch, w.pos, data);
      }
      assert D() == Apply(old(D()), w.(data := data));
    }

    /** One write of a script of which the first j are done. */
    method ScriptStep(w: Write, ghost start: Disk, ghost ws: seq<Write>, ghost j: nat) returns (alive: bool)
      requires j < |ws| && ws[j] == w && D() == Run(start, ws[..j])
      modifies this`main, this`scratch, this`budget
      ensures alive ==> D() == Run(start, ws[..j + 1])
      ensures !alive ==> Crashed(start, ws, D())
      ensures old(budget).None? ==> alive && budget.None?
    {
      hide Run, Crashed, Apply;
      alive := MustWrite(w);
      if alive {
        RunSnoc(start, ws, j);
      } else {
        ghost var k :| 0 <= k <= |w.data| && D() == Apply(old(D()), Torn(w, k));
        CrashAt(start, ws, j, k);
      }
    }

    /** disk_storage_write_scratch followed by disk_storage_write_block_for_real: the new
        contents, or, dead, a disk that leads to the old or the new contents. */
    method JournaledWrite(offset: nat, buf: seq<Byte>) returns (alive: bool)
      requires Settled(D()) && 0 < offset < INVALID && |buf| <= U64_MAX && offset + |buf| <= |main|
      modifies this`main, this`scratch, this`budget
      ensures alive ==> main == Overlay(old(main), offset, buf) && Settled(D())
      ensures !alive ==> DiedIn(old(main), offset, buf)
      ensures old(budget).None? ==> alive && budget.None?
    {
      hide Run, Crashed, Settled, Leads, Le, HeaderBytes;
      ghost var d, ws := D(), BlockWrites(offset, buf);
      assert ws[..0] == [] && Run(d, []) == d by { RunNone(d); }
      // write_scratch: invalidate, then size and data, then the header
      alive := ScriptStep(Write(Scratch, 8, Repeat(255, 16)), d, ws, 0);
      if alive { alive := ScriptStep(Write(Scratch, 24, Le(|buf|, 8)), d, ws, 1); }
      if alive { alive := ScriptStep(Write(Scratch, 32, buf), d, ws, 2); }
      if alive { alive := ScriptStep(Write(Scratch, 8, HeaderBytes(offset, Checksum(offset))), d, ws, 3); }
      // write_block_for_real
      if alive { alive := ScriptStep(Write(Main, offset, buf), d, ws, 4); }
      if alive {
        assert ws[..5] == ws;
        WriteCompletes(d, offset, buf);
      } else {
        WriteAtomic(d, offset, buf, D());
      }
    }

    /** disk_storage_write_block: a held block gets a new status and new leading bytes. */
    method WriteBlock(off: nat, status: Byte, buf: seq<Byte>) returns (alive: bool)
      requires Valid() && off in held && (status == VALID || status == ACTIVE)
      requires HeaderAt(main, off) && |buf| <= PoolSize(main[off + 1])
      modifies this`main, this`scratch, this`budget
      ensures old(HeaderAt(main, off))
      ensures alive ==> Valid() && main == Overlay(old(main), off, [status, old(main)[off + 1]] + buf)
      ensures alive ==> forall x :: x in offs && x != off ==> SameBlock(old(main), main, x)
      ensures !alive ==> DiedIn(old(main), off, [status, old(main)[off + 1]] + buf)
      ensures old(budget).None? ==> alive && budget.None?
    {
      hide Settled, Consistent, Leads, SameBlock, Overlay;
      var pool := main[off + 1];
      var record := [status, pool] + buf;
      ghost var before := main;
      HeldInside(main, offs, nextFree, free, held, off);
      RewriteHeld(main, offs, nextFree, free, held, off, record);
      alive := JournaledWrite(off, record);
    }

    /** disk_storage_release_block: the block becomes EMPTY and the head of its pool's list. */
    method ReleaseBlock(off: nat) returns (alive: bool)
      requires Valid() && off in held && HeaderAt(main, off) && main[off] != EMPTY
      modifies this
      ensures old(HeaderAt(main, off)) && old(nextFree[main[off + 1]]) <= U64_MAX
      ensures var record := [EMPTY, old(main)[off + 1]] + Le(old(nextFree[main[off + 1]]), 8);
        && (alive ==> Valid() && main == Overlay(old(main), off, record))
        && (!alive ==> DiedIn(old(main), off, record))
      ensures alive ==> held == old(held) - {off} && offs == old(offs)
      ensures |old(free)| == NUM_POOLS
      ensures alive ==> var pool := old(main)[off + 1]; free == old(free)[pool := [off] + old(free)[pool]]
      ensures alive ==> forall x :: x in offs && x != off ==> SameBlock(old(main), main, x)
      ensures old(budget).None? ==> alive && budget.None?
    {
      hide Settled, Leads, SameBlock, Overlay, Le, Chain;
      var pool := main[off + 1];
      HeldInside(main, offs, nextFree, free, held, off);
      ReleaseHeld(main, offs, nextFree, free, held, off, pool);
      var record := [EMPTY, pool] + Le(nextFree[pool], 8);
      alive := JournaledWrite(off, record);
      if alive {
        nextFree := nextFree[pool := off];
        free := free[pool := [off] + free[pool]];
        held := held - {off};
      }
    }

    /** disk_storage_reserve_block: the head of the pool's free list, or, only if that list is empty, a
        new block at the end of the file. Extending the file is taken as one step. */
    method ReserveBlock(n: nat) returns (ok: bool, off: nat)
      requires Valid() && 2 <= n && |main| + HEADER + PoolSize(PoolId(n)) < INVALID
      modifies this
      ensures ok <==> PoolId(n) < NUM_POOLS
      ensures Valid() && budget == old(budget)
      ensures !ok ==> main == old(main) && held == old(held) && offs == old(offs) && free == old(free)
      ensures ok ==> off !in old(held) && held == old(held) + {off} && off in offs && |old(free)| == NUM_POOLS
      ensures ok && old(free)[PoolId(n)] != [] ==>
        && off == old(free)[PoolId(n)][0] && main == old(main) && offs == old(offs)
        && free == old(free)[PoolId(n) := old(free)[PoolId(n)][1..]]
      ensures ok && old(free)[PoolId(n)] == [] ==>
        && off == |old(main)| && |main| == off + HEADER + PoolSize(PoolId(n)) && old(main) <= main
        && offs == old(offs) + [off] && free == old(free)
      ensures ok ==> HeaderAt(main, off) && main[off + 1] == PoolId(n) && n <= PoolSize(main[off + 1])
      ensures ok ==> main[off] == EMPTY || main[off] == RESERVED
      ensures forall x :: x in old(offs) ==> x in offs && SameBlock(old(main), main, x)
      ensures ok ==> forall x :: x in offs <==> x in old(offs) || x == off
    {
      hide Settled, Consistent, SameBlock, Overlay, PoolId, PoolSize, Tiled;
      var pool := PoolId(n);
      PoolIdLeast(n, pool);
      AllSame(main, offs, nextFree, free, held);
      if pool >= NUM_POOLS {
        return false, 0;
      }
      ok := true;
      HeadsPresent(main, offs, nextFree, free, held, pool);
      if nextFree[pool] != 0 {
        off := nextFree[pool];
        PopFree(main, offs, nextFree, free, held, pool);
        nextFree := nextFree[pool := NextOf(main, off)];
        free := free[pool := free[pool][1..]];
        held := held + {off};
      } else {
        off := eofOffset;
        ExtendTiles(main, offs, nextFree, free, held, pool);
        SettledGrows(D(), Extended(main, pool));
        eofOffset := eofOffset + HEADER + PoolSize(pool);
        main := Extended(main, pool);
        offs := offs + [off];
        held := held + {off};
      }
    }

    /** disk_storage_reserve_and_write_block. Between its two parts the file is `grown`: the
        old blocks and the reserved one, still EMPTY or RESERVED. Dying in the write leaves a
        disk that leads to that file or to the finished one. */
    method ReserveAndWrite(status: Byte, buf: seq<Byte>) returns (ok: bool, alive: bool, off: nat, ghost grown: File)
      requires Valid() && 2 <= |buf| && |main| + HEADER + PoolSize(PoolId(|buf|)) < INVALID
      requires status == VALID || status == ACTIVE
      modifies this
      ensures ok <==> PoolId(|buf|) < NUM_POOLS
      ensures !ok ==> alive && Valid() && main == old(main) && held == old(held) && offs == old(offs) && free == old(free)
      ensures ok ==> |old(free)| == NUM_POOLS
      ensures ok ==> var list := old(free)[PoolId(|buf|)];
        off == (if list != [] then list[0] else |old(main)|)
        && (list != [] ==> grown == old(main) && offs == old(offs) && free == old(free)[PoolId(|buf|) := list[1..]])
        && (list == [] ==> offs == old(offs) + [off] && free == old(free))
      ensures ok && alive ==> Valid() && off !in old(held) && held == old(held) + {off} && off in offs
      ensures ok && alive ==> HeaderAt(main, off) && main[off] == status && main[off + 1] == PoolId(|buf|)
      ensures ok && alive ==> off + HEADER + |buf| <= |main| && Slice(main, off + HEADER, |buf|) == buf
      ensures ok && alive ==> forall x :: x in old(offs) && x != off ==> SameBlock(old(main), main, x)
      ensures ok ==> |grown| < INVALID && Tiled(grown, offs) && off in offs && off !in old(held)
      ensures ok ==> HeaderAt(grown, off) && (grown[off] == EMPTY || grown[off] == RESERVED) && grown[off + 1] == PoolId(|buf|)
      ensures ok ==> forall x :: x in old(offs) ==> x in offs && SameBlock(old(main), grown, x)
      ensures ok ==> forall x :: x in offs <==> x in old(offs) || x == off
      ensures ok ==> Rewrites(grown, off, [status, grown[off + 1]] + buf)
      ensures ok && alive ==> main == Overlay(grown, off, [status, grown[off + 1]] + buf)
      ensures ok && !alive ==> DiedIn(grown, off, [status, grown[off + 1]] + buf)
      ensures old(budget).None? ==> alive && budget.None?
    {
      hide Settled, Consistent, SameBlock, PoolId, PoolSize, Tiled, Leads;
      ghost var m0, o0 := main, offs;
      alive := true;
      ok, off := ReserveBlock(|buf|);
      grown := main;
      if !ok { return; }
      ghost var m1 := main;
      TilesOf(main, offs, nextFree, free, held);
      HeldInside(main, offs, nextFree, free, held, off);
      alive := WriteBlock(off, status, buf);
      if alive {
        WrittenBlock(m1, main, off, status, buf);
        forall x | x in o0 && x != off ensures SameBlock(m0, main, x) {
          SameTwice(m0, m1, main, x);
        }
      }
    }

    /** disk_storage_read_block: the stored status and the whole payload; code 1 for an EMPTY
        block, 2 when the payload does not fit. */
    method ReadBlock(off: nat, maxN: nat) returns (code: nat, status: Byte, payload: seq<Byte>)
      requires Valid() && off in offs
      ensures HeaderAt(main, off) && BlockEnd(main, off) <= |main|
      ensures code == if main[off] == EMPTY then 1 else if PoolSize(main[off + 1]) > maxN then 2 else 0
      ensures code == 0 ==> status == main[off] && payload == Slice(main, off + HEADER, PoolSize(main[off + 1]))
    {
      hide Settled, PoolSize, Chain;
      ghost var i :| 0 <= i < |offs| && offs[i] == off;
      TileInside(main, offs, i);
      status, payload := main[off], [];
      if status == EMPTY { return 1, status, payload; }
      var size := PoolSize(main[off + 1]);
      if size > maxN { return 2, status, payload; }
      return 0, status, Slice(main, off + HEADER, size);
    }

    /** disk_storage_recover_scratch */
    method RecoverScratch() returns (alive: bool)
      requires Recoverable(D())
      modifies this`main, this`scratch, this`budget
      ensures alive ==> main == old(Effective(D())) && Settled(D())
      ensures !alive ==> Leads(D(), old(Effective(D())))
      ensures old(budget).None? ==> alive && budget.None?
    {
      hide Run, Crashed, Settled, Leads, Effective, Recoverable;
      ghost var d, ws := D(), RecoveryWrites(D());
      RecoveryCompletes(d);
      RecoverableVersion(d);
      assert ws[..0] == [] && Run(d, []) == d by { RunNone(d); }
      alive := true;
      if |scratch| < 24 { return; }
      var h0, h1 := FromLe(Slice(scratch, 8, 8)), FromLe(Slice(scratch, 16, 8));
      HeaderRange(scratch);
      if h0 == INVALID || |scratch| < 32 { return; }
      var n := FromLe(Slice(scratch, 24, 8));
      if |scratch| < 32 + n || h1 != Checksum(h0) { return; }
      var buf := Slice(scratch, 32, n);
      alive := ScriptStep(Write(Main, h0, buf), d, ws, 0);
      if alive { alive := ScriptStep(Write(Scratch, 8, Repeat(255, 16)), d, ws, 1); }
      if alive {
        assert ws[..2] == ws;
      } else {
        RecoveryAtomic(d, D());
      }
    }

    /** The files as the operating system has them when a process starts. */
    constructor (m: File, s: File, bytes: Option<nat>)
      ensures main == m && scratch == s && budget == bytes
    {
      main, scratch, budget := m, s, bytes;
      eofOffset, cursor := 0, 0;
      nextFree, offs, free, held := [], [], [], {};
    }

    /** disk_storage_open of existing files: recovery, with empty free lists. The blocks
        that are not EMPTY count as held. */
    method Open(ghost blocks: seq<nat>) returns (alive: bool)
      requires Recoverable(D()) && Tiled(Effective(D()), blocks) && |Effective(D())| < INVALID
      modifies this
      ensures alive ==> Valid() && main == old(Effective(D())) && offs == blocks && free == seq(NUM_POOLS, p => [])
      ensures alive ==> forall x :: x in held <==> x in blocks && HeaderAt(main, x) && main[x] != EMPTY
      ensures !alive ==> Leads(D(), old(Effective(D())))
      ensures old(budget).None? ==> alive && budget.None?
    {
      hide Settled, Leads, Effective, Recoverable, Tiled;
      EffectiveLength(D());
      eofOffset := |main|;
      nextFree := seq(NUM_POOLS, p => 0);
      alive := RecoverScratch();
      offs := blocks;
      free := seq(NUM_POOLS, p => []);
      held := set x | x in blocks && HeaderAt(main, x) && main[x] != EMPTY;
    }

    /** disk_storage_read_blocks_from_start: the next VALID or ACTIVE block after the
        cursor, the end of the file, or a block larger than the buffer. */
    method ReadNext(initial: bool, maxN: nat, ghost i: nat) returns (code: nat, found: Option<Live>, ghost next: nat)
      requires Valid() && (initial ==> i == 0) && i <= |offs|
      requires !initial ==> cursor == if i < |offs| then offs[i] else |main|
      modifies this`cursor
      ensures i <= next <= |offs| && code in {0, 2}
      ensures code == 0 ==> cursor == if next < |offs| then offs[next] else |main|
      ensures code == 0 && found.None? ==> next == |offs| && LiveBlocks(main, offs, i) == []
      ensures code == 0 && found.Some? ==> i < next && LiveBlocks(main, offs, i) == [found.value] + LiveBlocks(main, offs, next)
      ensures code == 2 ==> next < |offs| && HeaderAt(main, offs[next]) && PoolSize(main[offs[next] + 1]) > maxN
                            && LiveBlocks(main, offs, i) == LiveBlocks(main, offs, next)
      ensures code == 0 ==> forall k :: i <= k < next ==> HeaderAt(main, offs[k]) && PoolSize(main[offs[k] + 1]) <= maxN
    {
      hide Settled, PoolSize, Consistent, LiveBlocks, Tiled, TileOk;
      TilesOf(main, offs, nextFree, free, held);
      if initial {
        FirstTile(main, offs);
        cursor := RESERVED_BYTES;
      }
      next := i;
      found := None;
      while true
        invariant i <= next <= |offs|
        invariant cursor == if next < |offs| then offs[next] else |main|
        invariant LiveBlocks(main, offs, i) == LiveBlocks(main, offs, next)
        invariant forall k :: i <= k < next ==> HeaderAt(main, offs[k]) && PoolSize(main[offs[k] + 1]) <= maxN
        decreases |offs| - next
      {
        var off := cursor;
        LiveStep(main, offs, next);
        if off == |main| {
          return 0, None, next;
        }
        assert HeaderAt(main, off);
        var size := PoolSize(main[off + 1]);
        if size > maxN {
          return 2, None, next;
        }
        if main[off] == VALID || main[off] == ACTIVE {
          found := Some(Live(off, main[off], Slice(main, off + HEADER, size)));
          cursor := off + HEADER + size;
          next := next + 1;
          return 0, found, next;
        }
        cursor := off + HEADER + size;
        next := next + 1;
      }
    }

    /** The loop that loads a store: all live blocks exactly once in file order, unless
        some block of any status is larger than the buffer. */
    method ScanAll(maxN: nat) returns (code: nat, blocks: seq<Live>)
      requires Valid()
      modifies this`cursor
      ensures Tiled(main, offs)
      ensures code == 0 <==> forall k :: 0 <= k < |offs| ==> HeaderAt(main, offs[k]) && PoolSize(main[offs[k] + 1]) <= maxN
      ensures code == 0 ==> blocks == LiveBlocks(main, offs, 0)
      ensures blocks <= LiveBlocks(main, offs, 0)
    {
      hide Settled, PoolSize, Consistent, LiveBlocks, Tiled, TileOk;
      TilesOf(main, offs, nextFree, free, held);
      blocks := [];
      var initial := true;
      ghost var i := 0;
      while true
        invariant i <= |offs| && (initial ==> i == 0)
        invariant !initial ==> cursor == if i < |offs| then offs[i] else |main|
        invariant LiveBlocks(main, offs, 0) == blocks + LiveBlocks(main, offs, i)
        invariant forall k :: 0 <= k < i ==> HeaderAt(main, offs[k]) && PoolSize(main[offs[k] + 1]) <= maxN
        decreases |offs| - i
      {
        var found;
        code, found, i := ReadNext(initial, maxN, i);
        if code != 0 || found.None? {
          return;
        }
        initial := false;
        blocks := blocks + [found.value];
      }
    }

    /** disk_storage_open of a file that does not exist yet, taken as one step. */
    constructor Create()
      ensures Valid() && offs == [] && held == {} && |main| == RESERVED_BYTES && budget == None
      ensures free == seq(NUM_POOLS, p => [])
    {
      main := Overlay(Overlay([], 0, Le(VERSION, 8)), RESERVED_BYTES - 1, [0]);
      scratch := Overlay([], 0, Le(VERSION, 8));
      eofOffset, cursor, budget := RESERVED_BYTES, 0, None;
      nextFree := seq(NUM_POOLS, p => 0);
      free := seq(NUM_POOLS, p => []);
      offs, held := [], {};
      new;
      FreshScratch();
    }
  }

  lemma TilesOf(main: File, offs: seq<nat>, nextFree: seq<nat>, free: seq<seq<nat>>, held: set<nat>)
    requires Consistent(main, offs, nextFree, free, held)
    ensures Tiled(main, offs)
  {
  }

  lemma FirstTile(main: File, offs: seq<nat>)
    requires Tiled(main, offs)
    ensures RESERVED_BYTES == if 0 < |offs| then offs[0] else |main|
  {
  }

  /** One round of the scan. */
  lemma LiveStep(main: File, offs: seq<nat>, i: nat)
    requires Tiled(main, offs) && i <= |offs|
    ensures i == |offs| ==> LiveBlocks(main, offs, i) == []
    ensures i < |offs| ==> HeaderAt(main, offs[i]) && BlockEnd(main, offs[i]) <= |main|
    ensures i < |offs| ==> BlockEnd(main, offs[i]) == (if i + 1 < |offs| then offs[i + 1] else |main|)
    ensures i < |offs| ==> var off := offs[i];
      LiveBlocks(main, offs, i) ==
        (if main[off] == VALID || main[off] == ACTIVE
         then [Live(off, main[off], Slice(main, off + HEADER, PoolSize(main[off + 1])))] else [])
        + LiveBlocks(main, offs, i + 1)
  {
    if i < |offs| {
      TileInside(main, offs, i);
      assert TileOk(main, offs, i);
    }
  }

  lemma EffectiveLength(d: Disk)
    requires Recoverable(d)
    ensures |Effective(d)| == |d.main|
  {
    if Quiet(d.scratch) {
      EffectiveQuiet(d);
    } else {
      var r :| HoldsRecord(d.scratch, r) && Fits(d.main, r);
      EffectiveRecord(d, r);
    }
  }

  lemma RunNone(d: Disk)
    ensures Run(d, []) == d
  {
  }

  lemma HeldInside(main: File, offs: seq<nat>, nextFree: seq<nat>, free: seq<seq<nat>>, held: set<nat>, off: nat)
    requires Consistent(main, offs, nextFree, free, held) && off in held
    ensures HeaderAt(main, off) && RESERVED_BYTES <= off && BlockEnd(main, off) <= |main| && off in offs
    ensures |nextFree| == NUM_POOLS == |free|
  {
    hide Chain;
    var i :| 0 <= i < |offs| && offs[i] == off;
    TileInside(main, offs, i);
  }

  /** A pool's head is zero exactly when its list is empty. */
  lemma HeadsPresent(main: File, offs: seq<nat>, nextFree: seq<nat>, free: seq<seq<nat>>, held: set<nat>, pool: nat)
    requires Consistent(main, offs, nextFree, free, held) && pool < NUM_POOLS
    ensures |nextFree| == NUM_POOLS == |free|
    ensures nextFree[pool] == 0 <==> free[pool] == []
    ensures free[pool] != [] ==> nextFree[pool] == free[pool][0]
  {
    hide PoolSize, NextOf, Tiled;
    assert Chain(main, offs, pool, nextFree[pool], free[pool]);
    if free[pool] != [] {
      assert LinkOk(main, offs, pool, free[pool], 0);
      var i :| 0 <= i < |offs| && offs[i] == free[pool][0];
      TileInside(main, offs, i);
    }
  }

  /** Nothing has changed yet. */
  lemma AllSame(main: File, offs: seq<nat>, nextFree: seq<nat>, free: seq<seq<nat>>, held: set<nat>)
    requires Consistent(main, offs, nextFree, free, held)
    ensures forall x :: x in offs ==> SameBlock(main, main, x)
  {
    hide Chain;
    forall x | x in offs ensures SameBlock(main, main, x) {
      var i :| 0 <= i < |offs| && offs[i] == x;
      TileInside(main, offs, i);
    }
  }

  lemma SameTwice(a: File, b: File, c: File, x: nat)
    requires SameBlock(a, b, x) && SameBlock(b, c, x)
    ensures SameBlock(a, c, x)
  {
    SameBlockHeader(a, b, x);
  }

  /** Growing the main file keeps a settled disk settled. */
  lemma SettledGrows(d: Disk, main: File)
    requires Settled(d) && d.main <= main
    ensures Settled(Disk(main, d.scratch))
  {
    hide Quiet, HoldsRecord;
    if !Quiet(d.scratch) {
      var r :| HoldsRecord(d.scratch, r) && Fits(d.main, r) && Slice(d.main, r.offset, |r.buf|) == r.buf;
      assert Slice(main, r.offset, |r.buf|) == Slice(d.main, r.offset, |r.buf|);
      assert HoldsRecord(d.scratch, r) && Fits(main, r);
    }
  }

  lemma WrittenBlock(before: File, main: File, off: nat, status: Byte, buf: seq<Byte>)
    requires HeaderAt(before, off) && |buf| <= PoolSize(before[off + 1]) && BlockEnd(before, off) <= |before|
    requires status < NUM_STATUSES && main == Overlay(before, off, [status, before[off + 1]] + buf)
    ensures HeaderAt(main, off) && main[off] == status && off + HEADER + |buf| <= |main|
    ensures Slice(main, off + HEADER, |buf|) == buf
  {
    hide PoolSize;
    var record := [status, before[off + 1]] + buf;
    assert main[off] == record[0] && main[off + 1] == record[1];
    var part := Slice(main, off + HEADER, |buf|);
    forall k | 0 <= k < |buf| ensures part[k] == buf[k] {
      assert part[k] == main[off + HEADER + k] == record[HEADER + k];
    }
  }

  lemma RecoverableVersion(d: Disk)
    requires Recoverable(d)
    ensures VersionOk(d.scratch) && |d.scratch| > 0
  {
    if !Quiet(d.scratch) {
      var r :| HoldsRecord(d.scratch, r) && Fits(d.main, r);
    }
  }

  lemma HeaderRange(s: File)
    requires |s| >= 24
    ensures FromLe(Slice(s, 8, 8)) <= U64_MAX
  {
    FromLeBound(Slice(s, 8, 8));
    Pow256Eight();
  }

  lemma FreshScratch()
    ensures Quiet(Overlay([], 0, Le(VERSION, 8)))
  {
    hide Le, FromLe;
    var s := Overlay([], 0, Le(VERSION, 8));
    assert Slice(s, 0, 8) == Le(VERSION, 8);
    LeBytes(VERSION);
  }

  predicate IsLive(main: File, off: nat)
  {
    HeaderAt(main, off) && (main[off] == VALID || main[off] == ACTIVE)
  }

  /** The listed payload is the whole block behind its header. */
  predicate PayloadAt(main: File, l: Live)
  {
    HeaderAt(main, l.offset) && BlockEnd(main, l.offset) <= |main|
    && l.payload == Slice(main, l.offset + HEADER, PoolSize(main[l.offset + 1]))
  }

  /** ls lists exactly the live blocks among xs, once each, in increasing offset order. */
  ghost predicate Lists(main: File, xs: seq<nat>, ls: seq<Live>)
  {
    && (forall k :: 0 <= k < |ls| ==> ls[k].offset in xs && IsLive(main, ls[k].offset) && ls[k].status == main[ls[k].offset])
    && (forall k :: 0 <= k < |ls| ==> PayloadAt(main, ls[k]))
    && (forall x :: x in xs && IsLive(main, x) ==> exists k :: 0 <= k < |ls| && ls[k].offset == x)
    && (forall k, l :: 0 <= k < l < |ls| ==> ls[k].offset < ls[l].offset)
  }

  lemma ListsLive(main: File, x: nat, xs: seq<nat>, l: Live, ls: seq<Live>)
    requires Lists(main, xs, ls) && (forall y :: y in xs ==> x < y)
    requires IsLive(main, x) && l.offset == x && l.status == main[x] && PayloadAt(main, l)
    ensures Lists(main, [x] + xs, [l] + ls)
  {
    hide IsLive, PayloadAt;
    var all := [l] + ls;
    forall y | y in [x] + xs && IsLive(main, y) ensures exists k :: 0 <= k < |all| && all[k].offset == y {
      if y == x {
        assert all[0].offset == y;
      } else {
        var k :| 0 <= k < |ls| && ls[k].offset == y;
        assert all[k + 1].offset == y;
      }
    }
  }

  lemma ListsDead(main: File, x: nat, xs: seq<nat>, ls: seq<Live>)
    requires Lists(main, xs, ls) && !IsLive(main, x)
    ensures Lists(main, [x] + xs, ls)
  {
  }

  /** The scan's list holds exactly the VALID and ACTIVE blocks with their payloads, in
      increasing offset order. */
  lemma {:induction false} LiveBlocksExact(main: File, offs: seq<nat>, i: nat)
    requires Tiled(main, offs) && i <= |offs|
    ensures Lists(main, offs[i..], LiveBlocks(main, offs, i))
    decreases |offs| - i
  {
    hide LiveBlocks, PoolSize, Tiled, Lists;
    LiveStep(main, offs, i);
    if i == |offs| {
      EmptyLists(main);
    } else {
      LiveBlocksExact(main, offs, i + 1);
      OffsetsDistinct(main, offs);
      var ls, rest, off := LiveBlocks(main, offs, i), LiveBlocks(main, offs, i + 1), offs[i];
      assert offs[i..] == [off] + offs[i + 1..];
      if IsLive(main, off) {
        ListsLive(main, off, offs[i + 1..], ls[0], rest);
      } else {
        ListsDead(main, off, offs[i + 1..], rest);
        assert ls == rest;
      }
    }
  }

  lemma EmptyLists(main: File)
    ensures Lists(main, [], [])
  {
  }
}
