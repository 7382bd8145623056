/** Whole stories of the block file (disk_storage.c:169-759): an operation dies after any number
    of bytes, re-opens die after any number of bytes, and one open gets through. */
module DiskCrashes {
  import opened Basics
  import opened Bytes
  import opened Journal
  import opened DiskStore
  import opened DiskStorage

  lemma LeadsOpens(d: Disk, m: File)
    requires Leads(d, m)
    ensures Recoverable(d) && Effective(d) == m
  {
  }

  /** Opens that die after each of `later` bytes, and then one that lives: it finds the file
      the disk led to. */
  method Reopen(main: File, scratch: File, later: seq<nat>, ghost blocks: seq<nat>, ghost m: File) returns (store: Store)
    requires Leads(Disk(main, scratch), m) && Tiled(m, blocks) && |m| < INVALID
    ensures fresh(store) && store.Valid() && store.main == m && store.offs == blocks && store.budget.None?
    ensures forall x :: x in store.held <==> x in blocks && HeaderAt(m, x) && m[x] != EMPTY
  {
    hide Settled, Consistent, Leads, Tiled, Effective, Recoverable;
    store := new Store(main, scratch, None);
    var i := 0;
    while i < |later|
      invariant 0 <= i <= |later| && fresh(store) && Leads(store.D(), m)
    {
      var next := new Store(store.main, store.scratch, Some(later[i]));
      LeadsOpens(next.D(), m);
      var alive := next.Open(blocks);
      if alive { SettledLeads(next.D()); }
      store := next;
      i := i + 1;
    }
    store := new Store(store.main, store.scratch, None);
    LeadsOpens(store.D(), m);
    var alive := store.Open(blocks);
  }

  /** A block write across crashes: the old file or the new one, in a valid store. */
  method WriteAcrossCrashes(store: Store, off: nat, status: Byte, buf: seq<Byte>, first: nat, later: seq<nat>)
      returns (reopened: Store)
    requires store.Valid() && off in store.held && (status == VALID || status == ACTIVE)
    requires HeaderAt(store.main, off) && |buf| <= PoolSize(store.main[off + 1])
    modifies store
    ensures fresh(reopened) && reopened.Valid() && reopened.offs == old(store.offs)
    ensures old(HeaderAt(store.main, off))
    ensures reopened.main == old(store.main)
         || reopened.main == Overlay(old(store.main), off, [status, old(store.main)[off + 1]] + buf)
  {
    hide Settled, Consistent, Leads, Overlay, PoolSize, Tiled;
    ghost var m0, blocks := store.main, store.offs;
    ghost var record := [status, m0[off + 1]] + buf;
    ghost var m1 := Overlay(m0, off, record);
    TilesOf(m0, blocks, store.nextFree, store.free, store.held);
    HeldInside(m0, blocks, store.nextFree, store.free, store.held, off);
    RewriteHeld(m0, blocks, store.nextFree, store.free, store.held, off, record);
    TilesOf(m1, blocks, store.nextFree, store.free, store.held);
    store.budget := Some(first);
    var alive := store.WriteBlock(off, status, buf);
    if alive { SettledLeads(store.D()); }
    ghost var m :| (m == m0 || m == m1) && Leads(store.D(), m);
    reopened := Reopen(store.main, store.scratch, later, blocks, m);
  }

  /** A release across crashes: the block is what it was, or EMPTY with its link; no other
      block changes, and after the re-open it is held exactly in the first case. */
  method ReleaseAcrossCrashes(store: Store, off: nat, first: nat, later: seq<nat>) returns (reopened: Store)
    requires store.Valid() && off in store.held && HeaderAt(store.main, off) && store.main[off] != EMPTY
    modifies store
    ensures fresh(reopened) && reopened.Valid() && reopened.offs == old(store.offs)
    ensures forall x :: x in reopened.offs && x != off ==> SameBlock(old(store.main), reopened.main, x)
    ensures old(HeaderAt(store.main, off) && FreeHead(store, off) <= U64_MAX)
    ensures if off in reopened.held then reopened.main == old(store.main)
      else reopened.main == old(Overlay(store.main, off, [EMPTY, store.main[off + 1]] + Le(FreeHead(store, off), 8)))
  {
    hide Settled, Leads, Overlay, PoolSize, Tiled, SameBlock, Le, Chain;
    ghost var m0, blocks, pool := store.main, store.offs, store.main[off + 1];
    TilesOf(m0, blocks, store.nextFree, store.free, store.held);
    HeldInside(m0, blocks, store.nextFree, store.free, store.held, off);
    ReleaseHeld(m0, blocks, store.nextFree, store.free, store.held, off, pool);
    ghost var record := [EMPTY, pool] + Le(store.nextFree[pool], 8);
    ghost var m1 := Overlay(m0, off, record);
    TilesOf(m1, blocks, store.nextFree[pool := off], store.free[pool := [off] + store.free[pool]], store.held - {off});
    ReleasedHeader(m0, off, record);
    AllSame(m0, blocks, store.nextFree, store.free, store.held);
    store.budget := Some(first);
    var alive := store.ReleaseBlock(off);
    if alive { SettledLeads(store.D()); }
    ghost var m :| (m == m0 || m == m1) && Leads(store.D(), m);
    reopened := Reopen(store.main, store.scratch, later, blocks, m);
  }

  /** A first write of a block across crashes: no block a caller holds changes, and the new one
      is not live yet or complete. */
  method ReserveAcrossCrashes(store: Store, status: Byte, buf: seq<Byte>, first: nat, later: seq<nat>)
      returns (ok: bool, off: nat, reopened: Store)
    requires store.Valid() && 2 <= |buf| && |store.main| + HEADER + PoolSize(PoolId(|buf|)) < INVALID
    requires status == VALID || status == ACTIVE
    modifies store
    ensures ok <==> PoolId(|buf|) < NUM_POOLS
    ensures ok ==> fresh(reopened) && reopened.Valid() && off in reopened.offs && off !in old(store.held)
    ensures ok ==> forall x :: x in old(store.offs) && x != off ==> SameBlock(old(store.main), reopened.main, x)
    ensures ok ==> forall x :: x in reopened.offs <==> x in old(store.offs) || x == off
    ensures ok ==> HeaderAt(reopened.main, off) && reopened.main[off + 1] == PoolId(|buf|)
    ensures ok && IsLive(reopened.main, off) ==>
      && reopened.main[off] == status && off + HEADER + |buf| <= |reopened.main|
      && Slice(reopened.main, off + HEADER, |buf|) == buf
  {
    hide Settled, Consistent, Leads, Overlay, PoolSize, PoolId, Tiled, SameBlock;
    ghost var before, blocks := store.main, store.offs;
    store.budget := Some(first);
    ghost var grown;
    var alive;
    ok, alive, off, grown := store.ReserveAndWrite(status, buf);
    reopened := store;
    if ok {
      ghost var record := [status, grown[off + 1]] + buf;
      ghost var m1 := Overlay(grown, off, record);
      FirstWriteKeeps(grown, store.offs, off, status, buf);
      if alive { SettledLeads(store.D()); }
      ghost var m :| (m == grown || m == m1) && Leads(store.D(), m);
      reopened := Reopen(store.main, store.scratch, later, store.offs, m);
      forall x | x in blocks && x != off ensures SameBlock(before, m, x) {
        if m == m1 { SameTwice(before, grown, m1, x); }
      }
    }
  }

  lemma FirstWriteKeeps(grown: File, offs: seq<nat>, off: nat, status: Byte, buf: seq<Byte>)
    requires Tiled(grown, offs) && off in offs && (status == VALID || status == ACTIVE)
    requires HeaderAt(grown, off) && Rewrites(grown, off, [status, grown[off + 1]] + buf)
    ensures var m := Overlay(grown, off, [status, grown[off + 1]] + buf);
      && Tiled(m, offs) && |m| == |grown| && (forall x :: x in offs && x != off ==> SameBlock(grown, m, x))
      && HeaderAt(m, off) && m[off] == status && m[off + 1] == grown[off + 1] && off + HEADER + |buf| <= |m| && Slice(m, off + HEADER, |buf|) == buf
  {
    hide PoolSize, Tiled, SameBlock, Overlay;
    var i :| 0 <= i < |offs| && offs[i] == off;
    TileInside(grown, offs, i);
    RewriteKeeps(grown, offs, i, [status, grown[off + 1]] + buf);
    WrittenBlock(grown, Overlay(grown, off, [status, grown[off + 1]] + buf), off, status, buf);
  }

  /** The head of the free list a block would join. */
  ghost function FreeHead(store: Store, off: nat): nat
    requires HeaderAt(store.main, off) && |store.nextFree| == NUM_POOLS
    reads store
  {
    store.nextFree[store.main[off + 1]]
  }

  lemma ReleasedHeader(m0: File, off: nat, record: seq<Byte>)
    requires HeaderAt(m0, off) && |record| >= HEADER && record[0] == EMPTY && off + |record| <= |m0|
    ensures HeaderAt(Overlay(m0, off, record), off) ==> Overlay(m0, off, record)[off] == EMPTY
    ensures |Overlay(m0, off, record)| == |m0|
  {
  }
}
