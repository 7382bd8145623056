/** The allocator over time (disk_storage.c:667-759): released blocks are used again, and the file
    holds no more blocks of a size than were ever in use at once. */
module DiskReuse {
  import opened Bytes
  import opened Journal
  import opened DiskStore
  import opened DiskStorage

  /** Release a block, then reserve one of its size: the same block, and the file does not grow. */
  method ReleaseThenReserve(store: Store, off: nat, n: nat) returns (off': nat)
    requires store.Valid() && store.budget.None? && off in store.held && HeaderAt(store.main, off) && store.main[off] != EMPTY
    requires 2 <= n && PoolId(n) == store.main[off + 1] && |store.main| + HEADER + PoolSize(PoolId(n)) < INVALID
    modifies store
    ensures store.Valid() && off' == off && |store.main| == |old(store.main)| && store.offs == old(store.offs)
    ensures store.held == old(store.held) && store.free == old(store.free)
    ensures forall x :: x in store.offs && x != off ==> SameBlock(old(store.main), store.main, x)
  {
    hide Settled, Consistent, PoolId, PoolSize, Le, SameBlock;
    ghost var pool, m0, free0 := store.main[off + 1], store.main, store.free;
    HeldInside(store.main, store.offs, store.nextFree, store.free, store.held, off);
    var alive := store.ReleaseBlock(off);
    ghost var m1 := store.main;
    assert |m1| == |m0| by { ReleasedSize(m0, off, [EMPTY, pool] + Le(old(store.nextFree)[pool], 8)); }
    assert store.free[pool] == [off] + free0[pool];
    var ok;
    ok, off' := store.ReserveBlock(n);
    assert store.free == free0;
  }

  lemma ReleasedSize(m: File, off: nat, record: seq<Byte>)
    requires HeaderAt(m, off) && BlockEnd(m, off) <= |m| && |record| <= 10
    ensures |Overlay(m, off, record)| == |m|
  {
  }

  // ----- no block is lost -----

  /** Every block of the file is in use or on the free list of its pool. */
  ghost predicate Covers(main: File, offs: seq<nat>, free: seq<seq<nat>>, held: set<nat>)
  {
    |free| == NUM_POOLS && forall x :: x in offs ==> HeaderAt(main, x) && (x in held || x in free[main[x + 1]])
  }

  /** The blocks of one pool. */
  ghost function InPool(main: File, offs: seq<nat>, p: nat): set<nat>
  {
    set x | x in offs && HeaderAt(main, x) && main[x + 1] == p
  }

  /** How many of them are in use. */
  ghost function InUse(main: File, offs: seq<nat>, held: set<nat>, p: nat): nat
  {
    |InPool(main, offs, p) * held|
  }

  /** No block is lost, and of each pool the file has as many blocks as were in use at the peak. */
  ghost predicate AtPeak(main: File, offs: seq<nat>, free: seq<seq<nat>>, held: set<nat>, peak: seq<nat>)
  {
    && Covers(main, offs, free, held) && |peak| == NUM_POOLS
    && forall p :: 0 <= p < NUM_POOLS ==> |InPool(main, offs, p)| == peak[p] && InUse(main, offs, held, p) <= peak[p]
  }

  ghost predicate Peaks(store: Store, peak: seq<nat>)
    reads store
  {
    AtPeak(store.main, store.offs, store.free, store.held, peak)
  }

  method NewFile() returns (store: Store, ghost peak: seq<nat>)
    ensures fresh(store) && store.Valid() && store.budget.None? && Peaks(store, peak) && peak == seq(NUM_POOLS, p => 0)
  {
    hide Settled, Consistent;
    store := new Store.Create();
    peak := seq(NUM_POOLS, p => 0);
    forall p | 0 <= p < NUM_POOLS ensures InPool(store.main, store.offs, p) == {} && InUse(store.main, store.offs, store.held, p) == 0 {
      assert InPool(store.main, store.offs, p) == {};
    }
  }

  /** Which pool blocks belong to does not change. */
  lemma SamePool(m: File, m': File, offs: seq<nat>, p: nat)
    requires forall x :: x in offs ==> HeaderAt(m, x) && HeaderAt(m', x) && m'[x + 1] == m[x + 1]
    ensures InPool(m', offs, p) == InPool(m, offs, p)
  {
  }

  /** Blocks keep their pools, and off is one of pool p. */
  ghost predicate Kept(m: File, m': File, offs: seq<nat>, off: nat, p: nat)
  {
    && (forall x :: x in offs ==> HeaderAt(m, x) && HeaderAt(m', x) && m'[x + 1] == m[x + 1])
    && HeaderAt(m', off) && m'[off + 1] == p && p < NUM_POOLS
  }

  /** Taking a block from a free list. */
  lemma TakenFree(m: File, m': File, offs: seq<nat>, free: seq<seq<nat>>, held: set<nat>, off: nat, p: nat)
    requires Covers(m, offs, free, held) && Kept(m, m', offs, off, p) && off in offs && off !in held
    requires free[p] != [] && free[p][0] == off
    ensures Covers(m', offs, free[p := free[p][1..]], held + {off})
    ensures InUse(m', offs, held + {off}, p) == InUse(m, offs, held, p) + 1 <= |InPool(m, offs, p)|
    ensures forall q :: 0 <= q < NUM_POOLS ==> InPool(m', offs, q) == InPool(m, offs, q)
    ensures forall q :: 0 <= q < NUM_POOLS && q != p ==> InUse(m', offs, held + {off}, q) == InUse(m, offs, held, q)
  {
    forall q | 0 <= q < NUM_POOLS ensures InPool(m', offs, q) == InPool(m, offs, q) { SamePool(m, m', offs, q); }
    forall q | 0 <= q < NUM_POOLS && q != p ensures InUse(m', offs, held + {off}, q) == InUse(m, offs, held, q) {
      assert off !in InPool(m, offs, q);
      assert InPool(m, offs, q) * (held + {off}) == InPool(m, offs, q) * held;
    }
    UsedGrows(InPool(m, offs, p), held, off);
    forall x | x in offs ensures x in held + {off} || x in free[p := free[p][1..]][m'[x + 1]] {
      if x != off && x in free[p] { assert free[p] == [off] + free[p][1..]; }
    }
  }

  lemma UsedGrows(pool: set<nat>, held: set<nat>, off: nat)
    requires off in pool && off !in held
    ensures |pool * (held + {off})| == |pool * held| + 1 <= |pool|
  {
    assert pool * (held + {off}) == pool * held + {off};
    Subset(pool * (held + {off}), pool);
  }

  lemma Subset(a: set<nat>, b: set<nat>)
    requires a <= b
    ensures |a| <= |b|
  {
    assert b == a + (b - a);
  }

  /** Adding a block at the end of the file, when no block of its pool is free. */
  lemma Added(m: File, m': File, offs: seq<nat>, free: seq<seq<nat>>, held: set<nat>, off: nat, p: nat)
    requires Covers(m, offs, free, held) && Kept(m, m', offs, off, p) && off !in offs && off !in held && free[p] == []
    ensures Covers(m', offs + [off], free, held + {off})
    ensures InUse(m, offs, held, p) == |InPool(m, offs, p)|
    ensures InUse(m', offs + [off], held + {off}, p) == InUse(m, offs, held, p) + 1 == |InPool(m', offs + [off], p)|
    ensures forall q :: 0 <= q < NUM_POOLS && q != p ==>
      InPool(m', offs + [off], q) == InPool(m, offs, q) && InUse(m', offs + [off], held + {off}, q) == InUse(m, offs, held, q)
  {
    var offs' := offs + [off];
    assert InPool(m, offs, p) * held == InPool(m, offs, p);
    assert InPool(m', offs', p) == InPool(m, offs, p) + {off};
    assert InPool(m', offs', p) * (held + {off}) == InPool(m', offs', p);
    forall q | 0 <= q < NUM_POOLS && q != p
      ensures InPool(m', offs', q) == InPool(m, offs, q) && InUse(m', offs', held + {off}, q) == InUse(m, offs, held, q)
    {
      assert InPool(m', offs', q) == InPool(m, offs, q) && off !in InPool(m, offs, q);
      assert InPool(m, offs, q) * (held + {off}) == InPool(m, offs, q) * held;
    }
  }

  /** Giving a block back. */
  lemma GivenBack(m: File, m': File, offs: seq<nat>, free: seq<seq<nat>>, held: set<nat>, off: nat, p: nat)
    requires Covers(m, offs, free, held) && Kept(m, m', offs, off, p) && off in offs && off in held
    ensures Covers(m', offs, free[p := [off] + free[p]], held - {off})
    ensures forall q :: 0 <= q < NUM_POOLS ==>
      InPool(m', offs, q) == InPool(m, offs, q) && InUse(m', offs, held - {off}, q) <= InUse(m, offs, held, q)
    ensures InUse(m', offs, held - {off}, p) == InUse(m, offs, held, p) - 1
  {
    forall q | 0 <= q < NUM_POOLS
      ensures InPool(m', offs, q) == InPool(m, offs, q) && InUse(m', offs, held - {off}, q) <= InUse(m, offs, held, q)
    {
      SamePool(m, m', offs, q);
      Subset(InPool(m, offs, q) * (held - {off}), InPool(m, offs, q) * held);
    }
    assert InPool(m, offs, p) * held == InPool(m, offs, p) * (held - {off}) + {off};
  }

  /** A first write: a free block of its pool if there is one. A new block appears only when all of
      them are in use, so that the peak rises with it. */
  method PutBlock(store: Store, status: Byte, buf: seq<Byte>, ghost peak: seq<nat>)
      returns (ok: bool, off: nat, ghost peak': seq<nat>)
    requires store.Valid() && store.budget.None? && Peaks(store, peak) && (status == VALID || status == ACTIVE)
    requires 2 <= |buf| && |store.main| + HEADER + PoolSize(PoolId(|buf|)) < INVALID
    modifies store
    ensures store.Valid() && store.budget.None? && Peaks(store, peak') && (ok <==> PoolId(|buf|) < NUM_POOLS)
    ensures !ok ==> store.main == old(store.main) && peak' == peak
    ensures ok ==> HeaderAt(store.main, off) && store.main[off] == status && store.held == old(store.held) + {off}
    ensures ok ==> off !in old(store.held) && |peak| == NUM_POOLS
    ensures ok ==> Risen(old(InUse(store.main, store.offs, store.held, PoolId(|buf|))),
                         InUse(store.main, store.offs, store.held, PoolId(|buf|)), peak, peak', PoolId(|buf|))
  {
    hide Settled, Consistent, PoolId, PoolSize, SameBlock, Tiled, InUse, InPool, Covers, Kept, Overlay, Rewrites;
    ghost var m0, offs0, held0, free0, p := store.main, store.offs, store.held, store.free, PoolId(|buf|);
    TilesOf(m0, offs0, store.nextFree, store.free, held0);
    var alive;
    ghost var grown;
    ok, alive, off, grown := store.ReserveAndWrite(status, buf);
    peak' := peak;
    if ok {
      ghost var m := store.main;
      EndIsNew(m0, offs0);
      KeptBlocks(m0, m, offs0, off, p);
      if free0[p] != [] {
        TakenPeak(m0, m, offs0, free0, held0, off, p, peak);
      } else {
        peak' := peak[p := peak[p] + 1];
        AddedPeak(m0, m, offs0, free0, held0, off, p, peak);
      }
    }
  }

  lemma TakenPeak(m: File, m': File, offs: seq<nat>, free: seq<seq<nat>>, held: set<nat>, off: nat, p: nat, peak: seq<nat>)
    requires AtPeak(m, offs, free, held, peak) && Kept(m, m', offs, off, p) && off in offs && off !in held
    requires free[p] != [] && free[p][0] == off
    ensures AtPeak(m', offs, free[p := free[p][1..]], held + {off}, peak)
    ensures Risen(InUse(m, offs, held, p), InUse(m', offs, held + {off}, p), peak, peak, p)
  {
    hide InUse, InPool, Covers;
    TakenFree(m, m', offs, free, held, off, p);
  }

  lemma AddedPeak(m: File, m': File, offs: seq<nat>, free: seq<seq<nat>>, held: set<nat>, off: nat, p: nat, peak: seq<nat>)
    requires AtPeak(m, offs, free, held, peak) && Kept(m, m', offs, off, p) && off !in offs && off !in held && free[p] == []
    ensures AtPeak(m', offs + [off], free, held + {off}, peak[p := peak[p] + 1])
    ensures Risen(InUse(m, offs, held, p), InUse(m', offs + [off], held + {off}, p), peak, peak[p := peak[p] + 1], p)
  {
    hide InUse, InPool, Covers;
    Added(m, m', offs, free, held, off, p);
  }

  lemma KeptBlocks(m: File, m': File, offs: seq<nat>, off: nat, p: nat)
    requires forall x :: x in offs && x != off ==> SameBlock(m, m', x)
    requires HeaderAt(m', off) && m'[off + 1] == p && p < NUM_POOLS
    requires off in offs ==> HeaderAt(m, off) && m[off + 1] == p
    ensures Kept(m, m', offs, off, p)
  {
    hide PoolSize;
    forall x | x in offs ensures HeaderAt(m, x) && HeaderAt(m', x) && m'[x + 1] == m[x + 1] {
      if x != off { SameBlockHeader(m, m', x); }
    }
  }

  lemma EndIsNew(m: File, offs: seq<nat>)
    requires Tiled(m, offs)
    ensures |m| !in offs
  {
    hide PoolSize, Tiled;
    forall x | x in offs ensures x < |m| {
      var i :| 0 <= i < |offs| && offs[i] == x;
      TileInside(m, offs, i);
    }
  }

  /** A release: the block is free for its pool, and the peak stays. */
  method FreeBlock(store: Store, off: nat, ghost peak: seq<nat>)
    requires store.Valid() && store.budget.None? && Peaks(store, peak)
    requires off in store.held && HeaderAt(store.main, off) && store.main[off] != EMPTY
    modifies store
    ensures store.Valid() && store.budget.None? && Peaks(store, peak)
    ensures store.held == old(store.held) - {off} && |store.main| == |old(store.main)|
  {
    hide Settled, Consistent, PoolSize, SameBlock, Tiled, InPool, InUse, Overlay, Le, Kept;
    ghost var m0, offs0, held0, free0, p := store.main, store.offs, store.held, store.free, store.main[off + 1];
    HeldInside(m0, offs0, store.nextFree, store.free, held0, off);
    ghost var record := [EMPTY, p] + Le(store.nextFree[p], 8);
    ReleasedSize(m0, off, record);
    var alive := store.ReleaseBlock(off);
    ghost var m := store.main;
    assert HeaderAt(m, off) && m[off + 1] == p by { ReleasedHeader(m0, off, record); }
    KeptBlocks(m0, m, offs0, off, p);
    GivenBack(m0, m, offs0, free0, held0, off, p);
  }

  lemma ReleasedHeader(m: File, off: nat, record: seq<Byte>)
    requires HeaderAt(m, off) && BlockEnd(m, off) <= |m| && HEADER <= |record| <= 10 && record[0] == EMPTY && record[1] == m[off + 1]
    ensures var m' := Overlay(m, off, record); HeaderAt(m', off) && m'[off + 1] == m[off + 1]
  {
  }

  /** One more block is in use; the peak is what it was, or that many. */
  ghost predicate Risen(before: nat, after: nat, peak: seq<nat>, peak': seq<nat>, p: nat)
    requires p < |peak|
  {
    after == before + 1 && peak' == peak[p := if after > peak[p] then after else peak[p]]
  }

  /** After a restart the free lists are empty: no block is lost exactly when no block was free. */
  lemma ReopenCovers(main: File, blocks: seq<nat>, held: set<nat>)
    requires Tiled(main, blocks) && forall x :: x in held <==> x in blocks && HeaderAt(main, x) && main[x] != EMPTY
    ensures Covers(main, blocks, seq(NUM_POOLS, p => []), held) <==> forall x :: x in blocks && HeaderAt(main, x) ==> main[x] != EMPTY
  {
    hide PoolSize, Tiled;
    forall x | x in blocks ensures HeaderAt(main, x) {
      var i :| 0 <= i < |blocks| && blocks[i] == x;
      TileInside(main, blocks, i);
    }
  }
}
