/** The disk steps of the series store on the bytes of a block file: what a file represents, how
    a write, a first write and a release change it, and that dying inside any of them leaves
    what was represented before or after (disk_storage.c:613-759, storage.c:530-555, 744-835). */
module FileSteps {
  import opened Bytes
  import opened Journal
  import opened DiskStore
  import opened DiskStorage
  import opened DiskCrashes
  import opened Payload

  /** What status and payload a block of some kind has; bytes behind its own are padding. */
  type Content<!B> = (Byte, seq<Byte>, B) -> bool

  ghost predicate Shows<B>(main: File, off: nat, P: Content<B>, b: B)
  {
    && IsLive(main, off) && BlockEnd(main, off) <= |main|
    && P(main[off], Slice(main, off + HEADER, PoolSize(main[off + 1])), b)
  }

  /** The live blocks of the file are exactly these. */
  ghost predicate Represents<B>(main: File, offs: seq<nat>, P: Content<B>, blocks: map<nat, B>)
  {
    && Tiled(main, offs)
    && (forall o :: o in blocks ==> o in offs && Shows(main, o, P, blocks[o]))
    && (forall o :: o in offs && IsLive(main, o) ==> o in blocks)
  }

  /** These bytes show b, whatever pads them. */
  ghost predicate Presents<B>(P: Content<B>, status: Byte, buf: seq<Byte>, b: B)
  {
    forall rest :: P(status, buf + rest, b)
  }

  lemma ShowsSame<B>(main: File, m: File, off: nat, P: Content<B>, b: B)
    requires SameBlock(main, m, off)
    ensures IsLive(m, off) <==> IsLive(main, off)
    ensures Shows(main, off, P, b) ==> Shows(m, off, P, b)
  {
    hide PoolSize;
    SameBlockHeader(main, m, off);
    if IsLive(main, off) && BlockEnd(main, off) <= |main| {
      var n := PoolSize(main[off + 1]);
      var now, was := Slice(m, off + HEADER, n), Slice(main, off + HEADER, n);
      forall k | 0 <= k < n ensures now[k] == was[k] { assert m[off + HEADER + k] == main[off + HEADER + k]; }
      assert now == was;
    }
  }

  /** A file in which only the block at off changed, to one that shows b. */
  lemma StepTo<B>(main: File, offs: seq<nat>, m: File, offs': seq<nat>, P: Content<B>, blocks: map<nat, B>,
                  off: nat, status: Byte, buf: seq<Byte>, b: B)
    requires Represents(main, offs, P, blocks) && Tiled(m, offs') && off in offs'
    requires forall x :: x in offs' <==> x in offs || x == off
    requires forall x :: x in offs && x != off ==> SameBlock(main, m, x)
    requires HeaderAt(m, off) && m[off] == status && (status == VALID || status == ACTIVE)
    requires BlockEnd(m, off) <= |m| && |buf| <= PoolSize(m[off + 1]) && Slice(m, off + HEADER, |buf|) == buf
    requires Presents(P, status, buf, b)
    ensures Represents(m, offs', P, blocks[off := b])
  {
    hide Tiled, SameBlock, PoolSize, Shows;
    var stored := Slice(m, off + HEADER, PoolSize(m[off + 1]));
    assert stored == buf + stored[|buf|..] by { SlicePrefix(m, off + HEADER, |buf|, |stored|); }
    assert P(status, buf + stored[|buf|..], b);
    ShownHere(m, off, P, b);
    forall o | o in offs' && o != off
      ensures IsLive(m, o) ==> o in blocks
      ensures o in blocks ==> Shows(m, o, P, blocks[o])
    {
      if o in blocks { ShowsSame(main, m, o, P, blocks[o]); } else { SameLive(main, m, o); }
    }
  }

  lemma ShownHere<B>(m: File, off: nat, P: Content<B>, b: B)
    requires IsLive(m, off) && BlockEnd(m, off) <= |m| && P(m[off], Slice(m, off + HEADER, PoolSize(m[off + 1])), b)
    ensures Shows(m, off, P, b)
  {
  }

  lemma SameLive(main: File, m: File, off: nat)
    requires SameBlock(main, m, off)
    ensures IsLive(m, off) <==> IsLive(main, off)
  {
    hide PoolSize;
    SameBlockHeader(main, m, off);
  }

  /** A file in which the block at off stopped being live, and nothing else changed. */
  lemma StepAway<B>(main: File, offs: seq<nat>, m: File, offs': seq<nat>, P: Content<B>, blocks: map<nat, B>, off: nat)
    requires Represents(main, offs, P, blocks) && Tiled(m, offs')
    requires forall x :: x in offs' <==> x in offs || x == off
    requires forall x :: x in offs && x != off ==> SameBlock(main, m, x)
    requires !IsLive(m, off)
    ensures Represents(m, offs', P, blocks - {off})
  {
    hide Tiled, SameBlock, PoolSize, Shows;
    forall o | o in offs' && o != off
      ensures IsLive(m, o) ==> o in blocks
      ensures o in blocks ==> Shows(m, o, P, blocks[o])
    {
      if o in blocks { ShowsSame(main, m, o, P, blocks[o]); } else { SameLive(main, m, o); }
    }
  }

  /** The blocks at these offsets are of the same pools in both files. */
  ghost predicate SamePools(main: File, m: File, offs: seq<nat>)
  {
    forall o :: o in offs ==> HeaderAt(main, o) && HeaderAt(m, o) && m[o + 1] == main[o + 1]
  }

  lemma PoolsKept(main: File, m: File, offs: seq<nat>, off: nat)
    requires Tiled(main, offs) && Tiled(m, offs) && (forall x :: x in offs && x != off ==> SameBlock(main, m, x))
    requires off in offs ==> HeaderAt(main, off) && HeaderAt(m, off) && m[off + 1] == main[off + 1]
    ensures SamePools(main, m, offs)
  {
    hide Tiled, SameBlock, PoolSize;
    forall o | o in offs && o != off ensures HeaderAt(main, o) && HeaderAt(m, o) && m[o + 1] == main[o + 1] {
      OffInside(main, offs, o);
      SameBlockHeader(main, m, o);
    }
  }

  lemma PoolsSame(main: File, offs: seq<nat>)
    requires Tiled(main, offs)
    ensures SamePools(main, main, offs)
  {
    hide Tiled, PoolSize;
    forall o | o in offs ensures HeaderAt(main, o) { OffInside(main, offs, o); }
  }

  // ----- steps that may die -----

  /** Rewriting a block across deaths: the file represents what it did, or the new block. */
  method WriteStep<B>(store: Store, off: nat, status: Byte, buf: seq<Byte>, first: nat, later: seq<nat>,
                      ghost P: Content<B>, ghost blocks: map<nat, B>, ghost b: B) returns (reopened: Store)
    requires store.Valid() && off in store.held && (status == VALID || status == ACTIVE)
    requires HeaderAt(store.main, off) && |buf| <= PoolSize(store.main[off + 1])
    requires Represents(store.main, store.offs, P, blocks) && Presents(P, status, buf, b)
    modifies store
    ensures fresh(reopened) && reopened.Valid() && reopened.offs == old(store.offs) && SamePools(old(store.main), reopened.main, reopened.offs)
    ensures Represents(reopened.main, reopened.offs, P, blocks) || Represents(reopened.main, reopened.offs, P, blocks[off := b])
  {
    hide Settled, Consistent, Represents, Presents, PoolSize, Tiled, Overlay, SameBlock, SamePools;
    ghost var m0, offs := store.main, store.offs;
    TilesOf(m0, offs, store.nextFree, store.free, store.held);
    PoolsSame(m0, offs);
    ghost var record := [status, m0[off + 1]] + buf;
    HeldInside(m0, offs, store.nextFree, store.free, store.held, off);
    RewriteHeld(m0, offs, store.nextFree, store.free, store.held, off, record);
    TilesOf(Overlay(m0, off, record), offs, store.nextFree, store.free, store.held);
    WrittenBlock(m0, Overlay(m0, off, record), off, status, buf);
    WrittenEndIs(m0, off, status, buf);
    StepTo(m0, offs, Overlay(m0, off, record), offs, P, blocks, off, status, buf, b);
    PoolsKept(m0, Overlay(m0, off, record), offs, off);
    reopened := WriteAcrossCrashes(store, off, status, buf, first, later);
  }

  lemma WrittenEndIs(m0: File, off: nat, status: Byte, buf: seq<Byte>)
    requires HeaderAt(m0, off) && BlockEnd(m0, off) <= |m0| && |buf| <= PoolSize(m0[off + 1]) && status < NUM_STATUSES
    ensures var m := Overlay(m0, off, [status, m0[off + 1]] + buf);
      |m| == |m0| && HeaderAt(m, off) && m[off + 1] == m0[off + 1] && BlockEnd(m, off) <= |m|
  {
    hide PoolSize;
    WrittenPool(m0, off, status, buf);
    WrittenBlock(m0, Overlay(m0, off, [status, m0[off + 1]] + buf), off, status, buf);
  }

  /** A first write across deaths: what was represented, or that and the new block. */
  method ReserveStep<B>(store: Store, status: Byte, buf: seq<Byte>, first: nat, later: seq<nat>,
                        ghost P: Content<B>, ghost blocks: map<nat, B>, ghost b: B)
      returns (ok: bool, off: nat, reopened: Store)
    requires store.Valid() && 2 <= |buf| && |store.main| + HEADER + PoolSize(PoolId(|buf|)) < INVALID
    requires (status == VALID || status == ACTIVE) && (forall o :: o in blocks ==> o in store.held)
    requires Represents(store.main, store.offs, P, blocks) && Presents(P, status, buf, b)
    modifies store
    ensures ok <==> PoolId(|buf|) < NUM_POOLS
    ensures ok ==> fresh(reopened) && reopened.Valid() && off !in blocks && (forall x :: x in reopened.offs <==> x in old(store.offs) || x == off)
    ensures ok ==> forall x :: x in old(store.offs) && x != off ==> SameBlock(old(store.main), reopened.main, x)
    ensures ok ==> HeaderAt(reopened.main, off) && reopened.main[off + 1] == PoolId(|buf|)
    ensures ok ==> Represents(reopened.main, reopened.offs, P, blocks) || Represents(reopened.main, reopened.offs, P, blocks[off := b])
  {
    hide Settled, Consistent, Represents, Presents, PoolSize, PoolId, Tiled, Overlay, SameBlock, IsLive;
    ghost var m0, offs := store.main, store.offs;
    ok, off, reopened := ReserveAcrossCrashes(store, status, buf, first, later);
    if ok {
      ghost var m := reopened.main;
      TilesOf(m, reopened.offs, reopened.nextFree, reopened.free, reopened.held);
      OffInside(m, reopened.offs, off);
      PoolIdLeast(|buf|, PoolId(|buf|));
      if IsLive(m, off) {
        StepTo(m0, offs, m, reopened.offs, P, blocks, off, status, buf, b);
      } else {
        StepAway(m0, offs, m, reopened.offs, P, blocks, off);
        assert blocks - {off} == blocks;
      }
    }
  }

  lemma OffInside(m: File, offs: seq<nat>, off: nat)
    requires Tiled(m, offs) && off in offs
    ensures HeaderAt(m, off) && BlockEnd(m, off) <= |m|
  {
    hide PoolSize, Tiled;
    var i :| 0 <= i < |offs| && offs[i] == off;
    TileInside(m, offs, i);
  }

  /** A release across deaths: what was represented, or that without the block. */
  method ReleaseStep<B>(store: Store, off: nat, first: nat, later: seq<nat>, ghost P: Content<B>, ghost blocks: map<nat, B>)
      returns (reopened: Store)
    requires store.Valid() && off in store.held && HeaderAt(store.main, off) && store.main[off] != EMPTY
    requires Represents(store.main, store.offs, P, blocks)
    modifies store
    ensures fresh(reopened) && reopened.Valid() && reopened.offs == old(store.offs) && SamePools(old(store.main), reopened.main, reopened.offs)
    ensures Represents(reopened.main, reopened.offs, P, blocks) || Represents(reopened.main, reopened.offs, P, blocks - {off})
  {
    hide Settled, Represents, PoolSize, Tiled, Overlay, SameBlock, Chain, Le, SamePools;
    ghost var m0, offs, pool := store.main, store.offs, store.main[off + 1];
    TilesOf(m0, offs, store.nextFree, store.free, store.held);
    PoolsSame(m0, offs);
    HeldInside(m0, offs, store.nextFree, store.free, store.held, off);
    ReleaseHeld(m0, offs, store.nextFree, store.free, store.held, off, pool);
    ghost var record := [EMPTY, pool] + Le(store.nextFree[pool], 8);
    ReleasedPool(m0, off, record);
    reopened := ReleaseAcrossCrashes(store, off, first, later);
    if off !in reopened.held {
      ghost var m := reopened.main;
      TilesOf(m, offs, reopened.nextFree, reopened.free, reopened.held);
      OffInside(m, offs, off);
      StepAway(m0, offs, m, offs, P, blocks, off);
      PoolsKept(m0, m, offs, off);
    }
  }

  lemma ReleasedPool(m0: File, off: nat, record: seq<Byte>)
    requires HeaderAt(m0, off) && |record| >= HEADER && record[1] == m0[off + 1] && off + |record| <= |m0|
    ensures |Overlay(m0, off, record)| == |m0| && Overlay(m0, off, record)[off + 1] == m0[off + 1]
  {
  }
}
