/** The block file of disk_storage.c: power-of-two pools, on-disk free lists, journaled
    block writes and the scan that loads a store. */
module DiskStore {
  import opened Bytes
  import opened Journal
  import Words

  const NUM_POOLS: nat := 20
  const MIN_POW: nat := 7
  const RESERVED_BYTES: nat := 64
  const EMPTY: Byte := 0
  const RESERVED: Byte := 1
  const VALID: Byte := 2
  const ACTIVE: Byte := 3
  const NUM_STATUSES: nat := 4
  /** Block header: status and pool. */
  const HEADER: nat := 2

  function PoolSize(pool: nat): (n: nat)
    ensures n >= 128
  {
    Words.Pow2Monotone(7, pool + MIN_POW);
    assert Words.Pow2(7) == 128;
    Words.Pow2(pool + MIN_POW)
  }

  /** `64 - __builtin_clzll( m )`: the number of significant bits. */
  function BitLength(m: nat): nat { if m == 0 then 0 else 1 + BitLength(m / 2) }

  lemma {:induction false} BitLengthBounds(m: nat)
    ensures m < Words.Pow2(BitLength(m)) && (m > 0 ==> Words.Pow2(BitLength(m) - 1) <= m)
  {
    if m > 0 { BitLengthBounds(m / 2); }
  }

  /** get_pool_id */
  function PoolId(n: nat): (pool: nat)
    requires n >= 2
  {
    var pow := BitLength(n - 1);
    if pow < MIN_POW then 0 else pow - MIN_POW
  }

  /** The pool of a request is the smallest one whose blocks hold it. */
  lemma PoolIdLeast(n: nat, pool: nat)
    requires n >= 2
    ensures n <= PoolSize(pool) <==> PoolId(n) <= pool
  {
    BitLengthBounds(n - 1);
    assert Words.Pow2(7) == 128;
    if PoolId(n) <= pool {
      Words.Pow2Monotone(BitLength(n - 1), pool + MIN_POW);
    } else {
      Words.Pow2Monotone(pool + MIN_POW, BitLength(n - 1) - 1);
    }
  }

  // ----- how blocks tile the file -----

  /** A block header at off, and where the block ends. */
  predicate HeaderAt(main: File, off: nat)
  {
    off + HEADER <= |main| && main[off] < NUM_STATUSES && main[off + 1] < NUM_POOLS
  }

  function BlockEnd(main: File, off: nat): nat
    requires HeaderAt(main, off)
  {
    off + HEADER + PoolSize(main[off + 1])
  }

  function After(main: File, offs: seq<nat>, i: nat): nat
    requires i < |offs|
  {
    if i + 1 < |offs| then offs[i + 1] else |main|
  }

  /** Block i has a legal header and ends where the next one starts. */
  ghost predicate TileOk(main: File, offs: seq<nat>, i: nat)
    requires i < |offs|
  {
    HeaderAt(main, offs[i]) && BlockEnd(main, offs[i]) == After(main, offs, i)
  }

  /** The bytes from 64 to the end of the file are exactly the blocks at offs. */
  ghost predicate Tiled(main: File, offs: seq<nat>)
  {
    && (if offs == [] then |main| == RESERVED_BYTES else offs[0] == RESERVED_BYTES)
    && (forall i :: 0 <= i < |offs| ==> TileOk(main, offs, i))
  }

  /** Blocks come in file order without overlap, inside the file. */
  lemma {:induction false} TilesApart(main: File, offs: seq<nat>, i: nat, j: nat)
    requires Tiled(main, offs) && i < j < |offs|
    ensures HeaderAt(main, offs[i]) && BlockEnd(main, offs[i]) <= offs[j]
    decreases j - i
  {
    hide PoolSize;
    assert TileOk(main, offs, i);
    if i + 1 < j {
      TilesApart(main, offs, i + 1, j);
      assert TileOk(main, offs, i + 1);
    }
  }

  lemma TileInside(main: File, offs: seq<nat>, i: nat)
    requires Tiled(main, offs) && i < |offs|
    ensures HeaderAt(main, offs[i]) && RESERVED_BYTES <= offs[i] && BlockEnd(main, offs[i]) <= |main|
  {
    hide PoolSize;
    var last := |offs| - 1;
    assert TileOk(main, offs, last) && TileOk(main, offs, i);
    if i < last { TilesApart(main, offs, i, last); }
    if i > 0 {
      TilesApart(main, offs, 0, i);
      assert TileOk(main, offs, 0);
    }
  }

  lemma OffsetsDistinct(main: File, offs: seq<nat>)
    requires Tiled(main, offs)
    ensures forall i, j :: 0 <= i < j < |offs| ==> offs[i] < offs[j]
  {
    hide PoolSize;
    forall i, j | 0 <= i < j < |offs| ensures offs[i] < offs[j] {
      TilesApart(main, offs, i, j);
    }
  }

  /** Bytes of a whole block, header included. */
  function Region(main: File, off: nat): (r: seq<Byte>)
    requires HeaderAt(main, off) && BlockEnd(main, off) <= |main|
  {
    Slice(main, off, HEADER + PoolSize(main[off + 1]))
  }

  /** A rewrite of one block: inside its bounds, same pool, legal status. */
  ghost predicate Rewrites(main: File, off: nat, buf: seq<Byte>)
  {
    && HeaderAt(main, off) && HEADER <= |buf| <= HEADER + PoolSize(main[off + 1])
    && buf[0] < NUM_STATUSES && buf[1] == main[off + 1]
  }

  /** The block at off is the same, byte for byte, in both files. */
  ghost predicate SameBlock(main: File, m: File, off: nat)
  {
    && HeaderAt(main, off) && BlockEnd(main, off) <= |main| && BlockEnd(main, off) <= |m|
    && forall k :: off <= k < BlockEnd(main, off) ==> m[k] == main[k]
  }

  lemma SameBlockHeader(main: File, m: File, off: nat)
    requires SameBlock(main, m, off)
    ensures HeaderAt(m, off) && m[off] == main[off] && m[off + 1] == main[off + 1]
    ensures BlockEnd(m, off) == BlockEnd(main, off) && Region(m, off) == Region(main, off)
  {
  }

  lemma RewriteOther(main: File, offs: seq<nat>, i: nat, j: nat, buf: seq<Byte>)
    requires Tiled(main, offs) && i < |offs| && j < |offs| && i != j && Rewrites(main, offs[i], buf)
    ensures SameBlock(main, Overlay(main, offs[i], buf), offs[j])
  {
    TileInside(main, offs, i);
    TileInside(main, offs, j);
    if j < i { TilesApart(main, offs, j, i); } else { TilesApart(main, offs, i, j); }
    hide PoolSize, Tiled;
  }

  /** Rewriting a block keeps the tiling and every other block. */
  lemma RewriteKeeps(main: File, offs: seq<nat>, i: nat, buf: seq<Byte>)
    requires Tiled(main, offs) && i < |offs| && Rewrites(main, offs[i], buf)
    ensures var m := Overlay(main, offs[i], buf);
      && |m| == |main| && Tiled(m, offs)
      && HeaderAt(m, offs[i]) && m[offs[i]] == buf[0] && m[offs[i] + 1] == main[offs[i] + 1]
      && (forall j :: 0 <= j < |offs| && j != i ==> SameBlock(main, m, offs[j]))
  {
    var m := Overlay(main, offs[i], buf);
    TileInside(main, offs, i);
    forall j | 0 <= j < |offs|
      ensures TileOk(m, offs, j)
      ensures j != i ==> SameBlock(main, m, offs[j])
    {
      assert TileOk(main, offs, j);
      if j != i {
        RewriteOther(main, offs, i, j, buf);
        SameBlockHeader(main, m, offs[j]);
      }
    }
  }

  // ----- free lists -----

  /** The next pointer stored in a free block. */
  function NextOf(main: File, off: nat): nat
    requires off + HEADER + 8 <= |main|
  {
    FromLe(Slice(main, off + HEADER, 8))
  }

  /** Link k of a chain: an EMPTY block of the pool that points at the next link. */
  ghost predicate LinkOk(main: File, offs: seq<nat>, pool: nat, list: seq<nat>, k: nat)
    requires k < |list|
  {
    && list[k] in offs && HeaderAt(main, list[k]) && BlockEnd(main, list[k]) <= |main|
    && main[list[k]] == EMPTY && main[list[k] + 1] == pool
    && NextOf(main, list[k]) == (if k + 1 < |list| then list[k + 1] else 0)
  }

  /** The chain of pool `pool` from `head` is exactly `list`: EMPTY blocks of that pool. */
  ghost predicate Chain(main: File, offs: seq<nat>, pool: nat, head: nat, list: seq<nat>)
  {
    && head == (if list == [] then 0 else list[0])
    && (forall k :: 0 <= k < |list| ==> LinkOk(main, offs, pool, list, k))
    && (forall k, l :: 0 <= k < l < |list| ==> list[k] != list[l])
  }

  /** A chain none of whose blocks is rewritten stays a chain. */
  lemma ChainKept(main: File, m: File, offs: seq<nat>, offs': seq<nat>, pool: nat, head: nat, list: seq<nat>)
    requires Chain(main, offs, pool, head, list) && |main| <= |m|
    requires forall x :: x in offs ==> x in offs'
    requires forall k :: 0 <= k < |list| ==> SameBlock(main, m, list[k])
    ensures Chain(m, offs', pool, head, list)
  {
    hide FromLe;
    forall k | 0 <= k < |list| ensures LinkOk(m, offs', pool, list, k) {
      assert LinkOk(main, offs, pool, list, k);
      SameBlockHeader(main, m, list[k]);
      assert Slice(m, list[k] + HEADER, 8) == Slice(main, list[k] + HEADER, 8);
    }
  }

  // ----- the allocator's state -----

  /** Blocks tile the file, every chain holds free blocks of its pool, and no block that a
      caller holds is on a chain. */
  ghost predicate Consistent(main: File, offs: seq<nat>, nextFree: seq<nat>, free: seq<seq<nat>>, held: set<nat>)
  {
    && Tiled(main, offs) && |nextFree| == |free| == NUM_POOLS
    && (forall p :: 0 <= p < NUM_POOLS ==> Chain(main, offs, p, nextFree[p], free[p]))
    && (forall p, x :: 0 <= p < NUM_POOLS && x in free[p] ==> x !in held)
    && (forall x :: x in held ==> x in offs)
  }

  /** Rewriting a held block, without touching the chains. */
  lemma RewriteHeld(main: File, offs: seq<nat>, nextFree: seq<nat>, free: seq<seq<nat>>, held: set<nat>,
                    off: nat, buf: seq<Byte>)
    requires Consistent(main, offs, nextFree, free, held) && off in held && Rewrites(main, off, buf)
    ensures Consistent(Overlay(main, off, buf), offs, nextFree, free, held)
    ensures forall x :: x in offs && x != off ==> SameBlock(main, Overlay(main, off, buf), x)
  {
    hide Tiled, Rewrites, SameBlock, PoolSize;
    var i :| 0 <= i < |offs| && offs[i] == off;
    var m := Overlay(main, off, buf);
    RewriteKeeps(main, offs, i, buf);
    OffsetsDistinct(main, offs);
    forall x | x in offs && x != off ensures SameBlock(main, m, x) {
      var j :| 0 <= j < |offs| && offs[j] == x;
    }
    forall p | 0 <= p < NUM_POOLS ensures Chain(m, offs, p, nextFree[p], free[p]) {
      ChainsSame(main, m, offs, nextFree, free, held, p, off);
    }
  }

  lemma ChainsSame(main: File, m: File, offs: seq<nat>, nextFree: seq<nat>, free: seq<seq<nat>>, held: set<nat>,
                   p: nat, off: nat)
    requires Consistent(main, offs, nextFree, free, held) && off in held && p < NUM_POOLS && |main| <= |m|
    requires forall x :: x in offs && x != off ==> SameBlock(main, m, x)
    ensures Chain(m, offs, p, nextFree[p], free[p])
  {
    hide Tiled, SameBlock, PoolSize, NextOf;
    forall k | 0 <= k < |free[p]| ensures SameBlock(main, m, free[p][k]) {
      assert free[p][k] in free[p];
      assert LinkOk(main, offs, p, free[p], k);
    }
    ChainKept(main, m, offs, offs, p, nextFree[p], free[p]);
  }

  /** Releasing a held block puts it at the head of its pool's chain. */
  lemma ReleaseHeld(main: File, offs: seq<nat>, nextFree: seq<nat>, free: seq<seq<nat>>, held: set<nat>,
                    off: nat, pool: nat)
    requires Consistent(main, offs, nextFree, free, held) && off in held && |main| < INVALID
    requires HeaderAt(main, off) && pool == main[off + 1]
    ensures nextFree[pool] <= U64_MAX
    ensures var buf := [EMPTY, pool] + Le(nextFree[pool], 8);
      && Rewrites(main, off, buf)
      && Consistent(Overlay(main, off, buf), offs, nextFree[pool := off], free[pool := [off] + free[pool]], held - {off})
      && forall x :: x in offs && x != off ==> SameBlock(main, Overlay(main, off, buf), x)
  {
    hide Tiled, SameBlock, NextOf;
    HeadBound(main, offs, pool, nextFree[pool], free[pool]);
    var buf := [EMPTY, pool] + Le(nextFree[pool], 8);
    assert Rewrites(main, off, buf);
    hide Rewrites, PoolSize;
    var m := Overlay(main, off, buf);
    RewriteHeld(main, offs, nextFree, free, held, off, buf);
    var i :| 0 <= i < |offs| && offs[i] == off;
    RewriteKeeps(main, offs, i, buf);
    TileInside(m, offs, i);
    PushedChain(main, m, offs, pool, nextFree[pool], free[pool], off);
    var nf, fr := nextFree[pool := off], free[pool := [off] + free[pool]];
    forall p | 0 <= p < NUM_POOLS ensures Chain(m, offs, p, nf[p], fr[p]) {
      assert Chain(m, offs, p, nextFree[p], free[p]);
    }
  }

  lemma HeadBound(main: File, offs: seq<nat>, pool: nat, head: nat, list: seq<nat>)
    requires Chain(main, offs, pool, head, list) && |main| < INVALID
    ensures head < INVALID
  {
    hide PoolSize, NextOf;
    if list != [] {
      assert LinkOk(main, offs, pool, list, 0);
    }
  }

  lemma PushedChain(main: File, m: File, offs: seq<nat>, pool: nat, head: nat, list: seq<nat>, off: nat)
    requires Chain(m, offs, pool, head, list) && off in offs && off !in list && head <= U64_MAX
    requires HeaderAt(m, off) && BlockEnd(m, off) <= |m| && m[off + 1] == pool && pool < NUM_POOLS
    requires off + HEADER + 8 <= |main| && m == Overlay(main, off, [EMPTY, pool] + Le(head, 8))
    ensures Chain(m, offs, pool, off, [off] + list)
  {
    PushedLink(main, m, off, pool, head);
    hide FromLe, Le, PoolSize, NextOf, Overlay;
    var pushed := [off] + list;
    forall k | 0 <= k < |pushed| ensures LinkOk(m, offs, pool, pushed, k) {
      if k > 0 {
        assert pushed[k] == list[k - 1] && LinkOk(m, offs, pool, list, k - 1);
      }
    }
    forall k, l | 0 <= k < l < |pushed| ensures pushed[k] != pushed[l] {
      assert pushed[l] == list[l - 1];
      if k > 0 { assert pushed[k] == list[k - 1]; } else { assert list[l - 1] in list; }
    }
  }

  lemma PushedLink(main: File, m: File, off: nat, pool: nat, head: nat)
    requires off + HEADER + 8 <= |main| && head <= U64_MAX && pool < NUM_POOLS
    requires m == Overlay(main, off, [EMPTY, pool] + Le(head, 8))
    ensures |m| == |main| && m[off] == EMPTY && NextOf(m, off) == head
  {
    hide FromLe, Le;
    LeBytes(head);
    var buf := [EMPTY, pool] + Le(head, 8);
    var link := Slice(m, off + HEADER, 8);
    forall k | 0 <= k < 8 ensures link[k] == Le(head, 8)[k] {
      assert link[k] == m[off + HEADER + k] == buf[HEADER + k];
    }
    assert link == Le(head, 8);
    assert m[off] == buf[0];
  }

  /** Taking the head of a chain. */
  lemma PopFree(main: File, offs: seq<nat>, nextFree: seq<nat>, free: seq<seq<nat>>, held: set<nat>, pool: nat)
    requires Consistent(main, offs, nextFree, free, held) && pool < NUM_POOLS && nextFree[pool] != 0
    ensures free[pool] != [] && free[pool][0] == nextFree[pool]
    ensures var off := nextFree[pool];
      && off in offs && off !in held && HeaderAt(main, off) && BlockEnd(main, off) <= |main|
      && main[off] == EMPTY && main[off + 1] == pool
      && Consistent(main, offs, nextFree[pool := NextOf(main, off)], free[pool := free[pool][1..]], held + {off})
  {
    hide Tiled;
    var off, list := nextFree[pool], free[pool];
    assert Chain(main, offs, pool, off, list);
    assert list[0] in free[pool] && LinkOk(main, offs, pool, list, 0);
    TailChain(main, offs, pool, list);
    var nf, fr := nextFree[pool := NextOf(main, off)], free[pool := list[1..]];
    forall p | 0 <= p < NUM_POOLS ensures Chain(main, offs, p, nf[p], fr[p]) {
      assert Chain(main, offs, p, nextFree[p], free[p]);
    }
    forall p, x | 0 <= p < NUM_POOLS && x in fr[p] ensures x !in held + {off} {
      assert x in free[p];
      OnePool(main, offs, nextFree, free, held, p, x, pool, off);
    }
  }

  lemma TailChain(main: File, offs: seq<nat>, pool: nat, list: seq<nat>)
    requires list != [] && Chain(main, offs, pool, list[0], list)
    ensures HeaderAt(main, list[0]) && BlockEnd(main, list[0]) <= |main|
    ensures Chain(main, offs, pool, NextOf(main, list[0]), list[1..])
  {
    hide PoolSize, NextOf;
    var tail := list[1..];
    assert LinkOk(main, offs, pool, list, 0);
    forall k | 0 <= k < |tail| ensures LinkOk(main, offs, pool, tail, k) {
      assert tail[k] == list[k + 1] && LinkOk(main, offs, pool, list, k + 1);
    }
    forall k, l | 0 <= k < l < |tail| ensures tail[k] != tail[l] {
      assert tail[k] == list[k + 1] && tail[l] == list[l + 1];
    }
  }

  /** A free block is on one chain, once. */
  lemma OnePool(main: File, offs: seq<nat>, nextFree: seq<nat>, free: seq<seq<nat>>, held: set<nat>,
                p: nat, x: nat, pool: nat, off: nat)
    requires Consistent(main, offs, nextFree, free, held) && p < NUM_POOLS && pool < NUM_POOLS
    requires free[pool] != [] && free[pool][0] == off && x in free[p]
    ensures p != pool || x in free[pool][1..] ==> x != off
  {
    hide Tiled, NextOf, PoolSize;
    assert Chain(main, offs, p, nextFree[p], free[p]) && Chain(main, offs, pool, nextFree[pool], free[pool]);
    var k :| 0 <= k < |free[p]| && free[p][k] == x;
    assert LinkOk(main, offs, p, free[p], k) && LinkOk(main, offs, pool, free[pool], 0);
    if p == pool && x in free[pool][1..] {
      var l :| 0 <= l < |free[pool][1..]| && free[pool][1..][l] == x;
      assert free[pool][l + 1] == x;
    }
  }

  /** The file after a reservation at its end: a RESERVED header and a padded body. */
  function Extended(main: File, pool: nat): (m: File)
    requires pool < NUM_POOLS
    ensures |m| == |main| + HEADER + PoolSize(pool)
  {
    var m := Overlay(main, |main|, [RESERVED, pool]);
    Overlay(m, |main| + HEADER + PoolSize(pool) - 1, [0])
  }

  lemma ExtendedBytes(main: File, pool: nat)
    requires pool < NUM_POOLS
    ensures var m := Extended(main, pool);
      && m[|main|] == RESERVED && m[|main| + 1] == pool
      && (forall k :: 0 <= k < |main| ==> m[k] == main[k])
  {
    hide PoolSize;
  }

  lemma ExtendTiles(main: File, offs: seq<nat>, nextFree: seq<nat>, free: seq<seq<nat>>, held: set<nat>, pool: nat)
    requires Consistent(main, offs, nextFree, free, held) && pool < NUM_POOLS
    ensures main <= Extended(main, pool)
    ensures |main| !in offs && |main| !in held && HeaderAt(Extended(main, pool), |main|)
    ensures Extended(main, pool)[|main|] == RESERVED && Extended(main, pool)[|main| + 1] == pool
    ensures Consistent(Extended(main, pool), offs + [|main|], nextFree, free, held + {|main|})
    ensures forall x :: x in offs ==> SameBlock(main, Extended(main, pool), x)
  {
    hide Extended, PoolSize, NextOf;
    var m, offs' := Extended(main, pool), offs + [|main|];
    ExtendedBytes(main, pool);
    forall i | 0 <= i < |offs| ensures TileOk(m, offs', i) && SameBlock(main, m, offs[i]) && offs[i] < |main| {
      TileInside(main, offs, i);
      assert TileOk(main, offs, i);
    }
    assert TileOk(m, offs', |offs|);
    assert Tiled(m, offs') by {
      forall i | 0 <= i < |offs'| ensures TileOk(m, offs', i) {
        if i < |offs| { assert TileOk(m, offs', i); }
      }
    }
    hide SameBlock, Tiled;
    forall p | 0 <= p < NUM_POOLS ensures Chain(m, offs', p, nextFree[p], free[p]) {
      ChainExtends(main, m, offs, offs', p, nextFree[p], free[p]);
    }
    forall p, x | 0 <= p < NUM_POOLS && x in free[p] ensures x !in held + {|main|} {
      assert Chain(main, offs, p, nextFree[p], free[p]);
      var k :| 0 <= k < |free[p]| && free[p][k] == x;
      assert LinkOk(main, offs, p, free[p], k);
    }
  }

  lemma ChainExtends(main: File, m: File, offs: seq<nat>, offs': seq<nat>, p: nat, head: nat, list: seq<nat>)
    requires Chain(main, offs, p, head, list) && |main| <= |m| && offs <= offs'
    requires forall x :: x in offs ==> SameBlock(main, m, x)
    ensures Chain(m, offs', p, head, list)
  {
    hide SameBlock, NextOf, PoolSize;
    forall k | 0 <= k < |list| ensures SameBlock(main, m, list[k]) {
      assert LinkOk(main, offs, p, list, k);
    }
    ChainKept(main, m, offs, offs', p, head, list);
  }
}
