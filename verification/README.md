# Menoetius in Dafny

Menoetius is a time-series store written in C. This project models its layers and the
two companions around them, and proves what each promises, from single bits up to whole runs
of the store. `dafny verify dfyconfig.toml` checks all of it.

- **Compressed blocks** (`Words`, `Bitstream`, `TscCodec`, `TscHeader`, `TscBlock`, `TscRuns`,
  `Acceptance`).
  Masked word writes refine a bit sequence; the bit-level codec (delta-of-delta buckets, XORed
  doubles with a cached window) round-trips; the compressor object refines the codec. Result:
  for every run of adds, refused adds and clears over a buffer with any contents, iterating
  yields exactly the accepted points, and which points are accepted is said on their times alone.
  Doubles are 64-bit patterns, timestamps any int64 values.
- **Multi-index red-black tree** (`RbTree`, `RbOps`, `RbHeap`, `TreeIter`). Insertion, deletion
  and every rotation as functions on shapes, with balance and order proved there, and as
  pointer assignments on a heap of cells that refine those functions. The C source has each
  repair twice, mirrored; here a side parameter stands for both. Searches, and the
  explicit-stack iterator with its 128-slot bound, follow.
- **Crash-safe block file** (`Bytes`, `Journal`, `DiskStore`, `DiskStorage`, `DiskCrashes`,
  `DiskReuse`). The process may die
  after any byte prefix of any write. Block writes, releases and recovery are atomic under
  that, also when recovery itself dies again and again. The file stays tiled by blocks, the
  free lists stay acyclic and disjoint, the scan finds every live block once, and while a store is
  open the file has only as many blocks of a size as were in use at once.
- **Block contents** (`Payload`, `FileSteps`, `FileLoad`). The byte layout of data and key blocks, and
  a compressor's way through bit fields, bytes, allocator and journal and back, composed from the
  layers' contracts. Each disk step of the series store is one on the bytes: dying anywhere inside
  it and loading from the bytes gives every key what was saved before the step or after it.
- **Series store** (`SeriesStore`, `SeriesOps`, `Reload`, `StoreRuns`, `StoreCrashes`, `StoreMachine`).
  After any run of writes and syncs a series returns exactly its accepted points in order; sync,
  restart and load give back the same store; after a crash at any disk operation of a run, the
  load gives every key a prefix of its accepted points that holds everything up to the last
  completed sync; at every such moment live data has a live key. Runs that also clean and restart
  follow a state without files, and what was synced stays until its key is cleaned.
- **Catalogue** (`ItemOrder`, `Catalog`, `Lookup`, `Scan`, `Labels`, `Directory`). All index trees
  hold exactly the listed items; lookups agree with a linear filter of the list; ids ascend in
  any store opened empty, so that paged scans are complete.
- **Buffered reader** (`Stream`) and **label sets** (`LfmBinary`, `LfmHuman`, `LfmText`,
  `LfmGrammar`). Reads
  depend on the byte stream alone and not on how it arrives; both textual forms round-trip
  exactly on the label sets characterised in the theorems, and the parser of the human form accepts
  exactly the texts that spell a label set.

Code that works in place is modelled in place: classes with fields, arrays, loops with
invariants, each tied by `ensures` to a function about which the lemmas speak. `ghost` fields
hold only what the proofs need (the points of a block, the shape of a tree, the list of blocks).

## Where the code and its stated intent differ

Each of these is proved, with the exact condition or a concrete witness.

- The 18-byte reserve of `tsc_add` is meant to make the writes after it safe. It does exactly
  for bit sizes n below 144, or n >= 192 with n mod 64 < 32 (`TscRuns.ReserveExact`), because
  the bit writer rounds up to whole words. The default block size of 1016 bytes is not among
  them (`TscRuns.DefaultBlockSizeReserveFails`): an add can then fail for space without a new
  block being started. The failed add changes nothing.
- `storage_write` accepts a key whose record exceeds 10240 bytes, but its key block is not written
  and the failure is not looked at, so the data has no key at the next load
  (`SeriesOps.LongKeyLosesItsName`). "Every data block has a key block" holds exactly for the
  other keys, which is how `SeriesStore.StoreCovered` states it. The server is not affected:
  its only caller reads keys of at most 1024 bytes (src/server/conn_handler.h:17,
  src/server/conn_handler.c:202-203).
- The trim test looks at the compressor only. It is right at every cut exactly when the
  compressor is not clear or nothing is on disk (`SeriesOps.DeleteTestRight`); a reloaded series
  with complete blocks alone is deleted whatever they hold (`StoreCrashes.ReloadedSeriesDeleted`).
- The free lists live in memory only: blocks that were free when a file is opened are not used again
  (`DiskReuse.ReopenCovers`).
- A paged scan whose resume id lies below every remaining id reports nothing and looks finished
  (`Directory.ScanMissesItem`); `Scan.ResumeExact` says exactly when resuming is right.
- The binary label-set parser refuses the encoding of a label set whose last value is empty
  (`LfmBinary.BinaryRoundTrip`); the printer of the human form does not escape
  (`LfmHuman.HumanRoundTrip`).
- A length-prefixed read into a caller's buffer that is too small consumes the record
  (`Stream.LossExact`, `Stream.RecordLost`).
- A label matcher is a search for bytes, so a label can match whose key merely ends in the
  matcher's (`Labels.MatcherMeaning` gives the exact condition, `Labels.LooseMatch` an example);
  and the label indices do not see a last label with an empty value (`Labels.LabelIndexed`).

## Conditions taken from the code

- Buffers of a store have at least 192 bits, without which not even a first point fits
  (`storage_write` asserts that the retried add succeeds).
- `storage_write_disk` asserts that a block starts at a positive time, when it writes it.
  `SeriesStore.Flushable` is that condition on a request, for the blocks the request fills; positive
  times always meet it. A first point of time zero or below is accepted; a sync then asserts.
- Differences of times wrap modulo 2^64, as the machine computes them; C leaves the overflow of
  signed arithmetic undefined.
- `storage_sync` asserts that no compressor is empty (a write without points leaves one so; see
  `StoreRuns.Asserted`), `storage_load` that an ACTIVE block is the
  last one of its series and that every series gets one key; the corresponding methods require
  what makes those asserts hold, and the theorems about runs show that it does hold.
- `bitstream_read_int64` shifts an `int` to build its sign mask, which C defines up to width 32; at
  width 64 the mask has no effect. Signed reads are therefore about widths 2..32 and 64; the
  codec uses 7, 9, 12, 32 and 64.
- Lookups assert non-empty keys, and lengths are sent in 16 bits (`Lookup.Sendable`).
- Deleting a series releases its key block, and `disk_storage_release_block` asserts that there is
  one, so `SeriesOps.Storage.DeleteItem` is about series whose key could be stored.
- Times increase across the blocks of a series only if the input does: the space check of
  `tsc_add` comes before the order check, and `tsc_clear` forgets the last time. Reload and
  trimming therefore have increasing times as a condition, as does the order of slots.
- The operations of `StoreMachine` are legal (`StoreMachine.Legal`) when these asserts hold: of a
  request `Flushable`, of a sync that no memory is empty, of a deletion that the key could be stored,
  of a restart that all keys could and that what is on disk of each is in time order.

## Model

| member | source | states |
|---|---|---|
| `Words.BitMask` | src/common/bitstream.c:11-18 | the word of 2^x - 1 has exactly its x low bits set, for every x up to 64 |
| `Words.HighBitsClear` | src/common/bitstream.c:76-79 | a word has no bit at or above w exactly when its value is below 2^w, which is what the unsigned range test of a write checks |
| `Words.SignBits` | src/common/bitstream.c:153-172 | an int64 fits w signed bits exactly when all its bits from w-1 up equal its sign bit, which is what the signed range test checks |
| `Words.WrapUndoes` | src/common/tsc.c:243-267 | int64 arithmetic modulo 2^64: a wrapped difference added back with wrapping restores the int64 it came from |
| `Bitstream.StoreField` | src/common/bitstream.c:81-131 | the masked stores into one or two words change exactly bits [i, i+w) of the buffer, seen as one bit sequence, and no other bit |
| `Bitstream.WriteUint64` | src/common/bitstream.c:59-133 | a write succeeds exactly when word-rounded space is left and the value fits; then exactly bits [i, i+w) are the value; otherwise the buffer and the index are unchanged |
| `Bitstream.WriteInt64` | src/common/bitstream.c:135-225 | the same for signed fields, with the two's-complement range as the condition |
| `Bitstream.LoadField` | src/common/bitstream.c:30-56 | the word or two-word load yields the w bits at i, zero-extended |
| `Bitstream.ReadUint64` | src/common/bitstream.c:20-57 | a read inside the given size yields the field zero-extended; beyond it, the error |
| `Bitstream.SignMaskTests` | src/common/bitstream.c:241 | the int-typed sign mask tests the field's top bit for widths 2..32, the widths for which the signed read is right (64 needs no extension) |
| `Bitstream.ReadInt64` | src/common/bitstream.c:227-291 | for widths 2..32 and 64 the read yields the field sign-extended to 64 bits |
| `Bitstream.UnsignedReadBack` | src/common/bitstream.c:20-133 | what was written unsigned reads back as the same value, at every offset and width 1..64 |
| `Bitstream.SignedReadBack` | src/common/bitstream.c:135-291 | what was written signed reads back as the same number, widths 2..32 and 64 |
| `TscCodec.IntRoundTrip` | src/common/tsc.c:410-502 | reading the prefix-coded bucket of any accepted delta-of-delta gives the number back and consumes exactly its bits, whatever follows |
| `TscCodec.DoubleRoundTrip` | src/common/tsc.c:504-661 | reading an XORed double gives it back bit by bit and leaves reader and writer with the same leading/significant window, for both the reuse and the reset branch |
| `TscCodec.ReuseRoundTrip` | src/common/tsc.c:537-547 | with the cached window reused, the shifted significant bits restore the whole word |
| `TscCodec.ResetRoundTrip` | src/common/tsc.c:548-584 | with a new window, the stored 5-bit lead and 6-bit width (64 stored as 0) restore the word and the window |
| `TscCodec.PointRoundTrip` | src/common/tsc.c:350-408 | one step of the iterator on the bits tsc_add appended yields that point and the header fields after it, for every int64 time, wrap-around included |
| `TscCodec.AfterOk` | src/common/tsc.c:215-284 | the header invariant (window in range, delta zero until the second point, two bits per point at least) is kept by every accepted point |
| `TscCodec.StepRoundTrip` | src/common/tsc.c:350-408 | at point k of any block the iterator state equals the header of the first k points, and its next step reads point k |
| `TscCodec.BlockRoundTrip` | src/common/tsc.c:350-661 | iterating over the encoding of any accepted sequence yields exactly that sequence, whatever bits follow it |
| `TscCodec.EncodableIncreasing` | src/common/tsc.c:236-239 | timestamps inside a block are strictly increasing |
| `TscCodec.ValueCost` | src/common/tsc.c:504-589 | an unchanged value costs one bit; any other the shorter of the two forms, of which the remembered window is open only when it holds every set bit |
| `TscCodec.IntCost` | src/common/tsc.c:410-449 | a change of step costs 1, 9, 12, 16 or 36 bits: the shortest form that can hold it |
| `TscHeader.HeaderRoundTrip` | src/common/tsc.c:67-118 | the 30 serialized bytes give back every header field |
| `TscBlock.WriteInt` | src/common/tsc.c:410-449 | writes exactly the codec's bucket code or fails with the code's reason; a partial write never counts |
| `TscBlock.WriteDouble` | src/common/tsc.c:504-589 | writes exactly the codec's value code; the window changes only when every field was written |
| `TscBlock.WriteReuse` | src/common/tsc.c:540-547 | the branch that reuses the window appends the flag bits and the significant bits |
| `TscBlock.WriteReset` | src/common/tsc.c:548-584 | the branch that stores a new window appends flags, lead, width and significant bits |
| `TscBlock.WriteFirst` | src/common/tsc.c:215-226 | the first point is a 64-bit timestamp and the value, or an error |
| `TscBlock.WriteLater` | src/common/tsc.c:246-277 | a later point is the coded change of delta and the XORed value, or an error |
| `TscBlock.ReadInt` | src/common/tsc.c:451-502 | the word-level reader of a bucket agrees with the bit-level one |
| `TscBlock.ReadDouble` | src/common/tsc.c:591-661 | the word-level reader of a value agrees with the bit-level one |
| `TscBlock.TscIter.constructor` | src/common/tsc.c:344-348 | an iterator starts at the origin |
| `TscBlock.TscIter.Next` | src/common/tsc.c:350-408 | one call returns ITER_DONE exactly when all points were read, and otherwise makes exactly the codec's step |
| `TscBlock.TscIter.NextFirst` | src/common/tsc.c:366-381 | the branch for the first point |
| `TscBlock.TscIter.NextLater` | src/common/tsc.c:382-398 | the branch for later points |
| `TscBlock.ReadBlock` | src/common/storage.c:1012-1026 | the loop of storage_get over one block returns exactly the encoded points |
| `TscBlock.TscBlock.constructor` | src/common/tsc.c:18-35 | a fresh compressor over a buffer with any contents holds no points |
| `TscBlock.TscBlock.Clear` | src/common/tsc.c:37-48 | clearing empties it, whatever stays in the buffer |
| `TscBlock.TscBlock.Add` | src/common/tsc.c:181-290 | the answer is the function of size, points and new point that the tests in tsc_add define; on success the block holds one more point, on failure header and points are unchanged although the buffer may have been touched |
| `TscBlock.TscBlock.LoadBlock` | src/common/tsc.c:122-134 | loading a serialized header and its data restores the compressor with the same points |
| `TscRuns.CompressAndRead` | src/common/tsc.c:181-408 | for every run of adds (also refused ones) and clears at any int64 times on any initial buffer, iterating yields exactly the points accepted since the last clear |
| `TscRuns.AddedAppends` | src/common/tsc.c:195-290 | an accepted point extends the encoded sequence and stays inside the buffer |
| `TscRuns.ReserveHolds` | src/common/tsc.c:195-205 | for n < 144, or n >= 192 with n mod 64 < 32, no add that passes the space check runs out of space |
| `TscRuns.ReserveExact` | src/common/tsc.c:195-205 | that condition is exact: for every other n some run of calls passes the 18-byte check and then fails for space |
| `TscRuns.WorstFails` | src/common/tsc.c:504-589 | a concrete later point needs 113 bits, so it overruns wherever the check leaves only 112 |
| `TscRuns.DefaultBlockSizeReserveFails` | src/server/server.c:269-270 | at the default block size of 1016 bytes the reserve is one bit short for the worst case |
| `Acceptance.HeaderTimes` | src/common/tsc.c:280-283 | the header remembers the last time and the step between the last two points |
| `Acceptance.EncodableExact` | src/common/tsc.c:215-284 | a block can hold a sequence exactly when each point is later than the one before it and changes the step by less than 32 signed bits |
| `Acceptance.AddExact` | src/common/tsc.c:181-284 | tsc_add reports a full block exactly by the bits left, out of order exactly for times not after the last, and adds a point exactly when it continues the block in time and its bits fit the whole words |
| `Acceptance.LaterExact` | src/common/tsc.c:236-277 | with room for the worst case a later point is added exactly when the second difference of the last three times lies in [-2^31, 2^31), and refused as a bad value otherwise |
| `Acceptance.OfferedExact` | src/common/storage.c:877-902 | a point offered to a series starts a new block exactly when the bits left are too few and is then accepted; otherwise it is accepted exactly when it continues the block and fits |
| `Acceptance.OfferedContinues` | src/common/storage.c:877-902 | for buffer sizes for which the reserve suffices, fitting is no condition |
| `Acceptance.SteadyAccepted` | src/common/storage.c:877-902 | points each later than the one before by less than 2^31 are all accepted, over any number of blocks |
| `Acceptance.ReplayEnds` | src/common/storage.c:877-902 | what is in memory is the end of what was accepted |
| `Acceptance.SteadyRun` | src/common/storage.c:850-911 | in any run, if what was sent under a key is steady, exactly that was accepted |
| `Acceptance.SteadyRunThenGet` | src/common/storage.c:850-1057 | storage_get after such a run returns exactly what was sent |
| `RbTree.FixInsertionBalances` | src/common/tree.c:30-163 | on a black node whose changed side may be red over red, either insertion fixer yields a red-black subtree with the black height it had before |
| `RbTree.FixInsertionOrder` | src/common/tree.c:30-163 | recolouring and both rotations keep the in-order sequence |
| `RbTree.FixDeletionBalances` | src/common/tree.c:164-668 | either deletion fixer, on a node one side of which lost a black level, yields a red-black subtree and returns 1 exactly when its own black height fell by one; no assert in it fires |
| `RbTree.FixDeletionOrder` | src/common/tree.c:164-668 | every deletion rotation keeps the in-order sequence |
| `RbOps.AddRecBalances` | src/common/tree.c:670-694 | recursive insertion keeps black height and breaks the colour rule at most at the root |
| `RbOps.AddRecOrder` | src/common/tree.c:670-694 | it inserts the new node at its place by (comparator, address) |
| `RbOps.AddValid` | src/common/tree.c:820-827 | adding a new node to a valid tree gives a valid tree with a black root that holds the old nodes and the new one |
| `RbOps.DeleteRightmost` | src/common/tree.c:695-731 | cutting out the rightmost leaf keeps red-black and reports lost black height exactly |
| `RbOps.DeleteRightmostOrder` | src/common/tree.c:695-731 | it removes exactly the last node |
| `RbOps.DeleteNode` | src/common/tree.c:788-814 | unlinking the node found keeps red-black and reports lost black height exactly |
| `RbOps.DeleteRec` | src/common/tree.c:733-818 | recursive deletion keeps red-black and reports lost black height exactly |
| `RbOps.DeleteRecOrder` | src/common/tree.c:733-818 | it removes exactly the given node |
| `RbOps.DeleteValid` | src/common/tree.c:829-835 | deleting a member of a valid tree gives a valid tree that holds exactly the other nodes |
| `RbHeap.Index.FixInsertionAt` | src/common/tree.c:30-163 | the pointer assignments of both insertion fixers build that shape, touching only nodes of the subtree |
| `RbHeap.Index.FixDeletionAt` | src/common/tree.c:164-668 | the pointer assignments of both deletion fixers build that shape and return that flag, touching only nodes of the subtree |
| `RbHeap.Index.FixRedSibling` | src/common/tree.c:196-299 | the red-sibling cases, where the sibling's near child decides among three rotations |
| `RbHeap.Index.AddRecursive` | src/common/tree.c:670-694 | pointer-level recursive insertion refines the functional one |
| `RbHeap.Index.Add` | src/common/tree.c:820-827 | pointer-level add: a valid index whose order is the old one with the node inserted |
| `RbHeap.Index.DeleteRightmostLeaf` | src/common/tree.c:695-731 | pointer-level removal of the rightmost leaf |
| `RbHeap.Index.DeleteRecursive` | src/common/tree.c:733-818 | pointer-level recursive deletion refines the functional one |
| `RbHeap.Index.DeleteHere` | src/common/tree.c:788-814 | unlinking the node found: by its only child, or by putting the predecessor in its place |
| `RbHeap.Index.Delete` | src/common/tree.c:829-835 | pointer-level delete: a valid index whose order is the old one without the node |
| `TreeIter.DescendComplete` | src/common/tree.c:837-856 | descending by the comparator loses no node equal to the key |
| `TreeIter.FindMember` | src/common/tree.c:837-856 | returns an equal node if and only if there is one |
| `TreeIter.FindNearestLesser` | src/common/tree.c:858-879 | returns NULL exactly when every node is above the key; otherwise a node not above it such that everything after it is above |
| `TreeIter.HeightAndSize` | src/common/tree.c:1070-1146 | a red-black tree has height at most twice its black height and at least 2^bh - 1 nodes |
| `TreeIter.PathFits` | src/common/tree.c:998-1068 | a valid tree of fewer than 2^64 nodes is never higher than the 128 slots of the iterator |
| `TreeIter.AdvanceOk` | src/common/tree.c:998-1068 | each round of the iterator keeps the stack invariant within 128 slots, preserves emitted-plus-pending, and makes progress |
| `TreeIter.EqualRange.constructor` | src/common/tree.c:1070-1146 | the first element and the rest are together all equal nodes |
| `TreeIter.EqualRange.ComputeCurrent` | src/common/tree.c:998-1068 | each step emits the next pending node, or none when none is left |
| `TreeIter.EqualRange.Step` | src/common/tree.c:1007-1063 | one round on the path and pass arrays refines the step on frames |
| `TreeIter.Walk` | src/common/tree.c:998-1194 | a full iteration yields every node equal to the key exactly once, in tree order, and nothing else |
| `ItemOrder.ComparatorOk` | src/common/storage.c:59-106 | the comparison of every index is the three-way comparison of a total preorder |
| `ItemOrder.ProbeFits` | src/common/storage.c:59-106 | a lookup item compares consistently with the items in the index |
| `ItemOrder.LexAntisymmetric` | src/common/storage.c:59-71 | string comparison is antisymmetric and zero only on equal strings |
| `ItemOrder.LexOrder` | src/common/storage.c:59-106 | one string is smaller exactly when it has the smaller byte at the first difference or is a proper prefix |
| `Catalog.LinkAppend` | src/common/storage.c:611-622 | appending at list_root_last keeps the doubly linked list well formed |
| `Catalog.LinkRemove` | src/common/storage.c:1112-1126 | unlinking an element keeps the list well formed without it |
| `Catalog.Catalogue.constructor` | src/common/storage.c:108-173 | a new catalogue has one valid empty tree per index |
| `Catalog.Catalogue.Insert` | src/common/storage.c:606-622 | after an insert every index tree is valid and holds exactly the listed items |
| `Catalog.Catalogue.InsertPlaceholder` | src/common/storage.c:598-604 | an item without a key enters the internal-id tree alone |
| `Catalog.Catalogue.AttachKey` | src/common/storage.c:676-725 | the placeholder leaves, and the item with its key is in every tree and the list |
| `Catalog.Catalogue.Unlink` | src/common/storage.c:1112-1126 | the list loses exactly the item, and its successor is returned |
| `Catalog.Catalogue.Delete` | src/common/storage.c:1108-1151 | after a delete every index tree is valid and holds exactly the listed items, and the next item is returned |
| `Lookup.ProbeMeaning` | src/common/storage.c:1391-1406 | the probe item compares equal with exactly the items whose name or label has the sought value |
| `Lookup.IndexAgrees` | src/common/storage.c:1374-1454 | what the walk through an index finds, filtered, is the linear filter of the list in ascending address |
| `Lookup.Offer` | src/common/storage.c:1415-1440 | one matching item is skipped, stops the loop at the limit, is saved, or overflows the buffer |
| `Lookup.Emit` | src/common/storage.c:1426-1439 | a record is appended exactly when it fits |
| `Lookup.IndexLookup` | src/common/storage.c:1374-1454 | for any filter on keys, the results are the window after offset and up to limit of the linear filter, cut with an error at the first record that does not fit; a bad index is refused exactly outside the name and label indices |
| `Lookup.AnswerRoundTrip` | src/client/client.c:452-475 | reading the length-prefixed records up to the empty one gives back exactly the packed keys |
| `Lookup.KeysExact` | src/common/storage.c:1433-1437 | the keys of an answer are those of the items, one each, in order |
| `Lookup.WindowExact` | src/common/storage.c:1416-1423 | a window has the elements from the offset on, at most the limit |
| `Lookup.WindowsJoin` | src/common/storage.c:1416-1423 | consecutive windows join to the whole, so paging by offset misses nothing |
| `Lookup.SelectedLast` | src/common/storage.c:1341-1367 | a filter keeps the order of the list |
| `Lookup.FilledFits` | src/common/storage.c:1426-1439 | a lookup whose records fit the buffer returns all of them without error; otherwise a proper part of them and the error |
| `Scan.FindResume` | src/common/storage.c:1328-1332 | the item to resume after has the greatest internal id not above the resume id |
| `Scan.Resume` | src/common/storage.c:1325-1339 | a page starts at the list head, after that item, or nowhere |
| `Scan.ScanPage` | src/common/storage.c:1309-1372 | one page holds the first matching items from its starting point on, as far as limit and buffer go, and hands out the id of the last one |
| `Scan.Collect` | src/common/storage.c:1341-1367 | the loop of one page |
| `Scan.ResumeExact` | src/common/storage.c:1325-1339 | in ascending id order a page resumes exactly behind the resume id if and only if the scan is at its start, some item is not above that id, or the list is empty |
| `Scan.ScanPages` | src/common/storage.c:1309-1372 | paging with any limit of at least one, also over resume ids that no longer exist, gives every matching item once in list order, unless a page does not fit its buffer |
| `Scan.RoomForAll` | src/common/storage.c:1309-1372 | when all hits fit one buffer no page of a scan fails |
| `Labels.GetKeyValue` | src/common/storage.c:377-397 | the part after the first odd part equal to the key |
| `Labels.LabelIndexed` | src/common/storage.c:377-397 | for the encoding of any label set, that is the value of its first label with the key, a last label with an empty value not counting |
| `Labels.ExtraMatchersMatch` | src/common/storage.c:1262-1307 | the walk over the packed bytes of any matchers answers yes exactly when each of them matches |
| `Labels.AllMatchersMeaning` | src/common/storage.c:1262-1307 | matchers accept an encoded label set exactly when each holds of it: the name, or a neighbouring pair of parts |
| `Labels.NameMeaning` | src/common/storage.c:1284-1291 | the string in front of an encoding is the name |
| `Labels.MatcherMeaning` | src/common/storage.c:1262-1307 | for the encoding of any label set a matcher holds exactly when it names the name, or when some part ends in its key and the next part is its value |
| `Labels.ContainsPair` | src/common/storage.c:1294-1301 | memmem over the terminated parts of a key finds exactly such pairs |
| `Labels.LabelMatches` | src/common/storage.c:1262-1307 | a label that is there matches |
| `Labels.LooseMatch` | src/common/storage.c:1294-1301 | one that is not there may match too |
| `Directory.FindByKey` | src/common/storage.c:557-567 | the LFM index finds the item with exactly the given key, if and only if there is one |
| `Directory.Directory.constructor` | src/common/storage.c:108-173 | a directory on empty files |
| `Directory.Directory.GetItem` | src/common/storage.c:557-581 | an existing key gives its item; a new one gets the next id at the end of the list; ids stay ascending and keys unique |
| `Directory.Directory.Delete` | src/common/storage.c:1108-1151 | exactly the item goes; ids stay ascending and keys unique |
| `Directory.InsertKeeps` | src/common/storage.c:574-575 | ids taken from the counter ascend along the list |
| `Directory.DeleteKeeps` | src/common/storage.c:1112-1126 | unlinking an item keeps that order |
| `Directory.QueryLabels` | src/common/storage.c:1262-1454 | lookup by name or label with matchers, on the keys themselves: the window of exactly the items whose key has the value and matches |
| `Directory.QueryAll` | src/common/storage.c:1309-1372 | in any store opened empty, a full scan gives every matching item once, in the order of creation |
| `Directory.QueryMeaning` | src/common/storage.c:1262-1454 | an item whose key encodes a label set is found by a lookup exactly when it is listed, has the name or the label value sought, and every matcher holds of the label set |
| `Directory.ScanMeaning` | src/common/storage.c:1309-1372 | the same for a full scan |
| `Directory.ScanMissesItem` | src/common/storage.c:1327-1339 | two items are created, a page of one reports the first, the first is deleted: the next page reports nothing and looks finished, although the second was never reported |
| `Journal.TornInvalidation` | src/common/disk_storage.c:586-592 | any prefix of the invalidating write leaves a journal that is not accepted, or the record that was there untouched |
| `Journal.TornHeader` | src/common/disk_storage.c:598-602 | any prefix of the final header write is either never accepted, since its checksum is the complement of the offset, or is the complete record |
| `Journal.WriteAtomic` | src/common/disk_storage.c:578-665 | dying after any byte prefix of any of the five writes leaves a disk that recovers to the old file or to the new one |
| `Journal.WriteCompletes` | src/common/disk_storage.c:578-665 | an uninterrupted write changes exactly the target bytes, and replaying its record is a no-op |
| `Journal.RecoveryAtomic` | src/common/disk_storage.c:485-576 | dying anywhere in recovery does not change what recovery leads to |
| `Journal.RecoveryCompletes` | src/common/disk_storage.c:485-576 | a finished recovery yields exactly that file and a settled journal |
| `Journal.RecoveriesAgree` | src/common/disk_storage.c:485-576 | any number of interrupted recoveries lead to the same file |
| `Journal.WriteSurvivesCrashes` | src/common/disk_storage.c:485-665 | a write that dies anywhere, then recoveries that die any number of times, then one that lives: the file is the old one or the new one |
| `DiskStore.PoolIdLeast` | src/common/disk_storage.c:152-167 | the pool chosen is the smallest power of two that holds the request |
| `DiskStore.TilesApart` | src/common/disk_storage.c:288-370 | blocks of a tiled file do not overlap |
| `DiskStore.RewriteKeeps` | src/common/disk_storage.c:613-665 | rewriting one block inside its bounds keeps the tiling and every other block |
| `DiskStore.RewriteHeld` | src/common/disk_storage.c:613-665 | rewriting a held block keeps tiling, free lists and all other blocks |
| `DiskStore.ReleaseHeld` | src/common/disk_storage.c:715-759 | pushing a released block keeps the lists acyclic, disjoint, of EMPTY blocks of their pool |
| `DiskStore.PopFree` | src/common/disk_storage.c:676-682 | popping a free list hands out a block no one holds and keeps the invariant |
| `DiskStore.ExtendTiles` | src/common/disk_storage.c:684-697 | growing the file by one block keeps tiling, lists and all other blocks |
| `DiskStorage.Store.MustWrite` | src/common/crash_test.c:75-98 | a write either happens or the process dies after a byte prefix of it |
| `DiskStorage.Store.JournaledWrite` | src/common/disk_storage.c:578-665 | alive: the new bytes; dead: a disk that leads to the old or the new file |
| `DiskStorage.Store.WriteBlock` | src/common/disk_storage.c:613-665 | a held block gets status and bytes, all other blocks stay; dying leaves old or new |
| `DiskStorage.Store.ReleaseBlock` | src/common/disk_storage.c:715-759 | the block becomes EMPTY and the head of its pool's free list; dead, the file is the old or the new one |
| `DiskStorage.Store.ReserveBlock` | src/common/disk_storage.c:667-699 | the head of the pool's free list, which loses exactly it, while the file stays as it is; a new block at the end of the file exactly when that list is empty; the block was held by no one and no other block changes |
| `DiskStorage.Store.ReserveAndWrite` | src/common/disk_storage.c:703-713 | the reserved block reads back with the given status and bytes; dying in the write leads to the file with the block reserved or to the finished one |
| `DiskStorage.Store.ReadBlock` | src/common/disk_storage.c:372-404 | the stored status and payload, or the code for an empty or too large block |
| `DiskStorage.Store.RecoverScratch` | src/common/disk_storage.c:485-576 | recovery yields the file the journal determines; dying in it changes nothing about that |
| `DiskStorage.Store.Open` | src/common/disk_storage.c:169-266 | opening gives a valid store over the recovered file, with empty free lists |
| `DiskStorage.Store.Create` | src/common/disk_storage.c:169-266 | a new file has no blocks |
| `DiskStorage.Store.ReadNext` | src/common/disk_storage.c:288-370 | the next VALID or ACTIVE block after the cursor, the end, or the first block larger than the buffer |
| `DiskStorage.Store.ScanAll` | src/common/disk_storage.c:288-370 | the scan returns every VALID or ACTIVE block once in offset order, exactly when no block is larger than the buffer |
| `DiskStorage.LiveBlocksExact` | src/common/disk_storage.c:288-370 | that list holds exactly the live blocks with their contents, in increasing offset |
| `DiskCrashes.Reopen` | src/common/disk_storage.c:169-266 | opens that die anywhere and one that lives: a valid store over exactly the file the disk led to |
| `DiskCrashes.WriteAcrossCrashes` | src/common/disk_storage.c:613-665 | a block write dies, opens die, and the open that lives has the old or the new file in a valid store |
| `DiskCrashes.ReleaseAcrossCrashes` | src/common/disk_storage.c:715-759 | the same for a release: the block is unchanged and held, or EMPTY and not held, and no other block changes |
| `DiskCrashes.ReserveAcrossCrashes` | src/common/disk_storage.c:667-713 | the same for a first write: no block a caller holds changes, and the new one is not live yet or complete |
| `DiskReuse.ReleaseThenReserve` | src/common/disk_storage.c:667-759 | a released block is what the next reservation of its size gets, and the file does not grow |
| `DiskReuse.NewFile` | src/common/disk_storage.c:169-208 | a new file has no blocks |
| `DiskReuse.PutBlock` | src/common/disk_storage.c:667-713 | no block is ever lost: each is in use or on its free list, and of each pool the file has exactly as many blocks as were in use at the peak |
| `DiskReuse.FreeBlock` | src/common/disk_storage.c:715-759 | a release keeps this and does not change the peak |
| `DiskReuse.ReopenCovers` | src/common/disk_storage.c:169-266 | opening a file forgets the free lists: no block is lost exactly when none was free |
| `SeriesStore.RetryAdds` | src/common/storage.c:879-897 | the add retried after a full block always succeeds, for buffers of at least 192 bits |
| `SeriesStore.OfferedEncodable` | src/common/storage.c:877-902 | what is in memory stays a sequence the codec accepts |
| `SeriesStore.UpdateSeries` | src/common/storage.c:727-848 | changing one series and its own blocks keeps the invariant of the whole store |
| `SeriesStore.StoreCovered` | src/common/storage.c:305-317 | in a valid store every live data block's id has exactly one key block, namely if its key record fits the buffer |
| `SeriesStore.SavedOk` | src/common/storage.c:175-340 | what the files alone know of a series is a prefix of what was accepted |
| `SeriesStore.FlushStep` | src/common/storage.c:743-744 | when no block a request fills starts at a time of zero or below, the same holds of the request without its first point, and memory stays encodable |
| `SeriesStore.PositiveFlushable` | src/common/storage.c:743-744 | requests of positive times never fill a block that starts at a time of zero or below |
| `SeriesStore.ContentsTotal` | src/common/storage.c:945-1057 | what a series returns is the points of its complete blocks and of its memory, whatever its ids and offsets |
| `SeriesStore.KeyBlockExact` | src/common/storage.c:530-555 | a series has a key block exactly when its key has at most 10230 bytes |
| `SeriesStore.TrimmedTight` | src/common/storage.c:1074-1104 | a trim leaves nothing to release: of the blocks left at most the first starts before the cut and is followed by one that does not |
| `SeriesStore.TrimmedStarts` | src/common/storage.c:1074-1104 | when blocks start one after the other, every block left but the first starts at or after the cut |
| `SeriesOps.WrittenOk` | src/common/storage.c:727-848 | writing the compressor to disk, complete or ACTIVE, leaves what the series returns unchanged and all of it saved |
| `SeriesOps.Storage.constructor` | src/common/storage.c:108-173 | a store on empty files has no series |
| `SeriesOps.Storage.GetItem` | src/common/storage.c:557-581 | a new series gets a fresh id, and its key block before any data; existing ones are untouched |
| `SeriesOps.Storage.WriteDisk` | src/common/storage.c:727-848 | what every series returns is unchanged; the memory becomes the ACTIVE block, or a further complete block and is cleared; nothing saved is lost and all of this series is saved |
| `SeriesOps.Storage.Write` | src/common/storage.c:850-911 | exactly the accepted prefix of the points is appended to that series, split into blocks as the compressor fills, and no other series changes; the error is none exactly when all were accepted |
| `SeriesOps.Storage.WritePoints` | src/common/storage.c:877-902 | the loop over the points, with its block changes |
| `SeriesOps.Storage.WritePoint` | src/common/storage.c:878-901 | one point, on a new block when the old one is full |
| `SeriesOps.Storage.NextBlock` | src/common/storage.c:879-897 | a full block goes to disk and the point is then accepted |
| `SeriesOps.Storage.Sync` | src/common/storage.c:913-943 | every series keeps what it returns and its memory, which is now also in its ACTIVE block |
| `SeriesOps.Storage.Get` | src/common/storage.c:945-1057 | the points of the series in acceptance order, from complete blocks and memory and never from a stale ACTIVE block; the error cases exactly |
| `SeriesOps.Storage.Trim` | src/common/storage.c:1059-1105 | what the series returns becomes a suffix of itself, exactly the dropped blocks are released and none that could be is left, and deletion is asked for by the last timestamp in memory |
| `SeriesOps.TrimmedSeries` | src/common/storage.c:1074-1104 | which blocks a trim keeps depends on the points of the blocks alone |
| `SeriesOps.FindSave` | src/common/storage.c:1074-1089 | the loop finds the last block of the leading ones that start before the cut: it starts before the cut and the next does not |
| `SeriesOps.Storage.ReleaseSlots` | src/common/storage.c:1093-1098 | releasing the first blocks of a series: exactly those go, and every moment in between is a consistent store |
| `SeriesOps.TrimKeepsRecent` | src/common/storage.c:1074-1104 | with increasing times, no dropped point is at or after the cut |
| `SeriesOps.DeleteTestExact` | src/common/storage.c:1067-1071 | with points in memory, deletion is asked for exactly when all points are older than the cut |
| `SeriesOps.DeleteTestRight` | src/common/storage.c:1067-1071 | the test is right at every cut if and only if the compressor is not clear or there is nothing on disk |
| `StoreCrashes.ReloadedSeriesDeleted` | src/common/storage.c:1067-1071 | a series of one complete block, loaded and trimmed: deletion is asked for although it returns a recent point |
| `SeriesOps.Storage.DeleteItem` | src/common/storage.c:1108-1151 | exactly the blocks of that series are released, data before key, and all other series are unchanged |
| `SeriesOps.Storage.ReleaseAll` | src/common/storage.c:1133-1143 | releasing all blocks of a series, a slot never written excepted |
| `SeriesOps.LongKeyLosesItsName` | src/common/storage.c:530-555 | a key whose record exceeds the 10240-byte buffer gets no key block, so its data is on disk under an id no key names |
| `Reload.InsertSlot` | src/common/storage.c:652-669 | a scanned block enters the slots of its series in start-time order |
| `Reload.GatherBlocks` | src/common/storage.c:195-259 | after the scan each series has exactly its blocks as slots, sorted by start time |
| `Reload.Load` | src/common/storage.c:175-340 | every series with data and a key comes back with its slots sorted, the ACTIVE block last and its points in memory; a key without data is dropped; no assert fires; interrupted between releases it can be run again |
| `Reload.SavedReloads` | src/common/storage.c:629-725 | for a series in time order the slots and compressor gathered are what its files know of it |
| `Reload.StoreLoadable` | src/common/storage.c:175-340 | the files of any store with storable keys and increasing times, synced or not, are files the load accepts |
| `Reload.SyncAndReload` | src/common/storage.c:175-340 | sync, restart and load give back exactly the same series, so everything afterwards behaves as without the restart |
| `StoreRuns.Perform` | src/common/storage.c:850-943 | each operation keeps the agreement with the replay of accepted points |
| `StoreRuns.RunAll` | src/common/storage.c:850-943 | after any run of writes and syncs over any keys that meets the asserts of the code, every series agrees with the replay, and every disk operation is placed between the moments around it |
| `StoreRuns.PlainRunsSound` | src/common/storage.c:743-744 | runs whose writes have points, of positive times, meet the asserts |
| `StoreRuns.SavedBounds` | src/common/storage.c:727-943 | at every disk operation of a run what is saved of a key holds everything up to any earlier sync, and is a prefix of what was accepted |
| `StoreCrashes.MomentLoadable` | src/common/storage.c:175-340 | the files of every moment at which all keys could be stored and what is saved of each is in time order are loadable |
| `StoreCrashes.ShrunkOrderly` | src/common/storage.c:1059-1151 | also those inside trims and deletes |
| `StoreCrashes.LoadMoment` | src/common/storage.c:175-340 | after a crash at any such moment, storage_load gives each key exactly its saved points: the same complete blocks, and the ACTIVE block as memory |
| `StoreCrashes.CrashedRunLoads` | src/common/storage.c:175-943 | a crash at any disk operation of any run: the files load, and each key has a prefix of its accepted points that holds everything up to the last completed sync |
| `StoreRuns.RunThenGet` | src/common/storage.c:850-1057 | after any such run storage_get returns exactly that key's accepted points in acceptance order; the lookup fails exactly for keys never written, and the size error is exact |
| `StoreMachine.FedOk` | src/common/storage.c:850-911 | a request of any points takes nothing off the disk |
| `StoreMachine.DiskGrows` | src/common/storage.c:850-943 | only cleaning a key takes its points off the disk; a restart leaves each key what was on disk, and after a sync that is everything |
| `StoreMachine.SyncedSurvives` | src/common/storage.c:850-943 | in any run with restarts, what was there at a sync stays on disk as long as the key is not cleaned |
| `StoreMachine.MomentState` | src/common/storage.c:727-848 | the memory of every series of a consistent store is a sequence the codec accepts, and its ACTIVE block holds a prefix of it |
| `StoreMachine.StatePoints` | src/common/storage.c:945-1057 | what a series returns, and what is saved of it, is determined by its blocks and memory |
| `StoreMachine.OrderedMoment` | src/common/storage.c:175-340 | whether the files of a moment can be loaded is a condition on its series without ids and offsets |
| `StoreMachine.Perform` | src/common/storage.c:850-943 | any one operation, a restart with storage_load included, changes the store as it changes the state without files, and its disk operations only add points or only take old ones away |
| `StoreMachine.CleanItem` | src/common/storage.c:1165-1173 | one turn of the cleaning loop: the series is gone exactly when its memory is older than the cut, and otherwise trimmed as far as it can be; no other series comes or goes |
| `StoreMachine.CleanItems` | src/common/storage.c:1155-1178 | clean_items: exactly the series whose memory is older than the cut are gone, and none left can be trimmed further |
| `StoreMachine.CleanedExact` | src/common/storage.c:1155-1178 | the same on the state: which series stay, and what stays of them |
| `StoreMachine.PlainRunLegal` | src/common/storage.c:727-943 | runs of writes of positive times under storable keys, syncs and full cleanings meet the asserts of the code |
| `StoreMachine.PerformRestart` | src/common/storage.c:175-340 | after a crash between operations each series is back with its complete blocks, and its ACTIVE block as memory; those without any block are gone |
| `StoreMachine.RunMachine` | src/common/storage.c:850-1178 | after any run of writes, syncs, cleaning turns, full cleanings and restarts that meets the asserts of the code, the store has exactly the state that the run has without files, at every operation |
| `StoreMachine.MachineThenGet` | src/common/storage.c:945-1057 | storage_get after any such run returns exactly the points of that state, with the errors exact |
| `StoreMachine.CrashedMachineLoads` | src/common/storage.c:175-340 | a crash at any disk operation of such a run leaves files that load, and what each key then has lies between what was on disk before that operation and after it |
| `StoreMachine.SyncedSurvivesCrash` | src/common/storage.c:913-943 | what was there at a sync is in the files at a crash inside any later write or sync, restarts in between included, as long as the key was not cleaned |
| `StoreMachine.TrimLosesOld` | src/common/storage.c:1074-1104 | a trim of a series in time order loses points older than the cut and no others |
| `StoreMachine.CleanLosesOld` | src/common/storage.c:1165-1173 | so does a turn of the cleaning loop on a series with points in memory, trimmed or deleted |
| `Payload.WordsRoundTrip` | src/common/storage.c:753 | the words of a buffer come back from its bytes, whatever follows |
| `Payload.BufferReads` | src/common/tsc.h:9-10 | the point count and the words are read back from a buffer in a stored, padded block |
| `Payload.StartReads` | src/common/tsc.h:10 | the start time read straight from the buffer is the time of the first point |
| `Payload.ReadComplete` | src/common/storage.c:1002-1026 | reading a stored VALID block yields the id and exactly the points it was written for |
| `Payload.ReadActive` | src/common/storage.c:217-257 | loading a stored ACTIVE block yields the id and a compressor with the same points and header |
| `Payload.KeyRoundTrip` | src/common/storage.c:530-555 | a key record gives back key and id, whatever pads it |
| `Payload.PutAndGet` | src/common/disk_storage.c:372-404 | bytes written to a newly reserved block are in the file there, under their status, and are a prefix of what reading it returns, exactly when a pool fits and the buffer is large enough |
| `Payload.CompleteThroughDisk` | src/common/storage.c:744-806 | the file holds the block VALID, and compressor, bytes, allocator, journal and reader compose to the identity on points |
| `Payload.ActiveThroughDisk` | src/common/storage.c:754-797 | the file holds the block ACTIVE, and a synced compressor comes back from it with the same points and header |
| `Payload.RewriteFits` | src/common/disk_storage.c:631-636 | a rewrite of a block always fits the pool chosen at its first write |
| `Payload.RewriteAndGet` | src/common/disk_storage.c:613-665 | bytes written over a held block are in the file there and come back, and no other block changes |
| `Payload.BlockLife` | src/common/storage.c:778-835 | a block synced, filled, synced over itself, filled and completed over itself: the file holds each time the points accepted by then, VALID at the end, and reads back as them; no other block changes |
| `Payload.Complete` | src/common/storage.c:778-835 | completing a block over its ACTIVE form |
| `Payload.AddAll` | src/common/tsc.c:181-284 | a sequence of adds leaves exactly the accepted points |
| `FileSteps.StepTo` | src/common/disk_storage.c:613-665 | a file in which one block changed to bytes of a given value represents the old blocks with that one replaced |
| `FileSteps.StepAway` | src/common/disk_storage.c:715-759 | a file in which one block stopped being live represents the old blocks without it |
| `FileSteps.WriteStep` | src/common/disk_storage.c:613-665 | a block write that dies at any byte, opens that die, and one that lives: the file represents the old blocks, or those with the new one |
| `FileSteps.ReserveStep` | src/common/disk_storage.c:667-713 | the same for a first write: what was represented, or that and the new block at an offset that was not live |
| `FileSteps.ReleaseStep` | src/common/disk_storage.c:715-759 | the same for a release: what was represented, or that without the block |
| `FileLoad.BlockPresents` | src/common/storage.c:746-772 | what a compressor writes, padded in any way, is a block of its points |
| `FileLoad.KeyPresents` | src/common/storage.c:530-555 | the same for a key record |
| `FileLoad.DecodeData` | src/common/storage.c:210-257 | a data block, VALID or ACTIVE, is read from its bytes as the id and points it was written for |
| `FileLoad.ScanShows` | src/common/disk_storage.c:288-370 | the scan of a file gives exactly the blocks it represents, each once |
| `FileLoad.ReadData` | src/common/storage.c:195-259 | reading the data file gives exactly the blocks it represents |
| `FileLoad.ReadKeys` | src/common/storage.c:262-287 | reading the key file gives exactly the keys it represents |
| `FileLoad.LoadFiles` | src/common/storage.c:175-340 | storage_load from the bytes of both files gives each key exactly the points saved of it |
| `FileLoad.DieInRewrite` | src/common/storage.c:829-831 | dying at any byte while a series' block is written over, then dying opens, then a load: each key has what was saved before the step, or each what is saved after it |
| `FileLoad.DieInFirstWrite` | src/common/storage.c:786-798 | the same for the first write of a block |
| `FileLoad.DieInRelease` | src/common/storage.c:1093-1098 | the same for the release of a data block by a trim or delete |
| `FileLoad.DieInKeyWrite` | src/common/storage.c:530-555 | the same for the key record of a new series |
| `FileLoad.DieInKeyRelease` | src/common/storage.c:1145 | the same for the key record of a deleted series |
| `Stream.Reader.constructor` | src/common/structured_stream.c:56-64 | a reader starts with the whole stream ahead |
| `Stream.Reader.Read` | src/common/structured_stream.c:117-127 | one read() call moves a prefix of the unread bytes into the buffer, or reports EAGAIN, end or failure |
| `Stream.Reader.Compact` | src/common/structured_stream.c:104-108 | the memmove keeps the bytes ahead |
| `Stream.Reader.Fill` | src/common/structured_stream.c:115-138 | the read loop keeps the bytes ahead and ends with enough of them, at the end of the stream, or on failure |
| `Stream.Reader.EnsureRead` | src/common/structured_stream.c:92-139 | the bytes ahead never change; success means enough are buffered; the buffer is too small exactly when the request exceeds it |
| `Stream.Reader.ReadBytes` | src/common/structured_stream.c:179-327 | a successful fixed-width read returns exactly the next bytes; a failed one consumes nothing |
| `Stream.Reader.PeekLength` | src/common/structured_stream.c:377-385 | the peeked length leaves everything ahead |
| `Stream.Reader.ReadPrefixedInPlace` | src/common/structured_stream.c:371-410 | a successful read returns the next record in place; a failed one consumes nothing, and each error has its exact reason |
| `Stream.Reader.ReadPrefixed` | src/common/structured_stream.c:329-347 | the record at the start of the stream, copied whole; one too long for the caller is an error and consumed; every other failure consumes nothing |
| `Stream.Reader.ReadString` | src/common/structured_stream.c:349-369 | the same with room for a terminator |
| `Stream.LossExact` | src/common/structured_stream.c:179-435 | a failed read takes bytes exactly when a whole record fits the buffer and not the caller's |
| `Stream.RecordLost` | src/common/structured_stream.c:329-347 | a record of three bytes lost to a caller with room for two |
| `Stream.BytesExact` | src/common/structured_stream.c:179-327 | fixed-width reads give the next bytes exactly when the buffer can hold and the stream has them |
| `Stream.CopyRead` | src/common/structured_stream.c:329-410 | a record is copied byte for byte whenever the buffer holds it and the caller has room, with one more byte for a terminated string |
| `Stream.CopyExact` | src/common/structured_stream.c:329-410 | a record read succeeds exactly then, and what it returns is the record at the start of the stream |
| `Stream.RecordsRead` | src/common/structured_stream.c:329-410 | records sent one after the other are received in order, whichever of the three reads is used |
| `Stream.RunReads` | src/common/structured_stream.c:92-435 | a whole run of reads returns what the plain byte stream determines, however read() splits it |
| `Stream.Handle` | src/common/structured_stream.c:179-435 | one read of any kind agrees with the plain byte stream, and a failing descriptor consumes nothing |
| `Stream.ReadAnswer` | src/client/client.c:452-475 | the client succeeds exactly when the stream holds a whole answer it has room for, and then returns exactly its keys |
| `LfmBinary.SortLabelsSorts` | src/client/lfm.c:24-27 | sorting leaves the labels ordered by key |
| `LfmBinary.EncodeBinary` | src/client/lfm_binary_parser.c:93-137 | the buffer sized beforehand is filled exactly with the NUL-separated parts |
| `LfmBinary.MaxStrLen` | src/client/lfm_binary_parser.c:9-15 | the length of the string at the cursor, bounded by the input |
| `LfmBinary.ParseBinary` | src/client/lfm_binary_parser.c:17-91 | the loop over parts agrees with the part-by-part reading of the whole input |
| `LfmBinary.PartsJoined` | src/client/lfm_binary_parser.c:17-137 | splitting joined parts gives them back, save an empty last one |
| `LfmBinary.BinaryRoundTrip` | src/client/lfm_binary_parser.c:17-137 | parsing an encoding gives the label set back, sorted (NULL and empty names identified), if and only if it does not end in a label with an empty value, and refuses it otherwise |
| `LfmBinary.ReadsAsItself` | src/client/lfm.c:24-27 | with strictly sorted keys, sorted means unchanged |
| `LfmBinary.TerminatedReads` | src/client/lfm_binary_parser.c:17-77 | with a NUL behind it every encoding is read back |
| `LfmBinary.BinarySound` | src/client/lfm_binary_parser.c:17-77 | whatever the parser accepts is the encoding of what it returns, with or without a terminator |
| `LfmText.ScanIdent` | src/client/lfm_human_parser.c:27-44 | the longest identifier at the cursor |
| `LfmText.ScanQuotedString` | src/client/lfm_human_parser.c:46-82 | the unescaped value and the position after its closing quote, or failure |
| `LfmText.Scan` | src/client/lfm_human_parser.c:207-264 | the next token of the text and the position after it |
| `LfmText.ParseTurn` | src/client/lfm_human_parser.c:317-373 | one key="value" with its separator, or the closing brace |
| `LfmText.ParseLabels` | src/client/lfm_human_parser.c:316-374 | the label loop agrees with the grammar |
| `LfmText.ParseHuman` | src/client/lfm_human_parser.c:266-399 | the parser agrees with the grammar and stops right behind the label set |
| `LfmText.EncodeHuman` | src/client/lfm_human_parser.c:494-531 | the printed text, terminated, inside the buffer sized beforehand |
| `LfmHuman.PrintedReads` | src/client/lfm_human_parser.c:266-531 | printable label sets are read back, whatever follows the closing brace |
| `LfmHuman.ParseUses` | src/client/lfm_human_parser.c:207-399 | whatever the parser accepts has identifiers for keys and took at least the text its printing takes, plus one byte for each quote or backslash in a value |
| `LfmHuman.HumanRoundTrip` | src/client/lfm_human_parser.c:266-531 | printing then parsing gives a label set back, sorted, if and only if its keys are identifiers, its name is one or is empty before a label, and no value contains a quote or a backslash |
| `LfmHuman.PrintedShortest` | src/client/lfm_human_parser.c:494-531 | no text that reads as a label set is shorter than its printing |
| `LfmGrammar.ScanSpaces` | src/client/lfm_human_parser.c:212-218 | spaces before a token make no difference |
| `LfmGrammar.GlyphsRead` | src/client/lfm_human_parser.c:46-82 | a value is read from any spelling of it, each byte plain or behind a backslash |
| `LfmGrammar.LayoutReads` | src/client/lfm_human_parser.c:266-399 | a label set written with any spaces between tokens, any escapes, and with or without a last comma is read as that label set, sorted |
| `LfmGrammar.ParseExact` | src/client/lfm_human_parser.c:266-399 | the parser accepts a text if and only if it is written so, and returns the label set it was written for |
| `LfmGrammar.SpacedExample` | src/client/lfm_human_parser.c:207-399 | one text with a space and unsorted labels |

## Left out

- Runs over bytes: the series store keeps a block as its status, its internal id and the points it
  encodes, and a file as its live blocks. `FileSteps` and `FileLoad` prove each single disk step and
  the load over the bytes of both files, with a death at any byte; whole runs are stated over the
  live blocks.
- StoreMachine.PerformRestart: the restarts inside a run lie between operations; a crash inside an operation
  ends the run (`StoreMachine.CrashedMachineLoads`, `StoreCrashes.LoadMoment`).
- DiskStorage.Store.Create: first-time initialisation of a file is one step; a crash inside it
  is not modelled, and it is not journaled in the code either.
- DiskStorage.Store.ReserveBlock: extending the file (two unjournaled writes) is one step.
- DiskStorage.Store.Open: takes the list of blocks as known and does not model a damaged file
  or a wrong version number.
- SeriesOps.Storage.WriteDisk: does not model a failing reservation or write; offsets are
  arbitrary fresh numbers.
- Catalog.Catalogue.Insert: an item's fields are a function of its address, so an address that
  the allocator reuses for a different item counts as a new address.
- Lookup.IndexLookup: is about any filter and any label values; `Directory.QueryLabels` is about
  those of the code.
- Directory.Directory.GetItem: the catalogue's items and the series store's items are two models of
  the same records, joined by their keys only.
- Scan.ScanPages: nothing is inserted or deleted between pages (the resume id may name no item).
- Stream.Reader.EnsureRead: the switches `allowed_io` and `allowed_discard` are never cleared in
  the repository and are taken as set.
- Writing to a stream: a short write is not continued correctly there; only reading is modelled.
- LfmBinary.SortLabels: is one of the orders `qsort` may leave when keys repeat.
- LfmText.Scan: refuses numbers, which the label-set parser refuses in any case; values and
  timestamps after a label set are not parsed.
- LfmText.ScanQuotedString: a backslash as the very last byte, after which the code reads beyond
  the terminator, is a failure here.
- Growth of the label array beyond 64 entries, memory allocation and its failure: lists are
  unbounded and allocation succeeds.
- The loop of the cleaning thread (its turns are `StoreMachine.CleanItem`), locks and signals: store
  operations are atomic steps.
- Sockets, the connection handler, the rest of the client, cluster configuration, hashing,
  metrics, logging, options and the custom allocator.
- Pre-order and post-order walks, `is_member`, `add_if_not_member`, `delete_if_member`, `len` and
  the consistency check of the tree: the store does not call them.
