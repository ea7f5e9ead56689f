# Kokkos core in Dafny

This project models algorithms of the Kokkos core and proves properties of the models. Each model follows
the branches, constants and error conditions of the C++ code it cites.

## The parts

- **Memory pool** (`PoolGeometry`, `PoolMachine`, `PoolSafety`, `PoolTheorems`, `PoolLimit`, `PoolSearch`,
  `PoolCalls`, `PoolProgress`, `PoolAlone`, `PoolLayout`, `PoolChoice`, `BitSearch`, `SerialPool`). Superblocks are assigned to power-of-two block
  sizes and claimed, filled, emptied and reassigned by threads that share only state words, hints and bitsets.
  The state machine gives every thread a program counter and splits `allocate`, `deallocate` and the
  `concurrent_bitset` operations at each shared access, so acquire is not one step: the count is raised
  first, the header is checked afterwards, and the bit is searched for with one fetch-or at a time.
  `PoolTheorems` states what callers get in every reachable state, `PoolLimit` for how many threads,
  `PoolSearch` what a search has seen when it settles on a superblock or gives up, `PoolCalls` what a call
  does over its whole length, `PoolProgress` when a thread that runs alone returns, `PoolAlone` what it
  then gets, and `PoolLayout` where the shared words lie. `SerialPool` is the same code as methods over
  arrays, for one thread: there it terminates, and its results are characterised exactly, by the same
  order of preference (`PoolChoice`) and the same search for a bit (`BitSearch`).
- **Modified Gram-Schmidt** (`Vectors`, `GramSchmidt`, `GramSchmidtSpan`): the in-place double loop over real
  arrays, with an exact square root.
- **CRS graphs** (`CrsGraph`, `CrsCounting`, `CrsScan`, `CrsScatter`, `CrsTranspose`, `CrsSerial`): atomic
  counting and atomic scatter under every schedule, the scan over any cutting into chunks, the three
  composed, the serial methods, and what transposing twice gives.
- **Layouts and copies** (`Sums`, `StridedLayout`, `ViewCopies`, `FlatCopies`): one mixed-radix bijection of
  arbitrary rank carries `order_dimensions`, the flat-index decoders, and the flat paths of `deep_copy` and
  `local_deep_copy`.
- **Bit manipulation** (`Powers`, `Bits`, `BitManipulation`): words are numbers below a power of two, the
  width is a parameter.
- **Work partitioning** (`WorkPartition`, `MDRange`, `MDRangeTiles`).
- **Task futures** (`Futures`, `FutureSafety`, `FutureResults`, `FutureObjects`): ownership under any
  interleaving of data-race-free threads, what each operation leaves behind, and the same members as methods
  on objects.
- `Arith`: multiplication and division facts the others use.

## What the proofs found

- `concurrent_bitset::acquire_bounded_lg2` tests `bit_bound < bit`, so a hint equal to the bound is
  accepted and that out-of-range bit handed out, while its comment promises an error. `allocate` masks
  the hint and is not affected. `SerialPool.AcquireBoundedLg2` states exactly when the bit is out of range.
- A total size of zero with default sizes passes the constructor's bounds check and leaves a pool without
  superblocks (`SerialPool.ChooseSizes`).
- Without a smallest block size the constructor replaces the other two sizes by their defaults as well, also
  when they were given (`SerialPool.ChooseSizes`).
- A negative attempt limit is counted down and never used up. A call of `allocate` that runs alone returns
  exactly when its limit is not negative or some superblock can serve it (`PoolProgress.AllocateReturnsIff`);
  `PoolProgress.NeverReturnsExample` reaches a call that never returns.
- The constructor computes the offsets of hints and blocks in 32 bits. They are right exactly when the
  states of all superblocks and the hints together take less than 2^31 words (`PoolLayout.RegionsApartIff`).
- The used count of a state word has 26 bits, shared by the blocks of a superblock and one count for each
  thread. Block sizes are safe exactly when the number of threads and the blocks of a superblock of the
  smallest size stay below 2^26 together; with one thread more a run carries into the header
  (`PoolLimit.SizesKeptIffThreadsFit`).
- `order_dimensions` sets `check_input` to zero above rank 8, which makes the test pass instead of fail
  (`StridedLayout.CheckPassesIff`), and the fill loop then reaches an index past the eight slots
  (`StridedLayout.OrderDimensions`).
- `deep_copy`'s guard (equal extents and strides, span equal to size) does not make the flat copy right by
  itself: extents (2, 3) with strides (3, 2) pass it although element (1, 2) lies at offset 7, outside the
  span of 6. The flat copy is right exactly when the box is empty or the strides are packed
  (`FlatCopies.DeepCopyGuardExact`).
- `local_deep_copy` takes its flat path for any two contiguous views. That is right exactly when the box is
  empty, or the destination is packed and the strides agree wherever an extent exceeds one
  (`FlatCopies.LocalFlatExact`).
- `deep_copy` returns at once when both spans are the same memory, whatever the strides; a 2 by 2 block seen
  with strides (1, 2) and (2, 1) is then taken as copied (`FlatCopies.SameSpanCounterexample`).
  `FlatCopies.SameSpanExact` says when it is.
- `check_iteration_bounds` gives the last tile of a dimension the whole length when the upper bound is at
  most the tile. With a negative lower bound that dimension can have several tiles, and the last one then
  runs past the range: bounds -3 and 2 with tile 3 are an example. `MDRangeTiles.PartitionIffNoMisfit` gives
  the exact condition; a non-negative lower bound is always safe.
- `impl_change_tile_size` multiplies the new number of tiles onto the old one
  (`MDRange.MDRangePolicy.ImplChangeTileSize`).
- A dimension whose upper bound is below the lower one by two tiles less one or more counts a negative number
  of tiles. An even number of such dimensions gives an empty range a positive number of tiles
  (`MDRange.CountPositiveIff`); none of them visits an index (`MDRangeTiles.EmptyTilesVisitNothing`).
- A granularity of zero gives `WorkRange` a mask of all ones, and every piece of a range is then empty. The
  pieces cover the range exactly when adding the mask does not wrap around (`WorkPartition.CoversIffNoWrap`).
- Copy-assigning a future to one that already holds the same task increments the count although no new
  owner exists, so the task is never freed (`FutureSafety.LeaksStay`). The converting assignment does not.
  Counts are therefore equal to owners plus queue references plus those increments
  (`FutureSafety.QuietCountsExact`).
- `bit_ceil` shifts by the full width when x exceeds 2^(w-1).

## Model

| member | source | states |
|---|---|---|
| `PoolTheorems.InitialState` | core/src/Kokkos_MemoryPool.hpp:403-441 | every behaviour begins with empty superblocks, each in the block size in whose share it lies, and every hint at the beginning of its size's share |
| `PoolTheorems.HeldBlockFits` | core/src/Kokkos_MemoryPool.hpp:562-570 | in every reachable state of any interleaving, a held block lies in the data region, holds its request, has a size between the pool's smallest and largest, and is aligned to that size |
| `PoolTheorems.HeldBlocksDisjoint` | core/src/Kokkos_MemoryPool.hpp:531-573 | in every reachable state two different held blocks do not overlap, also when one is served from a larger-block superblock |
| `PoolTheorems.BlockSizeChangesOnlyWhenEmpty` | core/src/Kokkos_MemoryPool.hpp:671-676 | a step changes a superblock's block size only while its used count is zero, no bit is set, no block is live and no thread is counted in |
| `PoolTheorems.HeaderKept` | core/src/Kokkos_MemoryPool.hpp:76-94 | an atomic add or subtract of one on the state word never carries into or borrows from the header |
| `PoolTheorems.LiveBlockKeepsItsSize` | core/src/Kokkos_MemoryPool.hpp:731-733 | while a block is live, its superblock still has the block count it was granted under and its bit is set |
| `PoolTheorems.NoErroneousPointer` | core/src/Kokkos_MemoryPool.hpp:750-752 | a thread that frees only what it holds never reaches the erroneous-pointer abort |
| `PoolTheorems.ReleaseFindsItsBlock` | core/src/Kokkos_MemoryPool.hpp:713-746 | from the address alone, each step of a release recovers exactly the superblock, block size and bit it was granted, and clears exactly that bit |
| `PoolTheorems.ReleaseChecks` | core/src/Kokkos_MemoryPool.hpp:711-752 | in any state and for any address, a release goes on exactly while the address lies in the pool, is aligned to its superblock's blocks, the header is the one read and the bit is set; otherwise it aborts and changes nothing |
| `PoolTheorems.CountedInMeansFreeBlock` | core/src/impl/Kokkos_ConcurrentBitset.hpp:129-130 | a thread counted in by the first atomic add always finds a clear bit below the bound, whatever the others do |
| `PoolTheorems.QuiescentCountsAreHeldBlocks` | core/src/Kokkos_MemoryPool.hpp:531-746 | when all threads are idle, each used count and bitset is exactly the set of blocks callers hold: nothing leaks |
| `PoolSafety.EveryStateInv` | core/src/Kokkos_MemoryPool.hpp:476-753 | the invariant holds in every state of every behaviour of as many threads as leave room for themselves and a superblock of smallest blocks in the 26-bit used count |
| `PoolSafety.StepKeepsInv` | core/src/Kokkos_MemoryPool.hpp:476-753 | every atomic step of allocate, deallocate and the bitset operations keeps the invariant |
| `PoolSafety.EveryThreadCanMove` | core/src/Kokkos_MemoryPool.hpp:476-753 | in every state with the invariant each thread has a defined step for every permitted call |
| `PoolSafety.ClaimKeepsInv` | core/src/impl/Kokkos_ConcurrentBitset.hpp:103-123 | counting in, with the error and full exits, keeps used counts equal to set bits plus threads between count and bit |
| `PoolSafety.UnclaimKeepsInv` | core/src/impl/Kokkos_ConcurrentBitset.hpp:120-123 | taking the count back after a failed claim keeps the invariant |
| `PoolSafety.SetBitKeepsInv` | core/src/impl/Kokkos_ConcurrentBitset.hpp:132-154 | each fetch-or of the search, winning or losing, keeps the invariant; a win grants a block nobody else has |
| `PoolSafety.ReassignKeepsInv` | core/src/Kokkos_MemoryPool.hpp:671-676 | the compare-exchange of the whole word keeps the invariant although the header it compares was read earlier |
| `PoolSafety.ScanKeepsInv` | core/src/Kokkos_MemoryPool.hpp:595-688 | every step of the wrap-around search keeps indices and wanted sizes valid; which superblock it settles on is PoolSearch.SearchPrefers |
| `PoolSafety.PostHintKeepsInv` | core/src/Kokkos_MemoryPool.hpp:690-693 | the hint update keeps every hint a superblock index |
| `PoolSafety.FreeReadKeepsInv` | core/src/Kokkos_MemoryPool.hpp:718-742 | the range and alignment checks pass for every live block and decode to it |
| `PoolSafety.FreeCheckKeepsInv` | core/src/impl/Kokkos_ConcurrentBitset.hpp:256-262 | the header a release compares is still the one deallocate read |
| `PoolSafety.FreeBitKeepsInv` | core/src/impl/Kokkos_ConcurrentBitset.hpp:264-270 | the fetch-and always finds the bit set, and clearing it keeps the invariant |
| `PoolSafety.FreeCountKeepsInv` | core/src/impl/Kokkos_ConcurrentBitset.hpp:275-281 | the final decrement keeps the invariant |
| `PoolSafety.ClaimantHasFreeBlock` | core/src/impl/Kokkos_ConcurrentBitset.hpp:129-130 | counted-in threads and set bits together never exceed the block count, so a claimant has a free block |
| `PoolSafety.ZeroUsedIsEmpty` | core/src/Kokkos_MemoryPool.hpp:618-627 | a used count of zero means no bit set, no live block and no thread between count and bit |
| `PoolSafety.InitHolds` | core/src/Kokkos_MemoryPool.hpp:403-426 | the state the constructor leaves satisfies the invariant |
| `PoolLimit.HeaderCarry` | core/src/impl/Kokkos_ConcurrentBitset.hpp:111-113 | adding one to a state word changes its header exactly when all 26 bits of the used count are one |
| `PoolLimit.TooManyThreads` | core/src/impl/Kokkos_ConcurrentBitset.hpp:111-121 | for every valid pool and every number of threads beyond that bound, a run ends with a live block in a superblock whose header names another block size |
| `PoolLimit.SizesKeptIffThreadsFit` | core/src/Kokkos_MemoryPool.hpp:76-94 | in all reachable states live blocks keep their block size exactly when the threads and the blocks of a superblock of the smallest size stay below 2^26 together |
| `PoolSearch.SearchAlong` | core/src/Kokkos_MemoryPool.hpp:595-649 | at every moment of a search, what it knows of each superblock it has passed was true when it read it: none had room in the wanted size, the empty and the larger one it keeps are the first of their kind |
| `PoolSearch.UsedUpAttemptSawAll` | core/src/Kokkos_MemoryPool.hpp:595-687 | an attempt is used up only by a search in which every superblock was read and was unusable at that moment, whatever other threads did meanwhile |
| `PoolSearch.SearchPrefers` | core/src/Kokkos_MemoryPool.hpp:574-687 | in every behaviour a search ends at the first superblock it read with the wanted size and room; else, having read them all, at the first one read empty; else at the first one read with larger blocks and room; else it uses up an attempt |
| `PoolSearch.LargerBlockJustified` | core/src/Kokkos_MemoryPool.hpp:584-687 | a thread is granted a larger block than its size only after a search that read every superblock and found no room in the size and none empty |
| `PoolSearch.HintChanges` | core/src/Kokkos_MemoryPool.hpp:690-693 | a step changes a hint exactly when a thread that posts finds there what it read, and then to the superblock it goes for |
| `PoolSearch.PostsComeFrom` | core/src/Kokkos_MemoryPool.hpp:629-677 | a thread comes to post a hint from its search, or from a reassignment that it won |
| `PoolCalls.NullAfterLimit` | core/src/Kokkos_MemoryPool.hpp:531-698 | in every behaviour a call that gives up has ended exactly as many searches with nothing found as its limit, and leaves superblocks and held blocks alone |
| `PoolCalls.TriesItsChoice` | core/src/Kokkos_MemoryPool.hpp:531-688 | what a thread tries to acquire is the superblock its last search chose, also when another thread won the reassignment, or the one a hint named; hints are read only when a call begins or an attempt was used up |
| `PoolCalls.PostedOverHintRead` | core/src/Kokkos_MemoryPool.hpp:531-693 | a hint is replaced only by the choice of a thread that read the very value it replaces earlier in the same round |
| `PoolAlone.AllocateAlone` | core/src/Kokkos_MemoryPool.hpp:476-698 | from every reachable state, a call that then runs alone and can be served gets the hinted superblock if that has the size and room, else the one that suits best; the whole new state is given: words, bit, hints, held blocks |
| `PoolAlone.AllocateAloneNull` | core/src/Kokkos_MemoryPool.hpp:476-698 | alone, a call with its limit used up or nothing to serve it returns and leaves the whole state as it was, size zero returns at once, and only a size above the largest block aborts |
| `PoolProgress.AloneReturnsIff` | core/src/Kokkos_MemoryPool.hpp:476-753 | from every reachable state a thread that runs alone, anywhere inside allocate or deallocate, returns to its caller, except exactly a call with a negative attempt limit that no superblock can serve |
| `PoolProgress.AllocateReturnsIff` | core/src/Kokkos_MemoryPool.hpp:531-698 | a call of allocate that then runs alone returns exactly when its limit is not negative or some superblock can serve its size at the time of the call |
| `PoolProgress.NeverReturns` | core/src/Kokkos_MemoryPool.hpp:531-698 | along any behaviour in which only that thread moves, a call with a negative limit that no superblock can serve stays one |
| `PoolProgress.NeverReturnsExample` | core/src/Kokkos_MemoryPool.hpp:531-698 | such a call is reached: the only block of the smallest pool is held and the limit is minus one |
| `PoolProgress.GrantedReturns` | core/src/impl/Kokkos_ConcurrentBitset.hpp:132-154 | a counted-in thread that runs alone has its bit after at most one fetch-or for each word of the bitset and one more |
| `PoolLayout.RegionsApartIff` | core/src/Kokkos_MemoryPool.hpp:357-384 | superblock states, hints and blocks take separate parts of the allocation, with the offsets computed in 32 bits, exactly when states and hints together take less than 2^31 words |
| `PoolLayout.TouchedWordsInside` | core/src/impl/Kokkos_ConcurrentBitset.hpp:132-136 | in every reachable state every bit that is set or tried lies in its own superblock's words, before the hints |
| `PoolLayout.StateSizeIsLeast` | core/src/Kokkos_MemoryPool.hpp:357-366 | the state of a superblock takes the least multiple of 8 words that holds a state word and one bit for each smallest block |
| `PoolLayout.HintWordsIsLeast` | core/src/Kokkos_MemoryPool.hpp:373-381 | the hints take two words for each of the least multiple of 8 block sizes that is enough |
| `PoolLayout.RegionsAdjacent` | core/src/Kokkos_MemoryPool.hpp:368-384 | when the parts are apart each begins where the one before it ends |
| `PoolLayout.FieldsAreMasks` | core/src/impl/Kokkos_ConcurrentBitset.hpp:50-53 | block count and used count, written as quotient and remainder, are what the two masks select from a state word |
| `PoolLayout.FetchAddWraps` | core/src/impl/Kokkos_ConcurrentBitset.hpp:111-113 | an atomic add leaves the 32-bit word that differs from the sum by a multiple of 2^32 |
| `PoolGeometry.AddressDecodes` | core/src/Kokkos_MemoryPool.hpp:713-742 | superblock, alignment and bit computed from an address are those the address was built from, and the block ends inside the pool |
| `PoolGeometry.BlocksDisjoint` | core/src/Kokkos_MemoryPool.hpp:566-570 | blocks of different superblocks, or different bits of one superblock, have disjoint address ranges |
| `PoolGeometry.BlockSizeIsLeast` | core/src/Kokkos_MemoryPool.hpp:446-454 | get_block_size_lg2 is the least block size of at least the minimum that holds the request |
| `PoolGeometry.RunsCoverPool` | core/src/Kokkos_MemoryPool.hpp:407-426 | the runs of superblocks given to the block sizes start at the first and end after the last; where each begins is FirstSuperblockExact |
| `PoolGeometry.RunIsUnique` | core/src/Kokkos_MemoryPool.hpp:417-425 | each superblock lies in exactly one run |
| `PoolGeometry.FirstSuperblockExact` | core/src/Kokkos_MemoryPool.hpp:417-418 | run i begins at i/n-th of the superblocks, rounded down, n the number of block sizes |
| `PoolGeometry.InitialShares` | core/src/Kokkos_MemoryPool.hpp:410-425 | a superblock starts in exactly the block size in whose share of the superblocks it lies |
| `PoolGeometry.SharesAreFair` | core/src/Kokkos_MemoryPool.hpp:417-418 | every block size starts with an equal share of the superblocks, rounded down, or one more |
| `PoolGeometry.SearchStartInRange` | core/src/Kokkos_MemoryPool.hpp:417-421 | the fixed search start of every block size is a superblock index, also with fewer superblocks than sizes |
| `PoolGeometry.NextBitInRange` | core/src/impl/Kokkos_ConcurrentBitset.hpp:146-153 | while some block is free the next bit tried stays below the bound |
| `Powers.IntLog2` | core/src/impl/Kokkos_BitOps.hpp:31-41 | the shifting loop stops at the highest set bit |
| `Powers.IntegralPowerOfTwoThatContains` | core/src/impl/Kokkos_BitOps.hpp:235-239 | the result is the least exponent whose power of two is at least n, and zero for n zero |
| `SerialPool.ChooseSizes` | core/src/Kokkos_MemoryPool.hpp:282-354 | defaults and rounding give a valid pool of at least the requested total and less than one superblock more, or fail exactly when the sizes, given or defaulted, violate the constraints; without a smallest block all three sizes are defaults whatever else was given; a total of zero is accepted with default sizes only and leaves no superblocks |
| `SerialPool.RoundedSizesValid` | core/src/impl/Kokkos_MemoryPool.cpp:41-85 | sizes that pass the bounds check stay consistent after rounding each up to a power of two |
| `SerialPool.FindAndSet` | core/src/impl/Kokkos_ConcurrentBitset.hpp:132-154 | run alone the search ends, sets one clear bit and changes nothing else: the hint if it is clear, otherwise in the first word with a clear bit, from the word of the hint on and around, the same offset or the lowest clear bit |
| `SerialPool.AcquireBoundedLg2` | core/src/impl/Kokkos_ConcurrentBitset.hpp:72-155 | for any bound, hint and header argument, each result code exactly when its condition holds, state untouched on failure, one bit and one count on success; against the comment at lines 83-86 a hint equal to the bound is accepted, and the granted bit is out of range exactly if that bit is clear or is the first of a full-width word past the end that has a clear bit |
| `SerialPool.ReleaseBit` | core/src/impl/Kokkos_ConcurrentBitset.hpp:247-282 | header error and already-released exactly when they apply with nothing changed, else one bit and one count less |
| `SerialPool.MemoryPool.constructor` | core/src/Kokkos_MemoryPool.hpp:386-441 | every superblock starts empty in the block size in whose share it lies, every size has an equal share or one more, and every hint and start is the first superblock of the share |
| `SerialPool.MemoryPool.Search` | core/src/Kokkos_MemoryPool.hpp:595-649 | the search returns the first superblock from its start with the wanted size and room, else the first empty one, else the first larger-block one with room, and nothing only if no superblock can serve |
| `SerialPool.MemoryPool.FindSuperblock` | core/src/Kokkos_MemoryPool.hpp:579-688 | one search round ends with the superblock that suits best, reassigned if it was empty, and says whether it becomes the hint, or changes nothing |
| `SerialPool.MemoryPool.Claim` | core/src/Kokkos_MemoryPool.hpp:546-574 | an acquire run alone succeeds exactly when there is room and sets the bit the search settles on from the clock |
| `SerialPool.MemoryPool.Reassign` | core/src/Kokkos_MemoryPool.hpp:671-676 | the compare-exchange succeeds exactly when the superblock is unused |
| `SerialPool.MemoryPool.Allocate` | core/src/Kokkos_MemoryPool.hpp:476-698 | run alone allocate terminates, with a negative limit provided some superblock can serve; it returns null exactly for size zero, a limit of zero, or when no superblock can serve; otherwise one new bit of the hinted superblock or the one that suits best, and the new hints; a larger block only when nothing fits exactly |
| `SerialPool.MemoryPool.ReleaseIn` | core/src/Kokkos_MemoryPool.hpp:744-746 | a release succeeds exactly when the bit is set and clears only it |
| `SerialPool.MemoryPool.BlockFromAddress` | core/src/Kokkos_MemoryPool.hpp:718-742 | a live block's address passes the checks and decodes to it |
| `SerialPool.MemoryPool.AddressFromBlock` | core/src/Kokkos_MemoryPool.hpp:724-742 | an address that passes the checks is the start of the block it decodes to |
| `SerialPool.MemoryPool.Deallocate` | core/src/Kokkos_MemoryPool.hpp:702-753 | deallocate accepts exactly the addresses of live blocks, frees that block and changes nothing else |
| `SerialPool.MemoryPool.AllocateThenDeallocate` | core/src/Kokkos_MemoryPool.hpp:476-753 | freeing a block just granted succeeds and restores all bitsets |
| `Vectors.AnySplitGivesDot` | core/perf_test/PerfTestBlasKernels.hpp:44-52 | init, work items and joins give the dot product for every way of splitting the range |
| `GramSchmidt.NormalizeColumn` | core/perf_test/PerfTestGramSchmidt.cpp:43-47 | scaling by the inverse norm gives a unit vector, or zero for a zero column, and the norm scales it back |
| `GramSchmidt.ProjectColumn` | core/perf_test/PerfTestGramSchmidt.cpp:124-130 | subtracting the projection on a unit or zero column leaves a vector orthogonal to it |
| `GramSchmidt.NormalizeStep` | core/perf_test/PerfTestGramSchmidt.cpp:109-118 | finishing a column keeps recovery of A, orthogonality of finished columns and zero rows |
| `GramSchmidt.ProjectStep` | core/perf_test/PerfTestGramSchmidt.cpp:120-130 | projecting one column out of one later column keeps the same invariant |
| `GramSchmidt.InvNorm2` | core/perf_test/PerfTestGramSchmidt.cpp:35-54 | R(j,j) becomes the norm of column j and the scalar its inverse, or zero |
| `GramSchmidt.DotNeg` | core/perf_test/PerfTestGramSchmidt.cpp:58-81 | R(j,k) becomes the dot product and the scalar its negative |
| `GramSchmidt.ScaleColumn` | core/perf_test/PerfTestBlasKernels.hpp:110-111 | every entry of the column is multiplied in place, other columns unchanged |
| `GramSchmidt.Axpby` | core/perf_test/PerfTestBlasKernels.hpp:144-145 | every entry becomes alpha x + beta y in place, other columns unchanged |
| `GramSchmidt.Factorization` | core/perf_test/PerfTestGramSchmidt.cpp:99-136 | for every real matrix the in-place loops end with the invariant for all columns and leave R below the diagonal untouched |
| `GramSchmidt.ColumnsOrthogonal` | core/perf_test/PerfTestGramSchmidt.cpp:109-131 | the columns of Q are pairwise orthogonal, each of norm one or zero, also for rank-deficient input |
| `GramSchmidt.ProductIsInput` | core/perf_test/PerfTestGramSchmidt.cpp:155-156 | A equals QR exactly |
| `GramSchmidt.CoefficientsAreClassical` | core/perf_test/PerfTestGramSchmidt.cpp:124-126 | although computed from partly reduced columns, R(i,c) is the product of column i of Q with the original column c |
| `GramSchmidtSpan.SpansAgree` | core/perf_test/PerfTestGramSchmidt.cpp:109-131 | for every n the first n columns of Q span exactly what the first n input columns span |
| `GramSchmidtSpan.ZeroColumnIffDependent` | core/perf_test/PerfTestGramSchmidt.cpp:43-47 | a column of Q, and its diagonal entry of R, is zero exactly when the input column is a linear combination of the input columns before it |
| `CrsCounting.CountsAreExact` | core/src/Kokkos_Crs.hpp:151 | for every schedule of the atomic increments, counts[v] is the number of entries naming v |
| `CrsCounting.RowMapEnd` | core/src/Kokkos_Crs.hpp:199-207 | the transposed row map ends at the number of entries |
| `CrsScan.PartialPass` | core/src/Kokkos_Crs.hpp:181-195 | the non-final pass sums a chunk |
| `CrsScan.FinalPass` | core/src/Kokkos_Crs.hpp:181-188 | the final pass writes exactly the chunk's prefix sums, entry zero and the total belonging to the extra last index |
| `CrsScan.RowMapFromCounts` | core/src/Kokkos_Crs.hpp:181-207 | for every cutting of [0, n + 1) into consecutive chunks, finished in any order, row_map[k] is the sum of the first k counts and the total is returned |
| `CrsScatter.StepKeepsInv` | core/src/Kokkos_Crs.hpp:226-235 | drawing a ticket and storing into its slot keep tickets, counters and slots consistent |
| `CrsScatter.FinishedIsTranspose` | core/src/Kokkos_Crs.hpp:226-235 | once every row is through, every slot was stored exactly once and row v holds each row i once per occurrence of v in it |
| `CrsScatter.EveryScheduleTransposes` | core/src/Kokkos_Crs.hpp:226-242 | every schedule that gives each row enough turns ends in that state |
| `CrsScatter.TurnsUsed` | core/src/Kokkos_Crs.hpp:229-234 | a row needs exactly two atomic turns for each of its entries, whatever the other rows do |
| `CrsTranspose.AnySchedulesTranspose` | core/src/Kokkos_Crs.hpp:276-291 | for every order of the atomic increments, the prefix sums of the counts they leave make every scatter schedule with enough turns end with the transpose, each slot stored once |
| `CrsTranspose.TransposeInParallel` | core/src/Kokkos_Crs.hpp:276-291 | the three passes together, for any counting order, any cutting of the scan and any scatter schedule |
| `CrsSerial.GetCrsTransposeCounts` | core/src/Kokkos_Crs.hpp:258-266 | serial counting in place is exact |
| `CrsSerial.FillCrsTransposeEntries` | core/src/Kokkos_Crs.hpp:226-242 | run row by row in place the scatter gives the transpose with nondecreasing rows |
| `CrsSerial.TransposeCrs` | core/src/Kokkos_Crs.hpp:276-291 | the three passes together give the transpose with nondecreasing rows, for any cutting of the scan |
| `CrsSerial.TransposeTwice` | core/src/Kokkos_Crs.hpp:276-291 | transposing twice in serial order gives the same row map and every row sorted |
| `CrsSerial.CountAndFill` | core/src/Kokkos_Crs.hpp:302-360 | count, scan and fill leave every row of the functor in its place for any order of rows; only empty rows are filled with a null pointer |
| `StridedLayout.CheckPassesIff` | core/src/Kokkos_Layout.hpp:168-175 | up to rank 8 the bitmask check passes exactly for permutations; above rank 8 it passes for every order |
| `StridedLayout.OrderDimensions` | core/src/Kokkos_Layout.hpp:160-182 | up to rank 8 strides and dimensions are filled in exactly when order is a permutation, else all slots keep their defaults; above rank 8 the fill always runs and reaches an index past the eight slots, at the latest in round 8 |
| `StridedLayout.OrderedStridesArePacked` | core/src/Kokkos_Layout.hpp:176-181 | the strides are packed and the layout is contiguous |
| `StridedLayout.PackedBelow` | core/src/Kokkos_Layout.hpp:176-181 | packed strides keep every offset below the product of the extents |
| `StridedLayout.PackedInjective` | core/src/Kokkos_Layout.hpp:176-181 | packed strides give different multi-indices different offsets |
| `StridedLayout.PackedOnto` | core/src/Kokkos_Layout.hpp:176-181 | packed strides reach every offset below the product |
| `StridedLayout.OntoIffPacked` | core/src/impl/Kokkos_ViewMapping.hpp:2466-2503 | offsets fill [0, size) exactly when the strides are packed in some order |
| `StridedLayout.OntoInjective` | core/src/impl/Kokkos_ViewMapping.hpp:2466-2503 | a layout that fills [0, size) is injective and has no offset beyond |
| `StridedLayout.DecodeInBox` | core/src/Kokkos_CopyViews.hpp:1928-1938 | repeated remainder and quotient decode every flat index below the size to a multi-index of the box, and the weights give it back |
| `StridedLayout.DecodeEncode` | core/src/Kokkos_CopyViews.hpp:1928-1938 | every multi-index of the box is decoded from exactly one flat index |
| `StridedLayout.RankNineAccepted` | core/src/Kokkos_Layout.hpp:168-175 | nine times dimension 0 passes the check at rank 9 |
| `ViewCopies.DecodeIndex` | core/src/Kokkos_CopyViews.hpp:1928-1938 | the loop of remainders and quotients computes that decoding at any rank |
| `ViewCopies.TeamCopy` | core/src/Kokkos_CopyViews.hpp:1803-2016 | the team form, in any order of its iterations and for any two views, stores every element no other element disturbs and changes nothing outside the destination |
| `ViewCopies.SerialCopy` | core/src/Kokkos_CopyViews.hpp:2018-2155 | the nested loops of the serial form do the same at any rank |
| `ViewCopies.CleanIsCopied` | core/src/Kokkos_CopyViews.hpp:1831-2155 | where no element disturbs another, as when the views are apart and the destination's elements have places of their own, every element arrives |
| `ViewCopies.CopiedUnique` | core/src/Kokkos_CopyViews.hpp:1803-2155 | so both forms end in the same memory |
| `FlatCopies.CopyContiguous` | core/src/Kokkos_CopyViews.hpp:1787-1801 | the serial flat copy moves the span, also onto a source that begins later, and nothing else |
| `FlatCopies.TeamCopyContiguous` | core/src/Kokkos_CopyViews.hpp:1787-1794 | the team form, in any order of its iterations, moves every place no iteration overwrites first, so the whole span when the spans are apart |
| `FlatCopies.FlatIsElementwise` | core/src/Kokkos_CopyViews.hpp:1758-1768 | between layouts that fill their spans with equal offsets the flat copy is the element-wise copy |
| `FlatCopies.DeepCopyGuardExact` | core/src/Kokkos_CopyViews.hpp:1744-1757 | under deep_copy's guard the flat copy equals the element-wise copy in every memory exactly when the box is empty or the strides are packed |
| `FlatCopies.LocalFlatExact` | core/src/Kokkos_CopyViews.hpp:1833-1836 | for every pair of layouts its guard lets through, the flat path of local_deep_copy is right in every memory exactly when the box is empty, or the destination is packed and the strides agree wherever the extent exceeds one |
| `FlatCopies.LocalDeepCopy` | core/src/Kokkos_CopyViews.hpp:1803-2155 | null destination, flat path and element path, with the memory each leaves; on the flat path the elements arrive when the condition of LocalFlatExact holds |
| `FlatCopies.SameSpanExact` | core/src/Kokkos_CopyViews.hpp:1682-1692 | the early return on equal spans leaves the destination a copy in every memory exactly when the box is empty or the strides agree wherever the extent exceeds one |
| `FlatCopies.SameSpanCounterexample` | core/src/Kokkos_CopyViews.hpp:1682-1692 | a 2 by 2 block with strides (1, 2) and (2, 1) has equal spans, and some memory is then not copied |
| `FlatCopies.DeepCopy` | core/src/Kokkos_CopyViews.hpp:1597-1780 | null views, same spans, extents error, flat and element-wise copy, each exactly when its condition holds; between contiguous views with spans of their own an overlap error exactly when they share an address |
| `FlatCopies.OverlapMeans` | core/src/Kokkos_CopyViews.hpp:1695-1697 | the comparison of the four ends finds an overlap exactly when two nonempty spans share an address; for an empty span, when one view begins strictly inside the other span |
| `FlatCopies.GuardCounterexample` | core/src/Kokkos_CopyViews.hpp:1744-1757 | extents (2, 3) with strides (3, 2) pass the guard with every element at a place of its own, one of them outside the span, and the flat copy is not the element-wise one |
| `FlatCopies.LocalFlatCounterexample` | core/src/Kokkos_CopyViews.hpp:1833-1836 | strides (1, 2) and (2, 1) are both contiguous on (2, 2), and the flat copy is not the element-wise one |
| `BitManipulation.CountlZeroFallback` | core/src/Kokkos_BitManipulation.hpp:58-74 | the binary search returns width minus bit length; the 32-bit temporary never truncates up to width 64 |
| `BitManipulation.HalfFits` | core/src/Kokkos_BitManipulation.hpp:61-67 | the upper half of a word of 2c bits, c at most 32, fits the 32-bit temporary |
| `BitManipulation.CountlZero` | core/src/Kokkos_BitManipulation.hpp:135-142 | the number of leading zero bits, the width for zero |
| `BitManipulation.CountrZeroFallback` | core/src/Kokkos_BitManipulation.hpp:76-81 | the position of the lowest one bit, the width for zero |
| `BitManipulation.BelowLowest` | core/src/Kokkos_BitManipulation.hpp:79-80 | ~x & (x - 1) is the block of ones below the lowest one bit |
| `BitManipulation.PopcountFallback` | core/src/Kokkos_BitManipulation.hpp:83-90 | the loop counts the one bits |
| `BitManipulation.ClearLowest` | core/src/Kokkos_BitManipulation.hpp:86 | x & (x - 1) has one one bit fewer |
| `Bits.OnesAreBits` | core/src/Kokkos_BitManipulation.hpp:83-90 | the count of ones by halving is the count over bit positions |
| `BitManipulation.HasSingleBitIffPower` | core/src/Kokkos_BitManipulation.hpp:186-190 | the test holds exactly for powers of two |
| `BitManipulation.BitWidth` | core/src/Kokkos_BitManipulation.hpp:210-216 | the least r with x < 2^r |
| `BitManipulation.BitFloor` | core/src/Kokkos_BitManipulation.hpp:201-208 | the largest power of two not above x |
| `BitManipulation.BitCeil` | core/src/Kokkos_BitManipulation.hpp:192-199 | the least power of two not below x exactly when x is at most 2^(w-1); beyond, the shift count reaches the width |
| `BitManipulation.RotlBits` | core/src/Kokkos_BitManipulation.hpp:221-231 | left rotation by any signed amount moves bit i - s modulo the width to bit i |
| `BitManipulation.RotrIsRotl` | core/src/Kokkos_BitManipulation.hpp:233-243 | rotr by s is rotl by -s |
| `BitManipulation.RotlCompose` | core/src/Kokkos_BitManipulation.hpp:221-231 | rotations compose additively |
| `BitManipulation.RotateBack` | core/src/Kokkos_BitManipulation.hpp:221-243 | rotl and rotr undo each other for every signed amount |
| `BitManipulation.RotlKeepsOnes` | core/src/Kokkos_BitManipulation.hpp:221-231 | rotation keeps the number of one bits |
| `BitManipulation.ByteswapFallback` | core/src/Kokkos_BitManipulation.hpp:28-56 | the shrinking masks reverse the base-256 digits of a word of any number of bytes |
| `BitManipulation.SwapRoundBits` | core/src/Kokkos_BitManipulation.hpp:40-45 | one round exchanges two bytes and keeps all other bits |
| `BitManipulation.ByteswapInvolution` | core/src/Kokkos_BitManipulation.hpp:28-56 | byteswap is its own inverse |
| `WorkPartition.RangePolicy.SetAutoChunkSize` | core/src/Kokkos_ExecPolicy.hpp:187-219 | aborts exactly for a given granularity that is no power of two; else ends with a power of two of the promised size |
| `WorkPartition.Double` | core/src/Kokkos_ExecPolicy.hpp:206-215 | each doubling loop stops at the least power of two that is enough, or at its cap |
| `WorkPartition.ChunkIs` | core/src/Kokkos_ExecPolicy.hpp:206-218 | the two loops together leave between 20 and 100 chunks a thread unless the chunk is one |
| `WorkPartition.RoundUpBounds` | core/src/Kokkos_ExecPolicy.hpp:241-244 | (v + m) & ~m is between v and v + m for every mask whose sum fits the word, and below v when the sum wraps around |
| `WorkPartition.RoundUpLeast` | core/src/Kokkos_ExecPolicy.hpp:241-244 | for a power of two it is the least multiple not below v |
| `WorkPartition.CutsAligned` | core/src/Kokkos_ExecPolicy.hpp:237-254 | with a granularity of 2^g every piece begins a multiple of 2^g after the range does, or at its end |
| `WorkPartition.WorkRange` | core/src/Kokkos_ExecPolicy.hpp:237-254 | the clamped piece of any rank, for any mask, zero for no partitions |
| `WorkPartition.PiecesCover` | core/src/Kokkos_ExecPolicy.hpp:237-254 | without wrap-around pieces are adjacent, end with the range, and none exceeds an even share, rounded up, plus the mask |
| `WorkPartition.PieceOf` | core/src/Kokkos_ExecPolicy.hpp:237-254 | every index before the end of piece n lies in one of the first n pieces |
| `WorkPartition.PieceUnique` | core/src/Kokkos_ExecPolicy.hpp:237-254 | no index lies in two pieces, whatever the mask |
| `WorkPartition.CoversIffNoWrap` | core/src/Kokkos_ExecPolicy.hpp:237-254 | the pieces cover the range exactly when adding the mask to the share does not wrap; with a granularity of zero every piece is empty |
| `WorkPartition.TeamRangesPartition` | core/src/Kokkos_ExecPolicy.hpp:640-656 | an index lies in rank r's team range exactly when r is its quotient, so the ranges share out the whole range |
| `MDRange.MDRangePolicy.constructor` | core/src/KokkosExp_MDRangePolicy.hpp:270-275 | for any bounds, after construction given tiles are kept, the others follow the default rules, and the number of tiles is the product of tile_end, with its sign |
| `MDRange.MDRangePolicy.InitHelper` | core/src/KokkosExp_MDRangePolicy.hpp:318-358 | for any bounds, tiles as given or by the default rules in visiting order, tile_end rounded up or truncated for a range that runs backwards, products exact, abort exactly above max_threads; the tile count multiplies what was there |
| `MDRange.MDRangePolicy.ImplChangeTileSize` | core/src/KokkosExp_MDRangePolicy.hpp:311-314 | re-tiling chooses tiles by the same rules and multiplies the new tile count onto the old one, so it is right exactly if that was one or the new count is zero |
| `MDRange.DefaultTilesBounded` | core/src/KokkosExp_MDRangePolicy.hpp:330-345 | when no tile but the fastest is given, the tiles hold no more indices together than the first one, or fewer than max_total_tile_size |
| `MDRange.DefaultTilesNeverAbort` | core/src/KokkosExp_MDRangePolicy.hpp:330-357 | so default tiles never abort when the first tile and the total stay within max_threads |
| `MDRange.ChosenTiles` | core/src/KokkosExp_MDRangePolicy.hpp:330-345 | a given tile is kept; the fastest dimension without one gets the default largest tile, or its whole length; any other the default tile while the tiles before it leave room in max_total_tile_size, else one |
| `MDRange.CountPositiveIff` | core/src/KokkosExp_MDRangePolicy.hpp:346-348 | the product of tile counts is positive exactly when none is zero and an even number of them is negative |
| `MDRangeTiles.TileOffset` | core/src/impl/KokkosExp_Host_IterateTile.hpp:1662-1674 | the first index of a tile in every dimension, for both outer directions and tile counts of either sign; for a range that is nowhere empty it is the tile at the decoded coordinates |
| `MDRangeTiles.CheckIterationBounds` | core/src/impl/KokkosExp_Host_IterateTile.hpp:1628-1648 | the tile dimensions and the full-tile flag |
| `MDRangeTiles.CoordinatesInjective` | core/src/impl/KokkosExp_Host_IterateTile.hpp:1662-1674 | different tile numbers have different coordinates |
| `MDRangeTiles.CoordinatesOnto` | core/src/impl/KokkosExp_Host_IterateTile.hpp:1662-1674 | every tile coordinate has a tile number |
| `MDRangeTiles.PartialIs` | core/src/impl/KokkosExp_Host_IterateTile.hpp:1633-1644 | the extent of a tile in one dimension, right for every tile unless the dimension is a misfit |
| `MDRangeTiles.PartitionIffNoMisfit` | core/src/impl/KokkosExp_Host_IterateTile.hpp:1628-1684 | for any bounds, the tiles partition the index box exactly when some dimension is empty or runs backwards, or none has upper <= tile < length with a remainder of two or more |
| `MDRangeTiles.EmptyTilesVisitNothing` | core/src/impl/KokkosExp_Host_IterateTile.hpp:1662-1674 | no tile of a range that is empty or runs backwards in some dimension visits an index, however many tiles there are |
| `MDRangeTiles.BackwardExtent` | core/src/impl/KokkosExp_Host_IterateTile.hpp:1633-1644 | in a dimension that runs backwards the extent is negative at every offset a tile can have |
| `MDRangeTiles.PolicyPartitions` | core/src/KokkosExp_MDRangePolicy.hpp:318-349 | the tiles of a constructed policy partition its range exactly in that case |
| `MDRangeTiles.NonNegativeFits` | core/src/impl/KokkosExp_Host_IterateTile.hpp:1638-1644 | no dimension with a non-negative lower bound is such a misfit |
| `MDRangeTiles.MisfitExample` | core/src/impl/KokkosExp_Host_IterateTile.hpp:1638-1644 | the range [-3, 2) in tiles of three is not partitioned |
| `FutureSafety.EveryStateInv` | core/src/Kokkos_Future.hpp:85-224 | the ownership invariant holds in every state of every data-race-free run of any number of threads and futures |
| `FutureSafety.StepKeepsInv` | core/src/Kokkos_Future.hpp:85-224 | each atomic step of copy, move, assignment, clear, spawn and queue reference keeps it; what the futures hold afterwards is FutureResults.OperationResult |
| `FutureSafety.NoDanglingFuture` | core/src/Kokkos_Future.hpp:213-224 | a future nobody is changing points at a live task with a positive count |
| `FutureSafety.QuietCountsExact` | core/src/impl/Kokkos_TaskNode.hpp:87-123 | between operations the count is exactly the futures at the task, the queue's references and one for each earlier same-task copy assignment, and the task is live exactly while it is positive |
| `FutureSafety.FreedUnreferenced` | core/src/Kokkos_Future.hpp:213-224 | deallocate is reached only with no owning future, no queue reference and no future being read |
| `FutureSafety.FreedForGood` | core/src/Kokkos_Future.hpp:213-224 | a task freed in one state of a run is freed in every later one |
| `FutureSafety.LeakedIsCopies` | core/src/Kokkos_Future.hpp:116-127 | in every state of every run the references of a task without an owner are as many as the copy assignments so far that found the task in both futures |
| `FutureSafety.LeaksStay` | core/src/Kokkos_Future.hpp:116-127 | after the first of them the task is live in every later state, its count never below their number |
| `FutureResults.OperationResult` | core/src/Kokkos_Future.hpp:85-224 | whatever other threads do meanwhile, once a copy, move or clear is over the destination holds what the source held at its beginning, or nothing; the source still does after a copy, and holds nothing after a move |
| `FutureResults.SpawnResult` | core/src/impl/Kokkos_SimpleTaskScheduler.hpp:138-165 | a new task is live with a count of two, one for the only future at it and one for the queue |
| `FutureResults.QueueIsBalance` | core/src/impl/Kokkos_SimpleTaskScheduler.hpp:145-151 | the queue's references to a task are one for its spawning and one for each acquire, less its releases |
| `FutureResults.QuietCountFromEvents` | core/src/impl/Kokkos_TaskNode.hpp:87-123 | between operations a count follows from the events of the run: futures at the task, spawning, acquires, releases and same-task copies |
| `FutureObjects.BasicFuture.Clear` | core/src/Kokkos_Future.hpp:213-224 | one reference given up, deallocation exactly at the last, null afterwards |
| `FutureObjects.BasicFuture.Copy` | core/src/Kokkos_Future.hpp:93-99 | a copy counts one reference |
| `FutureObjects.BasicFuture.Move` | core/src/Kokkos_Future.hpp:88-91 | a move changes no count and leaves the source null |
| `FutureObjects.BasicFuture.AssignCopy` | core/src/Kokkos_Future.hpp:116-127 | copy assignment: one reference more for the new task, one fewer for a different old one, and the extra reference when the tasks are the same |
| `FutureObjects.BasicFuture.AssignConverting` | core/src/Kokkos_Future.hpp:164-183 | converting assignment: the same without the extra reference |
| `FutureObjects.BasicFuture.AssignMove` | core/src/Kokkos_Future.hpp:101-114 | move assignment: the reference moves between different tasks and the old one loses one, equal tasks lose one; also from itself |

## Left out

- Weak memory ordering: every atomic or volatile access is one sequentially consistent step.
- Fixed-width overflow of sizes, extents, offsets and range bounds in pools, views and policies: sizes are
  mathematical integers. Real widths are kept for the state word and the region offsets of the pool, the
  mask of `order_dimensions`, and all bit functions.
- Floating-point rounding: Gram-Schmidt is over exact reals with an exact square root.
- The clock register that picks a bit to try first is a parameter of `allocate`; printing and usage
  statistics of the pool are left out, and so are `allocate` on a pool without superblocks and
  `deallocate` of a null pointer, which returns at once.
- Futures: the contents of tasks, their queues and their results, and predecessor arguments of `spawn`, are
  not part of this model; queue references are taken from a live future and dropped at any time.
- FutureSafety.EveryStateInv: does not model two threads that write one future at the same time, because
  the class gives no protection there; runs are the data-race-free ones.
- Profiling callbacks, fences and the choice of execution space and iteration pattern in `deep_copy` are
  left out; its element-wise copy runs the elements in any order.
- FlatCopies.TeamCopyContiguous: on overlapping spans the places that another iteration may overwrite first
  have no promised value, because the order of the iterations decides it; the same holds for elements that
  disturb each other in the element-wise copies.
- MDRange.MDRangePolicy.InitHelper: the message printed before the abort and the narrowing of a length to
  `int` for the default largest tile are left out.
- WorkPartition.RangePolicy.SetAutoChunkSize: the SYCL branch, which fixes the chunk at one, is chosen at
  compile time and left out.
- WorkPartition.WorkRange: only the sum with the mask wraps around; the products with the rank are
  mathematical integers.
- SerialPool.MemoryPool.Allocate: a method has to return, so the calls that do not are left to the state
  machine; `PoolProgress.AllocateReturnsIff` shows that they are exactly those its requirement excludes.
- CrsSerial.CountAndFill: the functor is one that returns a row's length and stores that row; a functor
  that answers differently on its two calls is not modelled.
- Compiler builtins behind the bit functions, `bit_cast`, `countl_one` and `countr_one`: the first two are
  not code of this repository, the last two would only repeat the functions they call.
- `ViewFill`, `ViewRemap` and `resize`: the rank 7 fill and the rank 4 remap use indices that do not match
  their extents, so no claim holds uniformly over ranks.
- Memory spaces, allocation records, profiling, backend dispatch, mirrors and template machinery.
