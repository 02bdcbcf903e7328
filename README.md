# CS314 practice solutions in Dafny

This project models five solutions from a collection of data-structure exercises (UT Austin CS 314
practice problems) and proves properties of the models:

- **FreeList** (`free_list_spec.dfy`, `free_lists.dfy`): a first-fit free list of memory blocks,
  kept as a singly linked chain of `FLNode`s in address order. It supports `allocate`, `free` and
  `compact`. `FreeListSpec` states each operation on the sequence of blocks. `FreeLists` is the class
  over linked nodes, and each of its methods is proved equal to the sequence version.
- **ArithmeticSubstitution** (`arithmetic_substitution.dfy`): a backtracking search for `+`/`-`
  operators that make `t0 ? t1 ? ... ? tn` equal an answer, in Java `int` arithmetic, plus the test
  helper that evaluates such an expression.
- **Chaocipher** (`chaocipher.dfy`): the Chaocipher encoder over two alphabets held in `char`
  arrays. It uses a linear search, a left rotation into a fresh array, and an in-place shift of the
  first half.
- **MorseMap** (`morse_map.dfy`): an immutable map from Morse patterns to characters. It walks a
  complete binary tree flattened in in-order: the root is at index 63, the dit subtree at 0..62 and
  the dah subtree at 64..126. The comments at `common/MorseMap.java:28` and `:45` call this layout a
  level-order traversal, but the index arithmetic of `translateMorse` is that of in-order. The keys
  and the entry set are built with configurable dit and dah characters.
- **MorseCode** (`morse_code.dfy`): translation of a transcript of space-separated Morse letters.
  A letter the map does not know is copied through unchanged.

`runtime.dfy` holds what every module shares:

- the two Java exceptions as an `Exception` datatype;
- `Result` and `Option`;
- 32-bit wrap-around (`Wrap32`);
- small `StringBuilder` and `HashSet` classes.

Exceptions become `Err` results. `null` results (`arithmeticSub`, `MorseMap.get`) become `None` or
`null`, as in the source.

## Model

| member | source | states |
|---|---|---|
| Runtime.Wrap32 | Recursion/ArithmeticSubstitution/solution/ArithmeticSubstitution.java:99-104 | Java `int` arithmetic: the result is an `int`, and a result already in range is unchanged |
| Runtime.Wrap32Congruent | Recursion/ArithmeticSubstitution/solution/ArithmeticSubstitution.java:99-104 | the wrapped value differs from the exact one by a multiple of 2^32 |
| Runtime.Wrap32Unique | Recursion/ArithmeticSubstitution/solution/ArithmeticSubstitution.java:99-104 | an in-range value congruent to x is Wrap32(x) |
| Runtime.StringBuilder.Append | Map/MorseCode/solution/MorseCode.java:102-110 | `append` adds the string at the end and changes nothing else |
| Runtime.HashSet.Add | common/MorseMap.java:133-135 | `add` inserts the element into the set |
| FreeListSpec.WellFormedFits | LinkedList/FreeList/solution/FreeList.java:67-71 | blocks inside an `int`-sized address space have `int` ends |
| FreeListSpec.EndsAtLeast | LinkedList/FreeList/solution/FreeList.java:65-70 | in a list of disjoint ascending blocks of at least one byte, block `k` ends at least `k + 1` bytes into the space |
| FreeListSpec.BlockCountBound | LinkedList/FreeList/solution/FreeList.java:65-70 | a well-formed list has at most `sizeBytes` blocks, so a `size` that counts them fits Java's `int` |
| FreeListSpec.FirstFit | LinkedList/FreeList/solution/FreeList.java:105-110 | the scan stops at the first block at least n long, and every block before it is shorter |
| FreeListSpec.FirstFitIs | LinkedList/FreeList/solution/FreeList.java:105-110 | any index with the first-fit property is where the scan stops |
| FreeListSpec.AllocateOutcome | LinkedList/FreeList/solution/FreeList.java:98-114 | allocate fails with IllegalArgument iff n <= 0 and with NoSuchElement iff every block is shorter than n; a failure changes nothing |
| FreeListSpec.AllocateIsFirstFit | LinkedList/FreeList/solution/FreeList.java:98-134 | a successful allocate returns the start of the first block that is long enough and keeps the blocks before it |
| FreeListSpec.AllocateSplits | LinkedList/FreeList/solution/FreeList.java:129-133 | a longer block loses n bytes from its front; the count and all other blocks stay |
| FreeListSpec.AllocateExactFit | LinkedList/FreeList/solution/FreeList.java:116-128 | an exact fit drops the block (not at the head), empties a one-block list, and leaves a head block linked while the count drops |
| FreeListSpec.AllocatePreservesWellFormed | LinkedList/FreeList/solution/FreeList.java:98-134 | allocate keeps blocks disjoint, ordered, non-empty and inside the space |
| FreeListSpec.AllocateWithinSpace | LinkedList/FreeList/solution/FreeList.java:98-134 | the allocated range lies inside the address space |
| FreeListSpec.CoversAt | LinkedList/FreeList/solution/FreeList.java:221-228 | a byte is free iff some block holds it |
| FreeListSpec.AllocatedRangeNotFree | LinkedList/FreeList/solution/FreeList.java:98-134 | apart from the head-removal case, no allocated byte is still on the free list |
| FreeListSpec.HeadRemovalAllocatesTwice | LinkedList/FreeList/solution/FreeList.java:119-127 | an exact fit of the head block of a two-block list leaves the block listed, so the next allocate returns address 0 again |
| FreeListSpec.AllocateFixedKeepsInvariant | LinkedList/FreeList/solution/FreeList.java:98-134 | the corrected allocate keeps the list well formed, keeps `size` equal to the number of blocks, and never leaves an allocated byte free |
| FreeListSpec.AllocateAgreesWithFixed | LinkedList/FreeList/solution/FreeList.java:98-134 | the code as written and the corrected allocate agree everywhere except on the head exact fit |
| FreeListSpec.InsertionPoint | LinkedList/FreeList/solution/FreeList.java:157-162 | the scan of free stops after exactly the blocks that start below the address |
| FreeListSpec.FreeOutcome | LinkedList/FreeList/solution/FreeList.java:147-166 | without overflow, free fails iff n <= 0, the range leaves the space, or some free block starts inside the range; a failure changes nothing |
| FreeListSpec.FreeInserts | LinkedList/FreeList/solution/FreeList.java:167-175 | a successful free inserts the block between the blocks below and above its start and adds one to `size` |
| FreeListSpec.FreePreservesWellFormed | LinkedList/FreeList/solution/FreeList.java:147-176 | when the range does not start inside the block before it, free keeps the list well formed and `size` equal to the number of blocks |
| FreeListSpec.FreeInsideFreeBlockAccepted | LinkedList/FreeList/solution/FreeList.java:164-166 | freeing bytes inside an already free block that starts below them is accepted and breaks the ordering |
| FreeListSpec.FreeAtFreeBlockStartRejected | LinkedList/FreeList/solution/FreeList.java:164-166 | freeing a range that starts where a free block starts is refused |
| FreeListSpec.FreeOverflowAccepted | LinkedList/FreeList/solution/FreeList.java:152 | a range whose end overflows `int` passes the bounds check and is inserted |
| FreeListSpec.FreeCheckedPreservesWellFormed | LinkedList/FreeList/solution/FreeList.java:147-176 | the corrected free keeps the list well formed and `size` equal to the number of blocks for every argument |
| FreeListSpec.FreeCheckedOutcome | LinkedList/FreeList/solution/FreeList.java:138-146 | the corrected free refuses exactly bad sizes, ranges outside the space and ranges sharing a byte with a free block |
| FreeListSpec.FreeCheckedRefusesOverlap | LinkedList/FreeList/solution/FreeList.java:147-166 | when the range shares a byte with any free block, the corrected free refuses it, whichever side of the insertion point that block lies on |
| FreeListSpec.FreeCheckedAcceptsDisjoint | LinkedList/FreeList/solution/FreeList.java:147-176 | a positive range inside the space that shares no byte with a free block is accepted by the corrected free |
| FreeListSpec.FreeAgreesWithChecked | LinkedList/FreeList/solution/FreeList.java:147-176 | the code as written equals the corrected free when the end does not overflow and no lower block reaches the start |
| FreeListSpec.InsertKeepsInvariant | LinkedList/FreeList/solution/FreeList.java:167-175 | a block that fits between its neighbours can be inserted without breaking the invariant |
| FreeListSpec.RemoveKeepsInvariant | LinkedList/FreeList/solution/FreeList.java:119-121 | removing any block keeps the invariant |
| FreeListSpec.SingleBytes | LinkedList/FreeList/solution/FreeList.java:385-391 | the one-byte blocks (0,1) ... (k-1,1) |
| FreeListSpec.FreeBytesCount | LinkedList/FreeList/solution/FreeList.java:385-391 | freeing bytes 0..k-1 one at a time gives k one-byte blocks and `size` k |
| FreeListSpec.FreeAllSingleBytes | LinkedList/FreeList/solution/FreeList.java:385-391 | freeing all 1024 bytes one by one gives `size` 1024 |
| FreeListSpec.AllocationExamples | LinkedList/FreeList/solution/FreeList.java:276-311 | the allocate tests: the whole space, out of memory, half then quarters, and a negative size |
| FreeListSpec.FreeRejectionExamples | LinkedList/FreeList/solution/FreeList.java:313-352 | the refused frees: zero size, negative address, address or length outside the space, already free memory |
| FreeListSpec.FreeAcceptanceExamples | LinkedList/FreeList/solution/FreeList.java:354-381 | the accepted frees: the whole space, a middle block (twice: the second refused), two blocks in order |
| FreeListSpec.InsertionPointIs | LinkedList/FreeList/solution/FreeList.java:157-162 | any index with the insertion-point property is where the scan stops |
| FreeListSpec.FreeSucceedsAt | LinkedList/FreeList/solution/FreeList.java:147-176 | the exact result of a free that passes every check |
| FreeListSpec.AllocateThenFreeExact | LinkedList/FreeList/solution/FreeList.java:98-176 | freeing what an exact-fit allocate returned restores the list |
| FreeListSpec.FreeRestoresUnlinked | LinkedList/FreeList/solution/FreeList.java:147-176 | freeing a block that was unlinked puts it back where it was |
| FreeListSpec.UnlinkInsertionPoint | LinkedList/FreeList/solution/FreeList.java:157-162 | after unlinking block i, free's scan for its address stops at i |
| FreeListSpec.AllocateThenFreeSplit | LinkedList/FreeList/solution/FreeList.java:98-176 | freeing what a splitting allocate returned succeeds, keeps the invariant and frees exactly the bytes that were free before |
| FreeListSpec.SplitRoundTrip | LinkedList/FreeList/solution/FreeList.java:147-176 | freeing the front `n` bytes cut off a block reinserts them just before the rest of that block, giving a well-formed list with the same free bytes and one more block |
| FreeListSpec.AllocateAt | LinkedList/FreeList/solution/FreeList.java:98-134 | the result of allocate in each of its cases |
| FreeListSpec.AllocateSplitIs | LinkedList/FreeList/solution/FreeList.java:129-133 | without overflow, the shrunk block starts n bytes later |
| FreeListSpec.SplitInsertionPoint | LinkedList/FreeList/solution/FreeList.java:157-162 | after shrinking block i, free's scan for its old start stops at i |
| FreeListSpec.StartsBelow | LinkedList/FreeList/solution/FreeList.java:157-162 | in a well-formed list every earlier block starts lower |
| FreeListSpec.ReinsertRemoved | LinkedList/FreeList/solution/FreeList.java:167-175 | inserting a removed block back at its index restores the list |
| FreeListSpec.ReinsertSplit | LinkedList/FreeList/solution/FreeList.java:167-175 | inserting a block before a shrunk one gives the two pieces in order |
| FreeListSpec.SplitKeepsInvariant | LinkedList/FreeList/solution/FreeList.java:129-133 | splitting a block into its two pieces keeps the invariant |
| FreeListSpec.SplitKeepsCoverage | LinkedList/FreeList/solution/FreeList.java:129-133 | splitting a block frees exactly the same bytes |
| FreeListSpec.MergeExact | LinkedList/FreeList/solution/FreeList.java:189-192 | merging contiguous blocks without overflow gives their union |
| FreeListSpec.CompactStep | LinkedList/FreeList/solution/FreeList.java:188-198 | one loop step of compact, merge or restart, on the specification |
| FreeListSpec.CompactFromShape | LinkedList/FreeList/solution/FreeList.java:181-202 | compaction never adds blocks and keeps the first start |
| FreeListSpec.CompactFromNoContiguous | LinkedList/FreeList/solution/FreeList.java:181-202 | after compaction no neighbours are contiguous |
| FreeListSpec.CompactLeavesNoContiguousPair | LinkedList/FreeList/solution/FreeList.java:181-202 | compact leaves no two contiguous neighbours |
| FreeListSpec.CompactFromTotal | LinkedList/FreeList/solution/FreeList.java:181-202 | compaction keeps the total free length |
| FreeListSpec.CompactPreservesTotal | LinkedList/FreeList/solution/FreeList.java:181-202 | compact keeps the number of free bytes |
| FreeListSpec.CompactFromCovers | LinkedList/FreeList/solution/FreeList.java:181-202 | compaction frees exactly the same bytes |
| FreeListSpec.CompactPreservesCoverage | LinkedList/FreeList/solution/FreeList.java:181-202 | a byte is free after compact iff it was free before |
| FreeListSpec.CompactFromWellFormed | LinkedList/FreeList/solution/FreeList.java:181-202 | compaction keeps the invariant |
| FreeListSpec.TailWellFormed | LinkedList/FreeList/solution/FreeList.java:181-202 | the tail of a well-formed list is well formed and lies above its head |
| FreeListSpec.CompactPreservesWellFormed | LinkedList/FreeList/solution/FreeList.java:181-202 | compact keeps the invariant and never adds blocks |
| FreeListSpec.CompactFromFixpoint | LinkedList/FreeList/solution/FreeList.java:181-202 | a list with no contiguous neighbours is left as it is |
| FreeListSpec.CompactIdempotent | LinkedList/FreeList/solution/FreeList.java:181-202 | compacting twice is compacting once |
| FreeListSpec.CoversFrom | LinkedList/FreeList/solution/FreeList.java:181-202 | no free byte lies below the first block |
| FreeListSpec.CompactTiling | LinkedList/FreeList/solution/FreeList.java:181-202 | blocks that tile the whole space compact into the single block (0, sizeBytes) |
| FreeListSpec.CompactDescriptionExample | LinkedList/FreeList/solution/FreeList.java:458-470 | the first description example |
| FreeListSpec.CompactLongRunExample | LinkedList/FreeList/solution/FreeList.java:472-483 | the second description example |
| FreeListSpec.CompactWholeListExample | LinkedList/FreeList/solution/FreeList.java:485-495 | the third description example |
| FreeListSpec.CompactTwoPairsExample | LinkedList/FreeList/solution/FreeList.java:446-456 | two separate contiguous ranges |
| FreeListSpec.CompactSmallExamples | LinkedList/FreeList/solution/FreeList.java:409-444 | no block, one block, two separate blocks, two contiguous halves |
| FreeListSpec.CompactSingleBytes | LinkedList/FreeList/solution/FreeList.java:497-506 | after freeing every byte one at a time, compact leaves one block over the whole space |
| FreeLists.FLNode.constructor | LinkedList/FreeList/solution/FreeList.java:236-240 | a node holds the given address, length and successor |
| FreeLists.LinkedRemove | LinkedList/FreeList/solution/FreeList.java:119-121 | bypassing a node leaves a linked chain without it |
| FreeLists.LinkedInsert | LinkedList/FreeList/solution/FreeList.java:167-175 | linking a new node after its predecessor gives a linked chain with it |
| FreeLists.FreeList.constructor | LinkedList/FreeList/solution/FreeList.java:79-86 | a new list holds one free block over the whole space and `size` 1 |
| FreeLists.FreeList.Create | LinkedList/FreeList/solution/FreeList.java:79-86 | the constructor fails with IllegalArgument iff numBytes <= 0, and otherwise builds the one-block list |
| FreeLists.FreeList.FindFit | LinkedList/FreeList/solution/FreeList.java:104-110 | the traversal stops at the first-fit node and its predecessor |
| FreeLists.FreeList.Unlink | LinkedList/FreeList/solution/FreeList.java:119-121 | bypassing node i removes exactly block i |
| FreeLists.FreeList.Clear | LinkedList/FreeList/solution/FreeList.java:124-127 | `first = null` empties the list and leaves the count |
| FreeLists.FreeList.Allocate | LinkedList/FreeList/solution/FreeList.java:98-134 | the result, the new blocks and the new `size` are those of FreeListSpec.Allocate on the old ones |
| FreeLists.FreeList.TakeWhole | LinkedList/FreeList/solution/FreeList.java:116-128 | the exact-fit branch: the new blocks and size, head case included |
| FreeLists.FreeList.Shrink | LinkedList/FreeList/solution/FreeList.java:129-133 | the split branch: block i starts n bytes later and is n bytes shorter |
| FreeLists.FreeList.FindInsertionPoint | LinkedList/FreeList/solution/FreeList.java:156-162 | the traversal stops at the insertion point and its predecessor |
| FreeLists.FreeList.Free | LinkedList/FreeList/solution/FreeList.java:147-176 | the result, the new blocks and the new `size` are those of FreeListSpec.Free on the old ones |
| FreeLists.FreeList.LinkIn | LinkedList/FreeList/solution/FreeList.java:167-175 | a fresh node is linked at the insertion point and `size` grows by one |
| FreeLists.FreeList.Splice | LinkedList/FreeList/solution/FreeList.java:167-173 | the new node is first or follows its predecessor, and the chain stays linked |
| FreeLists.FreeList.Compact | LinkedList/FreeList/solution/FreeList.java:181-202 | the new blocks are Compacted(old blocks) and `size` drops by the number of merged blocks |
| FreeLists.FreeList.MergeStep | LinkedList/FreeList/solution/FreeList.java:189-197 | one loop iteration keeps the loop invariant and counts each merge |
| FreeLists.FreeList.MergeRuns | LinkedList/FreeList/solution/FreeList.java:187-198 | the loop ends with the merged blocks as the kept nodes and `size` lowered once per merge |
| FreeLists.Absorb | LinkedList/FreeList/solution/FreeList.java:189-192 | merging the current node into the run keeps the loop invariant |
| FreeLists.Relink | LinkedList/FreeList/solution/FreeList.java:193-196 | starting a new run keeps the loop invariant |
| ArithmeticSubstitution.SearchSound | Recursion/ArithmeticSubstitution/solution/ArithmeticSubstitution.java:89-105 | a solution the search returns has one operator per remaining term and evaluates to the answer |
| ArithmeticSubstitution.SearchComplete | Recursion/ArithmeticSubstitution/solution/ArithmeticSubstitution.java:89-105 | if any operators reach the answer, the search finds a solution |
| ArithmeticSubstitution.SearchFirst | Recursion/ArithmeticSubstitution/solution/ArithmeticSubstitution.java:89-105 | the solution found is the first in the order that tries addition before subtraction |
| ArithmeticSubstitution.SubstituteCorrect | Recursion/ArithmeticSubstitution/solution/ArithmeticSubstitution.java:73-77 | arithmeticSub succeeds iff some operators reach the answer, and then returns the least such in that order |
| ArithmeticSubstitution.SingleTerm | Recursion/ArithmeticSubstitution/solution/ArithmeticSubstitution.java:147-157 | one term: no operators if it is the answer, else no solution |
| ArithmeticSubstitution.MinMaxWrap | Recursion/ArithmeticSubstitution/solution/ArithmeticSubstitution.java:179-191 | MIN_VALUE and MAX_VALUE reach -1 by addition and 1 by wrapping subtraction |
| ArithmeticSubstitution.TwoTermExamples | Recursion/ArithmeticSubstitution/solution/ArithmeticSubstitution.java:159-177 | the two-term tests |
| ArithmeticSubstitution.ThreeTermExamples | Recursion/ArithmeticSubstitution/solution/ArithmeticSubstitution.java:193-219 | the three-term tests |
| ArithmeticSubstitution.DescriptionExamples | Recursion/ArithmeticSubstitution/solution/ArithmeticSubstitution.java:221-240 | the examples of the problem description |
| ArithmeticSubstitution.DoArithmeticSub | Recursion/ArithmeticSubstitution/solution/ArithmeticSubstitution.java:89-105 | success iff the search from this term has a solution; on success the operators from here on are that solution; earlier operators stay |
| ArithmeticSubstitution.ArithmeticSub | Recursion/ArithmeticSubstitution/solution/ArithmeticSubstitution.java:73-77 | null iff there is no solution, else a fresh array holding the first solution |
| ArithmeticSubstitution.EvalExpression | Recursion/ArithmeticSubstitution/solution/ArithmeticSubstitution.java:128-145 | IllegalArgument iff there are no terms or the operator count is wrong, else the wrapped value of the expression |
| Chaocipher.Find | NativeArray/Chaocipher/solution/Chaocipher.java:83-90 | the first index holding the character, or -1 iff it is absent |
| Chaocipher.Rotated | NativeArray/Chaocipher/solution/Chaocipher.java:98-114 | a rotation keeps the length |
| Chaocipher.RotatedMod | NativeArray/Chaocipher/solution/Chaocipher.java:98-114 | rotating by `places` is rotating by `places % length`: the suffix from there, then the prefix |
| Chaocipher.RotatedAt | NativeArray/Chaocipher/solution/Chaocipher.java:98-114 | element i of the rotation is element (i + places) mod length of the source |
| Chaocipher.RotatedPermutes | NativeArray/Chaocipher/solution/Chaocipher.java:98-114 | a rotation is a permutation |
| Chaocipher.ShiftedAt | NativeArray/Chaocipher/solution/Chaocipher.java:123-132 | the shift moves start+1..nadir one place left, puts the extracted element at the nadir and keeps the rest |
| Chaocipher.ShiftedFrom | NativeArray/Chaocipher/solution/Chaocipher.java:123-132 | any sequence with those elements is the shift |
| Chaocipher.ShiftedPermutes | NativeArray/Chaocipher/solution/Chaocipher.java:123-132 | when the start is within the first half, the shift is a permutation |
| Chaocipher.ShiftDuplicatesAtThree | NativeArray/Chaocipher/solution/Chaocipher.java:123-132 | with three letters, shifting from index 2 copies a letter and loses one |
| Chaocipher.PermuteKeepsAlphabets | NativeArray/Chaocipher/solution/Chaocipher.java:64-69 | with at least four letters, one encoding step permutes both alphabets |
| Chaocipher.EncodeStep | NativeArray/Chaocipher/solution/Chaocipher.java:50-70 | one loop iteration: fail on a letter missing from the right alphabet, else emit the left letter and continue with the permuted alphabets |
| Chaocipher.PrependNothing | NativeArray/Chaocipher/solution/Chaocipher.java:49 | the empty prefix is neutral |
| Chaocipher.EncodeLength | NativeArray/Chaocipher/solution/Chaocipher.java:48-73 | a ciphertext has one letter per plaintext letter, the first taken from the left alphabet at the plaintext letter's index |
| Chaocipher.EncodeFailsIff | NativeArray/Chaocipher/solution/Chaocipher.java:48-73 | with at least four letters, encode fails with IllegalArgument iff some plaintext letter is not in the right alphabet |
| Chaocipher.ThreeLetterEncodeRejects | NativeArray/Chaocipher/solution/Chaocipher.java:48-73 | with three letters, "AC" is rejected over the right alphabet "ABC" although both letters are in it |
| Chaocipher.PermuteFour | NativeArray/Chaocipher/solution/Chaocipher.java:64-69 | the permutation of two four-letter alphabets, letter by letter |
| Chaocipher.RotatedFour | NativeArray/Chaocipher/solution/Chaocipher.java:98-114 | the rotation of four letters |
| Chaocipher.ShiftedFour | NativeArray/Chaocipher/solution/Chaocipher.java:123-132 | the shifts of four letters from index 1 and 2 |
| Chaocipher.FourLetterStep | NativeArray/Chaocipher/solution/Chaocipher.java:50-70 | one encoding step over four-letter alphabets |
| Chaocipher.SmallAlphabetsFirstStep | NativeArray/Chaocipher/solution/Chaocipher.java:180-183 | the first step of the small-alphabets test |
| Chaocipher.IndexOf | NativeArray/Chaocipher/solution/Chaocipher.java:83-90 | the loop returns Find of the array |
| Chaocipher.RotateLeft | NativeArray/Chaocipher/solution/Chaocipher.java:98-114 | a fresh array holding the rotation |
| Chaocipher.ShiftFirstHalf | NativeArray/Chaocipher/solution/Chaocipher.java:123-132 | the array becomes the shift of its old contents |
| Chaocipher.PermuteAlphabets | NativeArray/Chaocipher/solution/Chaocipher.java:64-69 | two fresh arrays holding the permuted alphabets |
| Chaocipher.EncodeCharacter | NativeArray/Chaocipher/solution/Chaocipher.java:50-70 | one iteration of the loop of encode against EncodeStep |
| Chaocipher.EncodeText | NativeArray/Chaocipher/solution/Chaocipher.java:48-73 | the method returns Encode of the alphabets' contents, the exception included |
| MorseMaps.RootWithin | common/MorseMap.java:48-57 | the tree has 127 nodes; the walk starts at its root, six levels above the leaves |
| MorseMaps.WithinChildren | common/MorseMap.java:76-88 | a dit or a dah moves to a child subtree, still inside the tree |
| MorseMaps.MorseMap.Walk | common/MorseMap.java:74-89 | the walk fails iff the pattern holds a character that is neither dit nor dah |
| MorseMaps.MorseMap.WalkInTree | common/MorseMap.java:74-91 | a walk within six levels ends inside the array |
| MorseMaps.MorseMap.Translate | common/MorseMap.java:65-92 | an empty pattern, one longer than six, or one with a foreign character translates to INV |
| MorseMaps.MorseMap.Lookup | common/MorseMap.java:153-162 | `get`: no value iff the translation is INV, else the translation |
| MorseMaps.MorseMap.TranslateMorse | common/MorseMap.java:65-92 | the loop computes Translate |
| MorseMaps.MorseMap.ContainsKey | common/MorseMap.java:144-151 | true iff the pattern has a translation |
| MorseMaps.MorseMap.Get | common/MorseMap.java:153-162 | the translation, or none for INV |
| MorseMaps.MorseMap.SubtreeAdded | common/MorseMap.java:130-142 | the node's entry followed by both subtrees is the subtree's entry set |
| MorseMaps.MorseMap.GetEntries | common/MorseMap.java:130-142 | the set gains exactly the entries of the subtree |
| MorseMaps.MorseMap.EntrySet | common/MorseMap.java:118-127 | the entry set of the whole tree |
| MorseMaps.MorseMap.SubtreeComplete | common/MorseMap.java:130-142 | every pattern the walk maps to a letter is in the subtree's entries |
| MorseMaps.MorseMap.SubtreeSound | common/MorseMap.java:130-142 | every entry of a subtree is its prefix plus a pattern that walks to that letter |
| MorseMaps.EntriesSound | common/MorseMap.java:118-162 | every entry agrees with `get` |
| MorseMaps.EntriesComplete | common/MorseMap.java:118-162 | every key `get` knows is in the entry set |
| MorseMaps.EntriesAgreeWithLookup | common/MorseMap.java:118-162 | a pair is an entry iff `get` maps its key to its value |
| MorseMaps.Recode | common/MorseMap.java:33-34 | rewriting a pattern symbol by symbol from one pair of dit/dah characters to another |
| MorseMaps.WalkRecoded | common/MorseMap.java:74-89 | the walk depends only on which symbols are dits and which are dahs |
| MorseMaps.TranslateRecoded | common/MorseMap.java:65-92 | maps with other dit and dah characters translate recoded patterns the same way |
| MorseMaps.OneSymbolLetters | common/MorseMap.java:48-57 | "." is E, "-" is T |
| MorseMaps.TwoSymbolLetters | common/MorseMap.java:48-57 | "..", ".-", "-.", "--" are I, A, N, M |
| MorseMaps.ThreeSymbolLetters | common/MorseMap.java:48-57 | "...", "---", "..-" are S, O, U |
| MorseMaps.FourSymbolLetters | common/MorseMap.java:48-57 | "....", ".-..", "-.-." are H, L, C |
| MorseMaps.ForeignPatterns | common/MorseMap.java:65-92 | the empty pattern and Latin letters have no translation |
| MorseMaps.UnknownPatterns | common/MorseMap.java:65-92 | a nine-symbol pattern and "..-.-." have no translation |
| MorseMaps.EmptyNodePattern | common/MorseMap.java:48-57 | ".-.-" reaches an empty node |
| MorseMaps.Create | common/MorseMap.java:101-108 | the constructor fails with IllegalArgument iff dit equals dah |
| MorseMaps.Default | common/MorseMap.java:114-116 | the default map is the constructor applied to '.' and '-' |
| MorseCode.Push | Map/MorseCode/solution/MorseCode.java:78-87 | a space closes the current letter and opens an empty one; another character extends the current letter |
| MorseCode.Tokens | Map/MorseCode/solution/MorseCode.java:73-94 | a transcript has at least one (possibly empty) letter |
| MorseCode.AppendLetter | Map/MorseCode/solution/MorseCode.java:102-110 | the translation is appended if the map knows the letter, else the letter itself |
| MorseCode.TranslateMorse | Map/MorseCode/solution/MorseCode.java:73-94 | the loop returns Decode of the transcript |
| MorseCode.TokensHaveNoSpace | Map/MorseCode/solution/MorseCode.java:78-87 | no letter contains a space |
| MorseCode.JoinTokens | Map/MorseCode/solution/MorseCode.java:73-94 | the letters joined by single spaces give back the transcript |
| MorseCode.WordTokens | Map/MorseCode/solution/MorseCode.java:90-93 | a transcript without spaces is one letter |
| MorseCode.TokensJoin | Map/MorseCode/solution/MorseCode.java:73-94 | letters without spaces, joined by spaces, split back into the same letters |
| MorseCode.TokensSplit | Map/MorseCode/solution/MorseCode.java:78-87 | the letters of two transcripts joined by a space are the letters of each |
| MorseCode.TokensSnoc | Map/MorseCode/solution/MorseCode.java:78-87 | the letters are read one character at a time |
| MorseCode.PushAppend | Map/MorseCode/solution/MorseCode.java:78-87 | a new character only changes the letters after the last space |
| MorseCode.DecodedSnoc | Map/MorseCode/solution/MorseCode.java:102-110 | the translation grows one letter at a time |
| MorseCode.DecodedConcat | Map/MorseCode/solution/MorseCode.java:73-94 | translation goes letter by letter |
| MorseCode.DecodeSplit | Map/MorseCode/solution/MorseCode.java:73-94 | the translation of two transcripts joined by a space is their translations side by side |
| MorseCode.DecodeWord | Map/MorseCode/solution/MorseCode.java:90-93 | a transcript without spaces translates as one letter |
| MorseCode.DecodeLeadingWord | Map/MorseCode/solution/MorseCode.java:80-84 | a leading letter is translated before the rest |
| MorseCode.ForeignTranscript | Map/MorseCode/solution/MorseCode.java:106-109 | a transcript without spaces holding a foreign character is copied unchanged |
| MorseCode.DecodeEmpty | Map/MorseCode/solution/MorseCode.java:118-122 | the empty transcript translates to the empty text |
| MorseCode.OneSymbolTranscripts | Map/MorseCode/solution/MorseCode.java:124-128 | "." and "-" are "E" and "T" |
| MorseCode.LatinTranscript | Map/MorseCode/solution/MorseCode.java:129 | "X" stays "X" |
| MorseCode.TwoSymbolTranscripts | Map/MorseCode/solution/MorseCode.java:132-138 | the two-symbol letters |
| MorseCode.LongerLatinTranscripts | Map/MorseCode/solution/MorseCode.java:139-148 | "HI" and "CAT" stay as they are |
| MorseCode.DistressCallLetters | Map/MorseCode/solution/MorseCode.java:144-146 | "..." is S and "---" is O |
| MorseCode.DistressCall | Map/MorseCode/solution/MorseCode.java:151-155 | "... --- ..." is "SOS" |
| MorseCode.PlainTranscript | Map/MorseCode/solution/MorseCode.java:157-161 | "..- - -.-. ..." is "UTCS" |
| MorseCode.UnknownLetterKept | Map/MorseCode/solution/MorseCode.java:163-167 | "... ..-.-. ..." is "S..-.-.S" |
| MorseCode.GarbledTranscript | Map/MorseCode/solution/MorseCode.java:169-173 | ".... . .-.. .-.- ---" is "HEL.-.-O" |
| MorseCode.MixedTranscript | Map/MorseCode/solution/MorseCode.java:175-179 | ".... . L .-.. O" is "HELLO" |
| MorseCode.UnbrokenTranscript | Map/MorseCode/solution/MorseCode.java:181-185 | "...---..." stays as it is |
| MorseCode.RecodedTranscript | Map/MorseCode/solution/MorseCode.java:187-191 | with '@' and '_', "@@_ _ _@_@ @@@" is "UTCS" |
| MorseCode.RecodedLetter | Map/MorseCode/solution/MorseCode.java:187-191 | a pattern over '@' and '_' has the letter of the same pattern over '.' and '-' |

## Left out

- Console output is not modelled: the `printf` trace in `Chaocipher.encode` and the test harness's `println`.
- The JUnit harness is left out. Its fixed tests appear as example lemmas.
- The random Chaocipher alphabets (Fisher-Yates shuffle over `java.util.Random`) and the arithmetic random tests are left out, because they use randomness.
- The long Chaocipher tests (description, paper, same alphabets, different scripts) and the 100-round test are not restated. They compare the solution with itself, and only the first step of the small-alphabets test is worked out (`SmallAlphabetsFirstStep`).
- The Morse tests "Hello, world!", URL and pangram are not restated. They are long literal transcripts and add nothing beyond the letter-by-letter lemmas.
- `FreeList.toString` and `FLNode.toString` are left out: they only format output.
- MorseMap's `cachedEntries` cache and `Collections.unmodifiableSet` are left out. `EntrySet` builds the set on each call, and the result is the same.
- MorseMap's `instanceof String` checks on `containsKey` and `get` are left out, because Dafny's keys are strings by type.
- `MorseMap` extending `AbstractMap` is left out. Only its own methods are modelled.
- The map's entries are a mathematical set of pairs, not Java `Map.Entry` objects.
- MorseMaps.MorseMap.GetEntries takes the tree as a parameter (always `MorseTree`), so that its proof is about any array of that size.
- The map's characters are Dafny `char`s, and `INV` is the character 0, as in the source. `get` returns `Option<char>` in place of a nullable `Character`.
- The FreeList constructor has a `requires numBytes > 0`. The throwing path of `new FreeList(numBytes)` is `FreeLists.FreeList.Create`, which returns `Err(IllegalArgument)`.
- Exceptions are results, not control flow. A Java `null` array slot or argument cannot arise, because every argument is non-null by type.
- FreeListSpec.Free: the as-written `free` computes `start + n` with 32-bit wrap-around, so its contracts about a successful call (FreeOutcome, FreePreservesWellFormed) assume the sum does not overflow. The overflow case is shown separately (FreeOverflowAccepted).
- FreeListSpec.Allocate, FreeListSpec.Free and FreeLists.FreeList.size: the `size` counter is an unbounded integer, while Java's `size++` and `size--` wrap around at 32 bits. On a list whose `size` counts its blocks this cannot matter, because a well-formed list has at most `sizeBytes` <= Integer.MAX_VALUE blocks (FreeListSpec.BlockCountBound). After the head-removal defect, `size` falls behind the blocks and repeated allocations can drive it below zero. In Java it would wrap from Integer.MIN_VALUE to Integer.MAX_VALUE and eventually reach 0 again, at which point `allocate` clears the list. The model keeps counting down and never clears it.
- Java strings and `char[]` alphabets are sequences of UTF-16 code units, and `charAt` and `toCharArray` split a character outside the Basic Multilingual Plane into two surrogates. The model's strings and alphabets are sequences of Dafny `char`s, which are Unicode scalar values. Such a character therefore counts as one position in the model and two in Java, and a lone surrogate cannot be written at all. This applies to Chaocipher alphabets and texts, Morse patterns and transcripts, and the MorseMap tree.
- Chaocipher.PermuteKeepsAlphabets and Chaocipher.EncodeFailsIff require alphabets of at least four letters, although the source allows three (see Findings).

## Findings

| source | as written | input that shows it | evidently intended | confidence | as-written member | corrected member |
|---|---|---|---|---|---|---|
| LinkedList/FreeList/solution/FreeList.java:119-127 | an exact fit of the head block with other blocks behind it decrements `size` but leaves `first` pointing at the block | a 30-byte list with free blocks (0,10), (20,10): `allocate(10)` returns 0, and `allocate(10)` again returns 0 | the head block is unlinked (`first = freeNode.next`) | not executed | FreeListSpec.HeadRemovalAllocatesTwice | FreeListSpec.AllocateFixedKeepsInvariant |
| LinkedList/FreeList/solution/FreeList.java:164-166 | only the block after the insertion point is checked for overlap | free block (0,100) in a 1024-byte list: `free(10, 5)` is accepted and inserts (10,5) after (0,100) | a range reaching into the previous free block is refused as already free | not executed | FreeListSpec.FreeInsideFreeBlockAccepted | FreeListSpec.FreeCheckedOutcome |
| LinkedList/FreeList/solution/FreeList.java:152 | `startAddress + numBytes` can overflow `int` and pass the bound check | empty list of 1024 bytes: `free(Integer.MAX_VALUE, 1)` is accepted | a range beyond the address space is refused | not executed | FreeListSpec.FreeOverflowAccepted | FreeListSpec.FreeCheckedPreservesWellFormed |
| NativeArray/Chaocipher/solution/Chaocipher.java:123-132 | `shiftFirstHalf(right, 2)` with three letters has start 2 beyond the nadir 1 and copies a letter into the nadir | left "XYZ", right "ABC": `encode("AC", ...)` throws though 'C' is in the right alphabet | alphabets accepted by the documented bound keep all their letters | not executed | Chaocipher.ThreeLetterEncodeRejects | Chaocipher.EncodeFailsIff |
