# A C23 container and algorithm library, modelled in Dafny

The library keeps elems of one size in spans, vecs, deques, lists, hash maps, bitsets and heaps, orders them by a comparator,
and takes its memory from allocators that may refuse. This project models the parts that have something to prove:

- **Span algorithms.** Introsort with its ninther pivot, three-way split, insertion leaf and heapsort fallback; quickselect and
  partial sort; bottom-up stable sort; the three ways of merging two runs; binary search; heaps; lexicographic permutations;
  rotation, partitioning and shuffling.
- **The generator.** SplitMix64 seeding, the xoshiro256++ step with its first words as known answers, bounded draws without bias,
  and the integer hash mixer.
- **Containers.** The doubly linked list, the chained hash map, the ring buffer, the bitset and the priority queue.
- **Allocators.** The arena and the pool, the rounding to powers of two under both, and a ledger of what an allocator has lent.

How to read it. A comparator is any total preorder (`Ordering.IsOrder`), so elems that compare equal may still be different
values and stability says something; `Ordering.StableSorted` is the one stable sort, and the stable algorithms are proved equal to
it. A writable span is a range `[lo, hi)` of an array; ghost parameters called `h`, `h0` or `ns` are the sequence a method works
on, and its contract relates that sequence before to the sequence after. Objects that the library changes in place are classes with
ghost fields that hold their abstract value, and `Valid()` ties the two. An allocator's answer is a parameter: `granted` for one
request, `grants` for the number of requests it still answers, `grant` for its answer to each size. Integers are unbounded except
where the width matters: words of the generator are `bv64`, bits and masks are taken of numbers below 2^64, and sizes are compared
with `SizeMax()` wherever the library checks for overflow. Ghost results called `cost`, `swaps` and `moves` count the comparisons,
swaps and elem moves a method makes, and are bounded from both sides where that says something: the sorts of spans and lists, and
nth_elem, make at least n - 1 comparisons, a merge at least as many as the shorter run has elems, a search of anything at least one.

Who owns what. `Allocators.Allocator.lent` is the set of blocks an allocator has given out and not got back; only a block that is
out can be handed back. A container's `Blocks()` are the blocks it holds, `Owned()` says that all of them are out, and `Others()`
is what its allocator has lent to anybody else. Every operation that asks for memory or hands it back keeps `Owned()` and leaves
`Others()` as it was, on refusals too: nothing leaks, nothing is handed back twice, nothing of another owner goes.

Two remarks on what the code does. `tda_hmap_move_assign` within one allocator swaps the two headers, so the emptied source is left
with the hasher and equality of the target; between two allocators it keeps its own. And a refused node in `tda_hmap_insert` may
come after the buckets have grown: the entries are as they were, the number of buckets is not.

## Model

| member | source | states |
|---|---|---|
| `Ordering.StableSortedIff` | src/algo/sort.c:97-141 | A sequence is the stable sort of another exactly when it is sorted and keeps every class of equal elems in its order: the one answer a stable sort may give |
| `Ordering.StableSortUnique` | src/algo/sort.c:97-141 | Two sorted sequences with the same classes in the same order are the same sequence, so stability leaves nothing open |
| `Ordering.ByNumber` | include/tda/core/cmp.h:29-32 | Comparing by a number is such an order, with elems that are equal in it and yet different |
| `Ordering.MergeIsStableSort` | src/algo/merge.c:20-52 | Merging two sorted runs, left first on a tie, is stably sorting their concatenation |
| `Ordering.MergeBackLeft` | src/algo/merge.c:181-208 | Read from the back, a left elem strictly greater than the last right one ends the merge |
| `Ordering.MergeBackRight` | src/algo/merge.c:181-208 | Read from the back, the last right elem ends the merge on a tie |
| `Search.LowerBound` | src/algo/search.c:193-212 | On a sorted span, everything before the answer is less than the key and nothing from it on is, after at most log2 n + 1 comparisons |
| `Search.UpperBound` | src/algo/search.c:214-233 | On a sorted span, everything from the answer on is greater than the key and nothing before it is, after at most log2 n + 1 comparisons |
| `Search.BinarySearch` | src/algo/search.c:235-252 | Answers whether some elem equals the key, and then the least position of one; one comparison more than a lower bound |
| `Search.EqualRange` | src/algo/search.c:254-267 | On a sorted span, a position is in the range answered exactly when its elem equals the key; the second search is of the rest behind the first answer alone |
| `Search.SameIsSlice` | src/algo/search.c:254-267 | That range is the whole class of the key, in its order |
| `Counting.HalvingsIsLog` | src/algo/search.c:193-212 | The halvings a range of n elems can take, one comparison each, are log2 n + 1 |
| `Counting.Log2Is` | src/algo/sort.c:304-310 | log2 n is the exponent of the last power of two that n reaches |
| `Counting.NLogNOf` | src/algo/sort.c:304-310 | n (log2 n + 1) is n times one more than the exponent of that power of two |
| `Permute.Reverse` | src/algo/permute.c:16-30 | The span back to front in n / 2 swaps, and nothing outside it touched |
| `Permute.RotateIsThreeReversals` | src/algo/permute.c:32-47 | Reversing both halves and then the whole trades the halves for any lengths |
| `Permute.Rotate` | src/algo/permute.c:32-47 | The part behind mid comes first, the part before it second, each in its order, in at most n swaps |
| `Merging.SpanMerge` | src/algo/merge.c:20-52 | dst holds the merge of the two runs, left first on a tie, after at most n comparisons; nothing else is written. dst need only be apart from the sources, and may lie in the same array |
| `Merging.MergeBuffered` | src/algo/merge.c:149-208 | With the shorter run parked, forward or backward, the span ends as the very same merge, in at most n comparisons |
| `Merging.MergeForward` | src/algo/merge.c:149-208 | The write position never overtakes the read position, the result is the merge, and each write costs at most one comparison |
| `Merging.MergeBackward` | src/algo/merge.c:181-208 | The same from the end of the span with the right run parked |
| `Merging.MergeSplit` | src/algo/merge.c:96-136 | Cuts whose inner pieces do not interleave split one merge into two independent ones |
| `Merging.CutPoints` | src/algo/merge.c:96-136 | The cuts merge_in_place takes are such cuts, and halve the longer run |
| `Merging.CompareSplit` | src/algo/merge.c:96-136 | The comparison bound (n - 1) (log2 n + 1) of one merge in place pays for the binary search and for the bounds of both parts, wherever the cuts fall |
| `Merging.SwapSplit` | src/algo/merge.c:96-136 | The swap bound n (ceil(log2 left) + ceil(log2 right) + 1) pays for the rotation and for both parts |
| `Merging.MergeInPlace` | src/algo/merge.c:96-136 | By rotation alone the span ends as the same merge: at most ceil(log2 left) + ceil(log2 right) calls deep, (n - 1) (log2 n + 1) comparisons and n (ceil(log2 left) + ceil(log2 right) + 1) swaps |
| `Merging.InplaceMerge` | src/algo/merge.c:56-79 | The result is the stable sort of the two sorted runs whether or not a buffer is asked for, room for the shorter run, and whether or not it is granted: n comparisons and no swap with it, the bounds of the merge in place without |
| `Heaps.HeapTop` | src/algo/heap.c:17-25 | The root of a heap is not less than any elem of it |
| `Heaps.SiftDown` | src/algo/heap.c:105-131 | Restores the heap below idx by permuting the first len elems, in at most 2 comparisons for each level under idx; a heap is left as it is |
| `Heaps.MakeHeap` | src/algo/heap.c:17-25 | A heap of the same elems, in at most 2 n comparisons; what is a heap already is left as it is, equal elems in their places |
| `Heaps.HeightsAreFew` | src/algo/heap.c:17-25 | The heights of all nodes of a heap of n elems add up to at most n, so building from the bottom up is linear |
| `Heaps.PickChild` | src/algo/heap.c:105-131 | A child that is not less than the other, and the left one on a tie |
| `Heaps.PushHeap` | src/algo/heap.c:29-35 | The last elem is added to the heap before it, in at most log2 n comparisons; the elems are conserved, and one that is in place already stays there after one comparison |
| `Heaps.PopHeap` | src/algo/heap.c:37-48 | The old root is parked at the end and the rest is a heap again |
| `Heaps.SortHeap` | src/algo/heap.c:52-60 | A heap becomes a sorted rearrangement of itself, in at most 2 n log2 n comparisons |
| `Heaps.IsHeapUntil` | src/algo/heap.c:71-86 | The answer is the length of the longest prefix that is a heap |
| `Sorting.InsertionSlot` | src/algo/sort.c:294-302 | The least position whose elem is strictly greater; inserting there is stable |
| `Sorting.InsertionSort` | src/algo/sort.c:55-84 | The stable sort of the span, in at most n (n - 1) / 2 comparisons, and at most n when it is sorted already |
| `Sorting.Median3` | src/algo/sort.c:228-243 | One of the three positions, with at most one elem on either side of it strictly, in 3 comparisons |
| `Sorting.Ninther` | src/algo/sort.c:245-259 | The position of a median of three medians of three sampled positions, all in [left, right], in 12 comparisons |
| `Sorting.Partition3` | src/algo/sort.c:261-292 | [left, right] ends as less, equal, greater than the pivot asked for; lt and gt bound the equal part; no index leaves the range; one comparison per other elem |
| `Pivots.PivotIsInside` | src/algo/sort.c:245-259 | However the data lie, a split of more than 16 elems around the sampled pivot has at least four elems up to the end of the equal part and at least four from its start on |
| `Introsort.Quicksort` | src/algo/sort.c:312-357 | [left, right] ends sorted whichever of partition, insertion leaf and heapsort handles it, with the comparisons and the recursion depth bounded, and linear when all elems are equal |
| `Introsort.SplitOnce` | src/algo/sort.c:312-357 | One level of partition around the sampled pivot: nothing is left beside the equal part when all elems are equal, and and of more than 16 elems neither side keeps more than all but four |
| `Introsort.DepthLimit` | src/algo/sort.c:304-310 | Twice the floor of the logarithm |
| `Introsort.SpanSort` | src/algo/sort.c:86-95 | For every length and every total preorder a sorted rearrangement, in at most 8 n (log2 n + 1) comparisons and log2 n nested calls; n + 11 comparisons when all elems are equal; the stable sort when there are no more than 16 |
| `Introsort.NthElem` | src/algo/sort.c:164-201 | Nothing before nth is greater than the elem there, nothing after it less, and the elems are conserved, by quickselect or by the sort it falls back to, in at most 22 n (log2 n + 1) comparisons, and n + 11 when all elems are equal |
| `Introsort.NthIsSortedNth` | src/algo/sort.c:164-201 | What nth_elem leaves at nth is cmp-equal to the nth elem of the sorted span |
| `Introsort.PartialSort` | src/algo/sort.c:143-162 | The first count elems are in order and none of the rest orders before any of them, in at most 22 n (log2 n + 1) + 8 count (log2 count + 1) comparisons, and n + count + 22 when all elems are equal |
| `Introsort.FrontIsSortedFront` | src/algo/sort.c:143-162 | That front is, position by position, cmp-equal to the front of the sorted span |
| `MergeSort.IndexesFit` | src/algo/sort.c:97-141 | While at most PTRDIFF_MAX elems are sorted, width, i + width and i + 2 width never wrap |
| `MergeSort.MergePass` | src/algo/sort.c:117-131 | One pass turns sorted runs of width into sorted runs of twice the width, whatever the last run is like, keeping every class in order, in at most n comparisons |
| `MergeSort.SpanSortStable` | src/algo/sort.c:97-141 | The span ends as its stable sort whichever buffer the last pass wrote, in at most n ceil(log2 n) comparisons; a refused buffer leaves it unchanged |
| `Counting.DoublingsIsLog` | src/algo/sort.c:117-131 | The passes, whose width doubles from 1 to n, are ceil(log2 n) |
| `Counting.CeilLog2Is` | src/algo/sort.c:117-131 | ceil(log2 n) is the exponent of the first power of two that reaches n |
| `Permutations.NextIsLeast` | src/algo/permute.c:200-235 | The step gives an arrangement of the same classes that is later, and no arrangement lies between |
| `Permutations.NextExists` | src/algo/permute.c:200-235 | There is a next arrangement exactly when one is later; on the last one the step leaves the sorted span |
| `Permutations.SortedIsFirst` | src/algo/permute.c:200-235 | No arrangement comes before the sorted one |
| `Permutations.PrevUndoesNext` | src/algo/permute.c:64-76 | prev_permutation after next_permutation gives back the arrangement up to cmp-equality, wrap included |
| `Permutations.WalkAscends` | src/algo/permute.c:64-69 | In a do-while over next_permutation every visit is later than the ones before |
| `Permutations.VisitsEach` | src/algo/permute.c:64-69 | From a sorted span every arrangement is visited, at exactly one step up to cmp |
| `Permutations.WalkEnds` | src/algo/permute.c:64-69 | The loop stops at the last arrangement, with false and the sorted span |
| `Permutations.PermuteStep` | src/algo/permute.c:200-235 | The pivot scan, the mate scan, the swap and the reversal compute that step, in either direction |
| `Permutations.NextPermutation` | src/algo/permute.c:64-69 | The step along cmp; true exactly when there was a next arrangement |
| `Permutations.PrevPermutation` | src/algo/permute.c:71-76 | The step along the order read backwards |
| `Partitioning.Partition` | src/algo/permute.c:78-94 | The accepted elems come first and in their old order, the rest behind; the boundary is how many; the predicate is asked once of each elem |
| `Partitioning.PartitionIsStableSort` | src/algo/permute.c:96-157 | Accepted then rejected elems, both in order, are the stable sort by the predicate |
| `Partitioning.PartitionStable` | src/algo/permute.c:96-157 | The span ends as that stable sort, the predicate asked once of each elem; a refused buffer leaves it unchanged, and an empty span asks for none |
| `Partitioning.IsPartitioned` | src/algo/permute.c:159-172 | True exactly when no accepted elem follows a rejected one |
| `Shuffling.ShuffleGivesAll` | src/algo/permute.c:174-184 | Every order of the elems comes from some vector of draws d_i in [0, i) |
| `Shuffling.ShuffleIsOneToOne` | src/algo/permute.c:174-184 | And from only one when the elems are distinct, so uniform draws give uniform orders; no elem is lost |
| `Shuffling.ShuffledAt` | src/algo/permute.c:174-184 | What ends at position i - 1 is the elem that stood at the position drawn for it |
| `Shuffling.Shuffle` | src/algo/permute.c:174-184 | Driven by the generator: the draws are the answers tda_rng_idx gives on the stream of its words, one after the other, and the span ends as those draws arrange it |
| `Shuffling.PrefixIsOneToOne` | src/algo/permute.c:186-196 | Each ordered selection of count distinct elems comes from exactly one vector of draws |
| `Shuffling.SampledAt` | src/algo/permute.c:186-196 | What ends at position i is the elem that stood the number drawn behind it |
| `Shuffling.ShufflePrefix` | src/algo/permute.c:186-196 | Driven by the generator in the same way; the first count places are filled from the front |
| `Generator.StepInverts` | src/core/rng.c:218-234 | The xoshiro256++ state step is one-to-one: the state before can be told from the state after |
| `Generator.OnlyZeroStepsToZero` | src/core/rng.c:218-234 | Only the all-zero state leads to the all-zero state |
| `Generator.SplitMixInverts` | src/core/rng.c:203-210 | The output function of SplitMix64 is a bijection |
| `Generator.SeededWordsDiffer` | src/core/rng.c:34-46 | The four words a seed gives are pairwise different |
| `Generator.NeverAllZero` | src/core/rng.c:34-46 | Whatever the seed and however many draws, the state is never all zero |
| `Generator.AfterInjective` | src/core/rng.c:218-234 | Two generators that agree after n draws agreed before them |
| `Generator.AfterAdd` | src/core/rng.c:218-234 | The words of a generator that has been used are the rest of the words it would have given |
| `Cycles.Returns` | src/core/rng.c:218-234 | Every state is met again: the stream of any generator runs in a cycle that it is on from the start |
| `Generator.Rng.constructor` | src/core/rng.c:34-46 | A seeded generator holds the four words SplitMix64 gives |
| `Generator.Rng.NextU64` | src/core/rng.c:218-234 | The in-place updates, one word after the other, amount to the output and the step |
| `KnownAnswers.StreamOfZero` | src/core/rng.c:218-234 | The first five words from seed 0, as the reference generator gives them |
| `KnownAnswers.StreamOfFortyTwo` | src/core/rng.c:218-234 | The first five words from seed 42 |
| `Generator.Rotated23` | src/core/rng.c:212-216 | Bit i of a word rotated by 23, which the output is scrambled with, is bit i - 23 counted round |
| `Generator.Rotated45` | src/core/rng.c:212-216 | The same for 45, which the state step uses |
| `Generator.HashMixInverts` | src/core/hash.c:154-162 | The mixer is a bijection on 64-bit words |
| `Generator.HashMixInjective` | src/core/hash.c:154-162 | Different integer keys have different hashes |
| `KnownAnswers.KnownHashes` | src/core/hash.c:154-162 | The hashes of 0 and of 1 |
| `KnownAnswers.ZeroMoves` | src/core/hash.c:154-162 | Only one key hashes to 0, and it is the seed of the mixer, not 0 |
| `Bounded.Uniform` | src/core/rng.c:64-118 | Every value in [0, r) is answered by exactly floor(2^W / r) of the W-bit words |
| `Bounded.ShortcutIsExact` | src/core/rng.c:80-91 | The outer test low < range rejects precisely the words with low < 2^W mod r, with the threshold computed in W-bit arithmetic |
| `Bounded.MostAreKept` | src/core/rng.c:64-118 | More than half of all words are accepted |
| `Bounded.EndsExactly` | src/core/rng.c:64-118 | The redraw loop ends exactly when some word of the stream is one that is kept |
| `Bounded.KeptForEver` | src/core/rng.c:64-118 | And whether one is does not depend on how many words have been used: the cycle brings it back |
| `Bounded.DrawMax` | src/core/rng.c:64-118 | The draw is the answer of the first kept word the generator gives, lies in [0, max], and uses up the words to that one; a 32-bit draw sees the top half of that word, and the answer stands to max + 1 as what it sees to the width; stated for exactly the streams on which the loop ends |
| `Bounded.WhenceDecides` | src/core/rng.c:64-118 | What a bounded draw answers is determined by the 64-bit word it kept: that word, or the top half of it, times max + 1 over the width, rounded down |
| `Bounded.DrawWord` | src/core/rng.c:50-60 | A 32-bit word is the top half of a whole draw, and takes the generator one step on |
| `KnownAnswers.FirstDrawOfZero` | src/core/rng.c:64-94 | From seed 0 the 32-bit draw from [0, 9] keeps its first word, 0x53175d61, and answers 3 |
| `Bounded.SignedOffset` | src/core/rng.c:128-137 | Width and offset taken in unsigned arithmetic give the exact signed value for every lo <= hi |
| `Bounded.DrawRange` | src/core/rng.c:128-137 | The value lies in [lo, hi], and lo + d is answered by the words that answer d in [0, hi - lo] |
| `Bounded.DrawIdx` | src/core/rng.c:120-126 | The answer is that of the first kept word from where the generator stands in its stream, and the stream goes on right behind that word |
| `Bounded.AnswersAreDetermined` | src/core/rng.c:120-126 | A run of bounded draws is a function of the stream of words: what a draw answers, and where it leaves the stream, are determined |
| `Chains.SortingOrderIs` | src/ds/list.c:936-956 | The order of positions sort_chain produces is a permutation of them, and read through the elems it is their stable sort |
| `Chains.SortingKeepsTies` | src/ds/list.c:914-956 | Nodes whose elems compare equal come out in the order they went in |
| `Chains.MergingOrderIs` | src/ds/list.c:914-934 | The same for merging two lists: a permutation of the positions that reads as the merge of the elems |
| `Chains.MergeChains` | src/ds/list.c:914-934 | Writing through tail, two disjoint chains become one chain in merge order, linked to the end, in at most as many comparisons as there are nodes; links outside them stay |
| `Chains.SortChain` | src/ds/list.c:936-956 | Cutting, sorting the halves and merging leaves the chain in stably sorted order, in at most n ceil(log2 n) comparisons, and touches only next pointers of its nodes |
| `Lists.List.LinkNode` | src/ds/list.c:794-811 | A node comes between two neighbours, null standing for an end; every next, prev, head, tail and len agree again |
| `Lists.List.InsertBetween` | src/ds/list.c:816-829 | A fresh node at the position, lent for it; a refusal changes nothing |
| `Lists.List.UnlinkNode` | src/ds/list.c:831-848 | The node is out and everything agrees again |
| `Lists.List.Remove` | src/ds/list.c:850-855 | The node is out, everything agrees again, and exactly that node is handed back |
| `Lists.List.Clear` | src/ds/list.c:901-912 | No node is left and each is handed back exactly once, its next read before it goes |
| `Lists.List.Drop` | src/ds/list.c:144-154 | Every node and the list itself are handed back once, and no other block |
| `Lists.List.PushFront` | src/ds/list.c:466-471 | The elem is first, in a fresh node |
| `Lists.List.PushBack` | src/ds/list.c:473-478 | The elem is last, in a fresh node |
| `Lists.List.InsertBefore` | src/ds/list.c:494-501 | A fresh node right before the given one |
| `Lists.List.InsertAfter` | src/ds/list.c:503-510 | A fresh node right after the given one |
| `Lists.List.SpliceNode` | src/ds/list.c:606-642 | The node moves in front of the given place, also within one list and next to itself; between allocators its elem moves into a fresh node and the old one is handed back to its own, and a refusal changes neither list |
| `Lists.List.SpliceNodes` | src/ds/list.c:857-883 | All nodes of src, the same objects in the same order, at one end; src is left empty |
| `Lists.List.SpliceAll` | src/ds/list.c:528-588 | splice_front and splice_back: node by node within one allocator, as copies between two, each list giving and taking only blocks of its own allocator; unchanged on a refusal, with what was lent for the copies handed back |
| `Lists.List.Reverse` | src/ds/list.c:646-659 | The same nodes in reverse order, every prev and next right |
| `Lists.List.RelinkPrev` | src/ds/list.c:958-967 | Every prev, and the tail, agree again with a chain of next pointers |
| `Lists.List.Sort` | src/ds/list.c:661-673 | The same nodes, each with its elem, in the order of the stable sort of the elems; all links right; at most n ceil(log2 n) comparisons |
| `Lists.List.MergeInto` | src/ds/list.c:969-984 | The nodes of both lists in the order of the stable merge, in at most as many comparisons as there are nodes; src is left empty |
| `Lists.List.MergeList` | src/ds/list.c:675-705 | The stable merge of the elems, of the same nodes within one allocator; a refused copy changes neither list and leaves nothing lent |
| `Lists.List.CopyWith` | src/ds/list.c:164-186 | A list of the same elems in fresh nodes, granted exactly when the list and every node are; after a refusal nothing stays lent |
| `Lists.List.CopyAssign` | src/ds/list.c:188-240 | The target ends with the elems of the source, in its own nodes as far as they go; a node refused leaves it untouched and the spare ones handed back |
| `Lists.List.MoveAssign` | src/ds/list.c:242-279 | The nodes themselves within one allocator, copies between two; the nodes of the target are handed back; the source is left empty; a refusal changes neither |
| `Lists.List.Swap` | src/ds/list.c:590-604 | The two lists exchange their nodes |
| `HMaps.LawfulPairs` | include/tda/ds/hmap.h:21-23 | What the map asks of a hasher and an equality holds of equality by any attribute the hasher alone looks at |
| `Bits.MaskIsRemainder` | src/ds/hmap.c:698-702 | Masking with 2^k - 1 is the remainder on division by 2^k |
| `Tables.BucketIsRemainder` | src/ds/hmap.c:698-702 | For a power of two the masked hash is hash mod count, so it is a bucket |
| `Tables.MoveNode` | src/ds/hmap.c:768-777 | One step of rehash: the node leaves its old chain and heads its new one, all other chains intact |
| `Tables.Relink` | src/ds/hmap.c:759-786 | After the loop the very same nodes hang from the new array, each in the bucket its hash names, once |
| `Tables.WalkIsOnce` | src/ds/hmap.c:401-422 | The walk over the buckets lists every node exactly once |
| `Tables.WalkStep` | src/ds/hmap.c:413-422 | What follows a node is the next of its chain, or the first node of a later bucket |
| `HMaps.RoundUpPow2` | src/ds/hmap.c:746-757 | The least power of two that is at least 8 and at least want, or 0 when size_t holds none |
| `HMaps.HMap.FindNode` | src/ds/hmap.c:704-718 | The node whose key equals the one looked for, or null when no entry has such a key |
| `HMaps.NewCap` | src/ds/hmap.c:128-179 | An empty map with the fewest buckets that hold cap, granted exactly when a power of two holds cap and both requests are answered; a refusal leaves nothing lent |
| `HMaps.HMap.Rehash` | src/ds/hmap.c:759-786 | The same node objects, the same map, in a new array, the old one handed back; a refusal changes nothing |
| `HMaps.HMap.ReserveOne` | src/ds/hmap.c:788-803 | Room for one more entry: 8 buckets when there are none, twice as many when all are taken, as many otherwise; refused exactly when the allocator refuses or size_t has no double |
| `HMaps.HMap.AddNode` | src/ds/hmap.c:720-744 | One more node and one more entry; a refusal, of the buckets or of the node, leaves the map as it was |
| `HMaps.HMap.Insert` | src/ds/hmap.c:457-488 | The map with the key set to the value: the node is kept when the key was there, fresh when not; a refusal leaves the map |
| `HMaps.HMap.GetOrInsert` | src/ds/hmap.c:490-511 | The node of the key, its value kept when it was there |
| `HMaps.HMap.Remove` | src/ds/hmap.c:513-541 | The map without the key, and whether it was there; exactly the node of the key is handed back |
| `HMaps.HMap.RemoveNode` | src/ds/hmap.c:543-560 | The map without the entry of that node, which is handed back |
| `HMaps.HMap.ClearNodes` | src/ds/hmap.c:815-824 | Each node is handed back exactly once, bucket by bucket, its next read before it goes |
| `HMaps.HMap.ReleaseBuckets` | src/ds/hmap.c:826-832 | Nothing is held any more: the nodes and the bucket array are handed back once, and no other block |
| `HMaps.HMap.Drop` | src/ds/hmap.c:181-192 | The same, and the map itself |
| `HMaps.HMap.Clear` | src/ds/hmap.c:562-574 | No entries, as many buckets; exactly the nodes are handed back |
| `HMaps.HMap.Reserve` | src/ds/hmap.c:576-591 | The fewest buckets, a power of two and at least 8, that hold cap, the same nodes and map; refused when no power of two holds cap or the allocator refuses, and nothing asked for when there are enough |
| `HMaps.HMap.ShrinkToFit` | src/ds/hmap.c:593-611 | The fewest buckets that hold the entries, none for an empty map, and the same nodes and map; nothing is asked for, and nothing refused, when they are that few already |
| `HMaps.HMap.WalkVisitsAll` | src/ds/hmap.c:401-422 | The walk has as many steps as entries and visits each node once |
| `HMaps.HMap.FirstNode` | src/ds/hmap.c:401-405 | Where the walk starts |
| `HMaps.HMap.NodeNext` | src/ds/hmap.c:413-422 | The node after this one in the walk |
| `HMaps.HMap.EqImpl` | src/ds/hmap.c:834-864 | True exactly for one object, or for equal lengths and every entry of the first found in the second with a matching value |
| `HMaps.Pigeonhole` | src/ds/hmap.c:834-864 | With pairwise unequal keys and equal sizes, containment one way is containment both ways |
| `HMaps.OneScanDecides` | src/ds/hmap.c:834-864 | For one key equality that one-sided scan with the length test holds exactly when the two maps answer alike for every key |
| `HMaps.HMap.CopyWith` | src/ds/hmap.c:202-225 | A map with the same answers in fresh nodes and the fewest buckets, granted exactly when the map, the buckets and every node are; after a refusal nothing stays lent |
| `HMaps.HMap.CopyAssign` | src/ds/hmap.c:227-251 | The target answers like the source, with its hasher and equality, and hands back what it held; a refusal leaves it |
| `HMaps.HMap.MoveAssign` | src/ds/hmap.c:253-291 | The nodes themselves within one allocator, copies between two; what the target held is handed back; a refusal changes neither map |
| `HMaps.HMap.Swap` | src/ds/hmap.c:613-628 | Everything trades places, hasher and equality included |
| `Deques.InsertedFront` | src/ds/deque.c:465-479 | Shifting the front side and writing the gap is insertion at idx |
| `Deques.InsertedBack` | src/ds/deque.c:465-479 | Shifting the back side gives the same sequence |
| `Deques.RemovedFront` | src/ds/deque.c:486-503 | Closing the hole from the front is removal at idx |
| `Deques.RemovedBack` | src/ds/deque.c:486-503 | Closing it from the back gives the same sequence |
| `Deques.GrowthIsAmortized` | src/ds/deque.c:711-757 | In any run of pushes, pops and resizes from an empty deque whose requests are granted, growth moves fewer than 2 n elems, n being how many were added one by one or at once |
| `Deques.PushesMove` | src/ds/deque.c:711-757 | Without resizes, exactly one elem less than there are slots |
| `Deques.AddedAre` | src/ds/deque.c:580-605 | A push adds one elem to the count, a pop none, and a resize those between the old length and the new |
| `Growth.GrownIs` | src/ds/deque.c:742-757 | The three outcomes of growing a full block: twice the slots if they fit and are granted, else one more, else none |
| `Growth.SizedIs` | src/ds/deque.c:724-736 | The three outcomes of making room for a length: twice the slots if that is more than asked and is granted, else just the length, else none |
| `Deques.Deque.CopyOut` | src/ds/deque.c:806-821 | The elems, unrolled, wherever the ring wraps |
| `Deques.Deque.CopyIn` | src/ds/deque.c:823-838 | The elems become those of src: what copy_out gave is put back |
| `Deques.Deque.Reserve` | src/ds/deque.c:512-543 | A larger block with the same elems, the old one handed back; refused exactly when the size overflows or the allocator refuses |
| `Deques.Deque.ReserveOne` | src/ds/deque.c:738-757 | Room for one more: doubled, else one more, else refused |
| `Deques.Deque.PushFront` | src/ds/deque.c:406-421 | The elem in front; growth moves exactly the elems there are |
| `Deques.Deque.PushBack` | src/ds/deque.c:423-436 | The elem behind |
| `Deques.Deque.PopFront` | src/ds/deque.c:438-444 | All but the first, wherever the ring wraps |
| `Deques.Deque.PopBack` | src/ds/deque.c:446-451 | All but the last |
| `Deques.Deque.Insert` | src/ds/deque.c:453-484 | The sequence with the elem at idx, whichever side is shifted, by exactly min(idx, len - idx) moves; unchanged on a refusal |
| `Deques.Deque.Remove` | src/ds/deque.c:486-503 | The sequence without the elem at idx, whichever side is shifted, by exactly min(idx, len - 1 - idx) moves |
| `Deques.Deque.Resize` | src/ds/deque.c:580-605 | Cut off, or filled up with zero elems across the seam; the capacity is the doubled one when that is more and is granted, else the exact one, else the call is refused |
| `Deques.Deque.ShrinkToFit` | src/ds/deque.c:545-578 | The same elems in a block of exactly their number, the old one handed back |
| `Deques.Deque.CopyWith` | src/ds/deque.c:171-188 | The same elems, unrolled, in a block of their own; a refused block leaves nothing lent |
| `Deques.Deque.CopyAssign` | src/ds/deque.c:190-212 | The target holds the elems of the source, in its own block when that is large enough; a refusal leaves it |
| `Deques.Deque.MoveAssign` | src/ds/deque.c:214-251 | The block itself within one allocator, a copy between two; what the target held is handed back; a refusal changes neither |
| `Deques.Deque.Swap` | src/ds/deque.c:607-621 | The two trade everything |
| `Deques.Deque.Drop` | src/ds/deque.c:151-161 | The block and the deque itself are handed back once, and no other block |
| `Bitsets.WordsFor` | src/ds/bitset.c:522-525 | Just as many words as the bits need |
| `Bits.WordBits` | src/ds/bitset.c:235-254 | What &, |, ^ and ~ do to every bit of a word |
| `Bitsets.TailCleared` | src/ds/bitset.c:548-561 | Masking the last word clears exactly the bits from nbits on |
| `Bitsets.CountWord` | src/ds/bitset.c:297-306 | Popcounts of words add up to the cardinality |
| `Bitsets.BitSet.New` | src/ds/bitset.c:66-96 | The empty subset, granted exactly when the set and its words are; a refusal of the words hands the set back |
| `Bitsets.BitSet.Test` | src/ds/bitset.c:228-233 | Whether idx is a member |
| `Bitsets.BitSet.Set` | src/ds/bitset.c:235-240 | The set with idx |
| `Bitsets.BitSet.ClearAt` | src/ds/bitset.c:242-247 | The set without idx |
| `Bitsets.BitSet.Flip` | src/ds/bitset.c:249-254 | Membership of idx turned round |
| `Bitsets.BitSet.SetAll` | src/ds/bitset.c:266-275 | The whole universe, and no bit beyond it |
| `Bitsets.BitSet.ClearAll` | src/ds/bitset.c:277-283 | The empty set |
| `Bitsets.BitSet.FlipAll` | src/ds/bitset.c:285-293 | The complement, and no bit beyond the universe |
| `Bitsets.BitSet.Count` | src/ds/bitset.c:297-306 | The cardinality |
| `Bitsets.BitSet.Any` | src/ds/bitset.c:308-318 | Whether there is a member |
| `Bitsets.BitSet.All` | src/ds/bitset.c:320-331 | Holds exactly when the set is the universe, which is exactly when its size is nbits |
| `Bitsets.BitSet.FindNext` | src/ds/bitset.c:353-376 | The least member from a position on, or none |
| `Bitsets.BitSet.FindNextClear` | src/ds/bitset.c:378-408 | The least non-member of the universe from a position on, or none |
| `Bitsets.BitSet.Listed` | src/ds/bitset.c:497-514 | Repeated find_next lists exactly the members in increasing order |
| `Bitsets.BitSet.Union` | src/ds/bitset.c:427-435 | The union |
| `Bitsets.BitSet.Intersect` | src/ds/bitset.c:437-445 | The intersection |
| `Bitsets.BitSet.Difference` | src/ds/bitset.c:447-455 | The difference |
| `Bitsets.BitSet.SymmetricDifference` | src/ds/bitset.c:457-465 | The symmetric difference |
| `Bitsets.BitSet.Eq` | src/ds/bitset.c:412-425 | Equal words mean equal universes and equal sets, and the other way round |
| `Bitsets.BitSet.IsSubset` | src/ds/bitset.c:467-479 | Whether one is a subset of the other |
| `Bitsets.BitSet.Intersects` | src/ds/bitset.c:481-493 | Whether they have a member in common |
| `Bitsets.BitSet.CopyWith` | src/ds/bitset.c:118-136 | The same subset in words of its own, granted exactly when a new set is |
| `Bitsets.BitSet.CopyAssign` | src/ds/bitset.c:138-171 | The target becomes the same subset of the same universe, in its own words when they are as many; a refusal leaves it |
| `Bitsets.BitSet.MoveAssign` | src/ds/bitset.c:173-209 | The words themselves within one allocator, a copy between two; what the target held is handed back; a refusal changes neither |
| `Bitsets.BitSet.Swap` | src/ds/bitset.c:211-224 | The two trade everything |
| `Alignment.AlignUpIsLeast` | src/internal/ptr.h:55-61 | While the sum fits, the mask expression is the least multiple of the alignment that is not less |
| `Alignment.AlignDownIsGreatest` | src/internal/ptr.h:79-84 | The mask expression is the greatest multiple that is not greater |
| `Alignment.IsAlignedIff` | src/internal/ptr.h:102-108 | The test is divisibility |
| `Arenas.CkdAlignUp` | src/internal/ptr.h:66-76 | Reports overflow exactly when the rounded value does not fit, and the least multiple otherwise |
| `Arenas.Arena.BlocksAreApart` | src/alloc/arena.c:122-143 | In every state two lent blocks share no byte, start aligned and lie inside the buffer |
| `Arenas.Arena.Alloc` | src/alloc/arena.c:122-143 | A new block cut off the front of the free tail, exactly when the padded size fits; otherwise nothing changes |
| `Arenas.Arena.IsLastBlock` | src/alloc/arena.c:176-179 | True exactly for the lent block whose padded end is the offset of the arena |
| `Arenas.Arena.Realloc` | src/alloc/arena.c:145-174 | The last block where it stands, with the offset right behind its new size; any other to the front of the free tail, by moving as many bytes as fit; the bytes of all other lent blocks stay; a refusal changes nothing |
| `Arenas.Arena.Reset` | src/alloc/arena.c:99-104 | Every block is taken back |
| `Pools.OwnsIff` | src/alloc/pool.c:199-207 | pool_owns holds exactly for the addresses where blocks start |
| `Pools.BlocksAreApart` | src/alloc/pool.c:144-165 | Blocks of different numbers do not overlap |
| `Pools.Pool.New` | src/alloc/pool.c:45-103 | A pool with every block free, in order, of the least aligned size that holds a pointer; none when a size overflows or is refused |
| `Pools.Pool.BuildFreeList` | src/alloc/pool.c:187-197 | The free list holds every block once, the first block first |
| `Pools.Pool.Alloc` | src/alloc/pool.c:144-165 | The front of the free list, a block nobody holds; refused exactly for size 0, a size too large or an empty list |
| `Pools.Pool.Dealloc` | src/alloc/pool.c:167-185 | The block is free again and no other changes hands |
| `Pools.Pool.ClientWrites` | src/alloc/pool.c:13-17 | Whatever a client writes into a block it was lent, the free list stands |
| `Pools.Pool.Reset` | src/alloc/pool.c:121-127 | Every block is free again, in order |
| `Vecs.Vec.Push` | src/ds/vec.c:329-342 | The elem behind the others; a full block grows to twice the slots, or one more when that is refused, and another stays; unchanged on a refusal |
| `Vecs.Vec.FromData` | src/ds/vec.c:94-113 | The first n elems of the source in a block of their own; refused exactly when the vec, the size or the block is, with nothing left lent |
| `Vecs.Vec.CopyAssign` | src/ds/vec.c:150-173 | The target holds the elems of the source, in its own block when that is large enough; a refusal leaves it |
| `Vecs.Vec.MoveAssign` | src/ds/vec.c:175-212 | The block itself within one allocator, a copy between two; what the target held is handed back; a refusal changes neither |
| `PQueues.PQueue.FromData` | src/ds/pqueue.c:61-81 | A queue of exactly the given elems, a heap under its comparator; none exactly when the vec, its block or the queue is refused, and then nothing stays lent |
| `PQueues.PQueue.NewAround` | src/ds/pqueue.c:305-322 | The queue takes the vec over; when the request for the queue is refused the vec is dropped |
| `PQueues.PQueue.Drop` | src/ds/pqueue.c:92-102 | The block, the vec and the queue are handed back once, and no other block |
| `PQueues.PQueue.Top` | src/ds/pqueue.c:216-221 | An elem of the queue that none orders after |
| `PQueues.PQueue.Push` | src/ds/pqueue.c:225-238 | One more elem, a heap still; unchanged on a refusal |
| `PQueues.PQueue.Pop` | src/ds/pqueue.c:240-248 | Exactly the elem top showed is gone, and the rest is a heap |
| `PQueues.PQueue.Clear` | src/ds/pqueue.c:250-254 | No elems |
| `PQueues.PQueue.CopyWith` | src/ds/pqueue.c:121-134 | The same buffer under the same comparator, granted exactly when vec, block and queue are |
| `PQueues.PQueue.CopyAssign` | src/ds/pqueue.c:136-157 | Elems and comparator together; a refusal leaves the target |
| `PQueues.PQueue.MoveAssign` | src/ds/pqueue.c:159-180 | Elems and comparator together; a refusal changes neither |
| `PQueues.PQueue.Swap` | src/ds/pqueue.c:268-279 | Buffers and comparators trade places together |
| `PQueues.PQueue.Drain` | include/tda/ds/pqueue.h:17-30 | Serving until nothing is left gives every elem once, in non-increasing order |
| `PQueues.DrainsAgree` | include/tda/ds/pqueue.h:27-30 | Queues with the same elems under one order serve cmp-equal elems at every step, whatever their heaps look like |

## Left out

- Bytes: elems are values of a type `T`, so elem sizes, strides, memcpy overlap and alignment of flexible arrays do not appear. A
  pointer into a buffer is an index.
- Passing a container a pointer to one of its own elems as the value to insert is not modelled: values are passed as values.
- The ledger of blocks says which are out, not of what size each is handed back, and that a block is not read after it was handed
  back is not stated; the arena and the pool keep their own books and are not tied to it.
- Floating point in src/core/rng.c, src/core/cmp.c and src/core/hash.c, and the statistical quality of the generator.
- `tda_hash_bytes`, `tda_hash_cstr` and `tda_hash_combine`: nothing is promised of them but a spread.
- Printing, logging and status strings; `Bitsets.BitSet.Listed` keeps the scan of the printing loop and drops the printing.
- src/ds/hset.c, src/ds/queue.c and src/ds/stack.c forward to the modelled containers; src/ds/arr.c has no invariant of its own;
  src/ds/vec.c is modelled only as far as the priority queue uses it.
- src/algo/set.c, src/algo/copy.c, fill.c, fold.c, transform.c, compare.c, modify.c and the linear searches in src/algo/search.c:
  single loops.
- Read-only single loops of the list and the deque (find, eq, copies to and from spans of the list): they add only easy members.
- `tda_pqueue_into_vec`, the reserve and shrink doors of the priority queue, and clear-and-refill constructors: they forward.
- Bounded.DrawMax: one method for both widths, told apart by a flag. It asks that the stream has a word the draw keeps
  (`GivesKept`), which is exactly when the loop ends (Bounded.EndsExactly); that every nonzero state has such a stream is not proved.
  More than half of all words are kept (Bounded.MostAreKept).
- Bounded.DrawRange: the same.
- Bounded.DrawIdx: the same.
- Shuffling.Shuffle: the same for each of its draws (`Endless`); that each draw is uniform is Bounded.Uniform, and it is not derived
  from the generator.
- Shuffling.ShufflePrefix: the same.
- Chains.MergeChains: nodes are addressed through a ghost sequence of all nodes the two chains may hold, and the two chains lie in
  separate ranges of it, as they do at both call sites.
- Deques.GrowthIsAmortized: every request counts as granted, and the sizes asked for fit size_t.
- Arenas.Arena.Realloc: the old block must be one that is lent, with the size it was lent at, as the allocator interface asks.
- Pools.Pool.Alloc: what alignment the underlying buffer has is left to the parent allocator; block sizes are multiples of it.
- HMaps.HMap.EqImpl: comparing values by their bytes is one choice of the value equality it takes.
