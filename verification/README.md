# lab0-c queue in Dafny

A model of `queue.c` from lab0-c: a queue of strings kept in a circular,
doubly-linked list with a sentinel node (`struct list_head`). Each element
is an `element_t` that embeds a list node and owns a copy of its string.

The model has two layers.

- **Contents** (`QueueSpec`, with `Sorting`, `Dedup`, `StrOrder`, `SeqOps`).
  Each `q_*` operation is a function on the strings of the queue read from
  head to tail. `Absent` stands for a NULL `struct list_head *`. A boolean
  `allocOk` stands for the outcome of `malloc`/`strdup`. The caller's buffer
  of `q_remove_head`/`q_remove_tail` is a `seq<char>` of `bufsize` bytes.
  String order is `strcmp`'s, modelled as `StrOrder.Compare`.
- **Links** (`Arena`, `ArenaOps`, `ArenaSort`). Nodes are indices into an
  arena `Heap(next, prev, val)`. The sentinel is node `HEAD = 0` and NULL is
  `NIL = -1`.
  - `Ring(h, c)` says that `next` walks the cycle `c` from the sentinel back
    to it, and `prev` walks it the other way.
  - `Listed(h, ord)` is `Ring(h, [HEAD] + ord)`, where `ord` lists the
    element nodes.
  - `Strings(h.val, ord)` reads their strings. It is the abstraction function
    that connects the two layers.

  Every method re-does the pointer writes of the C function and proves two
  things. The result is again `Listed`. Its strings are what the matching
  `QueueSpec` function says.

`mergesort` works on a NULL-terminated chain, not on the cycle. `ArenaSort`
describes such a chain with `Chain(h, s)`. It models the split, the two
recursive calls, the merge through `phead`, and the `prev` repair of
`q_sort`. It proves that the chain `mergesort` returns is
`MergeSortNodes(val, s)`, and that reading that chain's strings gives
`Sorting.MergeSort` of the input strings.

The comment above `q_delete_mid` says the removed node is the ⌊n/2⌋-th
(0-based) node. The code walks two pointers towards each other and removes
index `(n-1)/2`. For an even `n` that is the lower of the two middle
positions. It matches the comment's own example (six elements, the third
goes) but not its formula. The model follows the code, and
`QueueSpec.MidIndexHalves` states the difference.

## Model

| member | source | states |
|---|---|---|
| QueueSpec.New | queue.c:20-29 | a queue comes back exactly when the sentinel could be allocated, and it is empty |
| ArenaOps.Init | queue.c:20-29 | `INIT_LIST_HEAD` on a fresh sentinel gives a well-formed cycle with no elements |
| QueueSpec.InsertHead | queue.c:56-77 | succeeds iff the queue is present and allocation succeeds; on success the string is first and the old queue follows, size grows by one; on failure the queue is unchanged |
| QueueSpec.InsertTail | queue.c:86-108 | succeeds iff the queue is present and allocation succeeds; on success the old queue is followed by the string; on failure nothing changes |
| ArenaOps.InsertHead | queue.c:56-77 | a new node linked in by `list_add` makes the cycle list it first, and the strings read back are `QueueSpec.InsertHead`'s; every existing node keeps its string; a failed allocation leaves the arena as it was |
| ArenaOps.InsertTail | queue.c:86-108 | a new node linked in by `list_add_tail` becomes the last of the cycle, with strings as `QueueSpec.InsertTail` says; every existing node keeps its string; a failed allocation leaves the arena as it was |
| Arena.ListAddListed | queue.c:74 | `list_add` of a node outside the cycle keeps it a cycle, with the node right after the sentinel |
| Arena.ListAddTailListed | queue.c:105 | `list_add_tail` of a node outside the cycle keeps it a cycle, with the node right before the sentinel |
| QueueSpec.CopyOut | queue.c:135-138 | the buffer after `strncpy(sp, v, bufsize-1)` and the closing NUL: the first `min(|v|, bufsize-1)` characters of `v`, then NULs, `bufsize` bytes in all |
| QueueSpec.CopyOutReadsBack | queue.c:135-138 | read back as a C string, the buffer holds the removed string cut to `bufsize-1` characters |
| QueueSpec.CopyOutWhole | queue.c:135-138 | a buffer longer than the string receives all of it |
| QueueSpec.RemoveHead | queue.c:124-141 | returns nothing iff the queue is NULL or empty, and then changes nothing; otherwise returns the first string, leaves the rest, and fills the buffer only when one was given |
| QueueSpec.RemoveTail | queue.c:147-164 | the same at the tail: the last string goes and the prefix before it stays |
| ArenaOps.RemoveHead | queue.c:124-141 | `list_del(head->next)` on a non-empty cycle returns the first node and leaves the cycle of the remaining ones; the result agrees with `QueueSpec.RemoveHead` |
| ArenaOps.RemoveTail | queue.c:147-164 | `list_del(head->prev)` returns the last node and leaves the cycle of the others; the result agrees with `QueueSpec.RemoveTail` |
| Arena.DelRing | queue.c:132 | `list_del` of any non-sentinel node of a cycle leaves the cycle without that node |
| QueueSpec.InsertRemoveHead | queue.c:124-141 | removing from the head right after inserting at the head gives back the string and the original queue |
| QueueSpec.InsertRemoveTail | queue.c:147-164 | removing from the tail right after inserting at the tail gives back the string and the original queue |
| QueueSpec.RemoveEmptyScenario | queue.c:126-127 | removing from a new, empty queue returns nothing and the size stays 0 |
| ArenaOps.Size | queue.c:180-190 | the count of nodes met from the sentinel back to it is the number of elements |
| QueueSpec.SizeCountsOps | queue.c:180-190 | after any sequence of insertions and removals the size is the starting size plus successful insertions minus successful removals; a NULL queue stays NULL |
| QueueSpec.MidIndex | queue.c:207-212 | the two pointers stop at index `(n-1)/2`, a valid index whose distances to the two ends differ by at most one |
| QueueSpec.MidIndexHalves | queue.c:192-196 | that index is ⌊n/2⌋ for odd `n` and ⌊n/2⌋-1 for even `n` |
| QueueSpec.DeleteMid | queue.c:200-223 | fails iff the queue is NULL or empty; otherwise exactly the element at `MidIndex` is gone and the others keep their order |
| QueueSpec.DeleteMidScenario | queue.c:196 | of six elements the third (index 2) is deleted |
| ArenaOps.DeleteMid | queue.c:200-223 | the `ptr`/`rev` walk stops at position `MidIndex(n)`, and unlinking it leaves the cycle of the other nodes, as `QueueSpec.DeleteMid` says |
| QueueSpec.DeleteDup | queue.c:234-264 | fails only on NULL; otherwise the queue keeps exactly the elements that differ from both neighbours |
| Dedup.DeleteDupPass | queue.c:241-255 | the single pass with the `prev`/`same` flags keeps what `Dedup` keeps, and the scratch list receives every other element |
| Dedup.SortedKeepIffUnique | queue.c:225-232 | on sorted input an element survives iff no other position holds the same string |
| Dedup.KeptStrictlySorted | queue.c:225-232 | on sorted input the survivors are strictly ascending |
| Dedup.DedupIdempotent | queue.c:231-232 | on sorted input a second pass changes nothing |
| QueueSpec.DeleteDupIdempotent | queue.c:231-232 | on a sorted queue a second `q_delete_dup` changes nothing |
| QueueSpec.DeleteDupScenario | queue.c:234-264 | "a", "a", "b" becomes "b": both copies of a repeated string go |
| QueueSpec.Swap | queue.c:269-292 | a NULL queue stays NULL; otherwise position `i` receives the string from its pair mate, and an odd last element stays put |
| SeqOps.PairSwap | queue.c:278-291 | exchanging the pairs (0,1), (2,3), … keeps the length and puts at each position the element at its mate |
| SeqOps.PairSwapInvolutive | queue.c:269-292 | exchanging the pairs twice is the identity |
| QueueSpec.SwapTwice | queue.c:269-292 | `q_swap` twice gives back the queue |
| ArenaOps.Swap | queue.c:269-292 | the six link writes per pair, repeated until a pointer reaches the sentinel, leave the cycle in pair-swapped order; the strings agree with `QueueSpec.Swap` |
| QueueSpec.Reverse | queue.c:301-315 | a NULL queue stays NULL; otherwise position `i` receives the string from position `n-1-i` |
| SeqOps.ReverseInvolutive | queue.c:301-315 | reversing twice is the identity |
| QueueSpec.ReverseTwice | queue.c:301-315 | `q_reverse` twice gives back the queue |
| QueueSpec.ReorderingsPermute | queue.c:269-315 | reversing and pair-swapping keep the same multiset of strings |
| ArenaOps.Reverse | queue.c:301-315 | exchanging `next` and `prev` on every node, sentinel included, leaves the cycle of the reversed order; the strings agree with `QueueSpec.Reverse` |
| StrOrder.Compare | queue.c:342 | the sign of `strcmp`: -1, 0 or 1, and 0 exactly for equal strings |
| StrOrder.LessEqTotal | queue.c:342 | any two strings are ordered one way or the other |
| StrOrder.LessEqAntisymmetric | queue.c:342 | strings ordered both ways are equal |
| StrOrder.LessEqTransitive | queue.c:342 | the order is transitive |
| Sorting.SplitPoint | queue.c:324-328 | the first run of a split of `n >= 2` nodes is non-empty and shorter than `n` |
| Sorting.Merge | queue.c:335-346 | the merge holds exactly the strings of both runs |
| Sorting.MergeSorted | queue.c:335-346 | merging two sorted runs gives a sorted run |
| Sorting.MergeSort | queue.c:317-349 | the merge sort keeps the multiset of strings |
| Sorting.MergeSortSorted | queue.c:317-349 | the merge sort's result is ascending |
| Sorting.SortedUnique | queue.c:317-349 | two ascending arrangements of the same strings are equal, so the sorted result is fully determined |
| Sorting.MergeSortIdempotent | queue.c:356-374 | sorting twice is sorting once |
| QueueSpec.Sort | queue.c:356-374 | a NULL queue stays NULL; otherwise the result is ascending and a permutation of the input |
| QueueSpec.SortIdempotent | queue.c:356-374 | sorting a sorted queue changes nothing; sorting twice is sorting once |
| QueueSpec.SortScenario | queue.c:356-374 | "banana", "apple", "cherry" sorts to "apple", "banana", "cherry" |
| ArenaSort.MergeTieTakesRight | queue.c:342 | on equal strings the merge takes the right run's node first |
| ArenaSort.SortNotStable | queue.c:342 | two nodes holding the same string come out in the opposite order, so the sort is not stable |
| ArenaSort.MergeNodesPerm | queue.c:335-346 | merging runs of nodes loses no node and adds none |
| ArenaSort.MergeNodesStrings | queue.c:335-346 | merging runs of nodes and reading their strings is merging the strings |
| ArenaSort.MergeNodesDistinct | queue.c:335-346 | merging two disjoint runs of distinct nodes repeats no node |
| ArenaSort.MergeSortNodesStrings | queue.c:317-349 | reading the strings of the sorted chain gives `Sorting.MergeSort` of the chain's strings |
| ArenaSort.MergeSortNodesDistinct | queue.c:317-349 | the sorted chain repeats no node |
| ArenaSort.Middle | queue.c:324-326 | the slow pointer stops at the last node of the first run, position `SplitPoint(n) - 1` |
| ArenaSort.Halve | queue.c:324-329 | cutting after `mid` leaves two disjoint chains, the first `SplitPoint(n)` nodes and the rest, with `flag` heading the second; no other node changes |
| ArenaSort.MergeChains | queue.c:335-348 | the merge loop through `phead` and the final `*phead = left ? left : right` link the two sorted chains into the chain `MergeNodes` describes; only their nodes' `next` change |
| ArenaSort.MergeSortChain | queue.c:317-349 | `mergesort(start, end)` on a chain returns the head of the chain `MergeSortNodes` describes; `prev` and nodes outside the chain are untouched |
| ArenaSort.RepairLinks | queue.c:369-373 | the `prev` repair walk and the closing of the last node onto the sentinel turn the NULL-terminated chain from the sentinel into a cycle |
| ArenaSort.Sort | queue.c:356-374 | `q_sort` leaves the cycle listing the sorted chain, whose strings are `QueueSpec.Sort` of the input strings |
| ArenaSort.SortedValues | queue.c:356-374 | the strings of the sorted order are the sorted strings of the queue |

## Left out

- `q_free` and `q_release_element` (queue.c:32-47, 170-174) only give memory back to the allocator. Memory is not modelled: the arena only grows.
- `malloc` and `strdup` failures are the parameter `allocOk`. The test harness that injects them, and its allocation accounting, are not modelled.
- `list.h` is not part of this model. `list_add`, `list_add_tail` and `list_del` are written out from their usual definitions (`Arena.ListAdd`, `Arena.ListAddTail`, `Arena.Del`). The pointer poisoning that some builds of `list_del` add is left out: no model operation reads a removed node's links.
- `bufsize == 0` with a buffer makes `bufsize - 1` wrap around in C. The removal functions require `bufsize >= 1` when a buffer is given, and that case is left out.
- The `int` count of `q_size` is unbounded here. Overflow past `INT_MAX` elements is left out.
- `q_delete_dup` is modelled on the sequence of strings (`Dedup.DeleteDupPass`), not as link surgery on the arena. Its `list_move` of each duplicate onto the second sentinel `duplist` is not modelled at the link level: `Arena.ListAdd` always inserts after the queue's own sentinel, and the fact that moving `ptr` leaves the links of `next` intact is not proved. Freeing the scratch list is memory management.
- `q_delete_mid` and `q_delete_dup` free the unlinked elements. The model only unlinks them.
- The NULL-queue checks are modelled in `QueueSpec`, where `Absent` is NULL. The arena methods start after those checks and always have a sentinel.
- Strings are sequences of non-NUL bytes, and a Dafny `char` stands for one byte. A `char` above 255 has no C counterpart, and a string holding `'\0'` is one that `strdup` (queue.c:67, 98) would already have cut short. The model is faithful only on that domain.
- StrOrder.Compare: is `strcmp` only on NUL-free strings; on strings with an embedded `'\0'` it compares past it, where `strcmp` stops.
- QueueSpec.CopyOut: counts `char`s where `strncpy` counts bytes; the two agree because a `char` stands for one byte. `QueueSpec.CopyOutReadsBack` requires the stored string to be NUL-free.
- QueueSpec.InsertHead: like `QueueSpec.InsertTail`, stores `s` as given; that `s` holds no NUL is the caller's side of the string domain above, not a requirement the model checks.
- The harness, the command interpreter, and the `element_t` layout and `list_entry` arithmetic are not modelled. A node index stands for the element that holds it.
