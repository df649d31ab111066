# Verified model of CBop's speculation runtime

CBop runs program regions speculatively in forked tasks. It records what each task
reads and writes as byte ranges, checks the tasks in order, and merges their writes
so that the outcome equals the sequential run. This project models that core in
Dafny and proves its properties, for all inputs and all runs.

`dafny verify dfyconfig.toml` checks the whole project.

## What is modelled

- **Allocator** (`external/malloc.c`): `Sizes`, `BinMaps`, `Links`, `Tries`,
  `TreeBins`, `Unlinking`, `Bins`, `Searching`, `Heap`, `Supplies`, `Mspace`. Small-bin rings,
  bitwise size tries, designated victim, top chunk and boundary tags, with
  `mspace_malloc` and `mspace_free` on them.
- **Range map** (`range_tree/dtree.c`): `Ranges`, `RangeTree`, `Splay`, `Halving`, `Coalesce`,
  `Scan`, `SetOps`, `RangeMap`. A top-down splay tree in explicit node memory, and
  what each operation does to the set of covered bytes.
- **Copy and merge** (`bop_merge.c`): `Conflicts`, `Patches`, `Tasks`, `Merge`.
- **Post and wait** (`postwait.c`): `TaskRanges`, `Records`, `Receives`, `Chains`,
  `Postwait`.
- **Commit protocol** (`bop_ppr_sync.c`, `bop_ppr.c`): `CommitProtocol`, a state
  machine over every interleaving; `GroupCommits`, what committing a group rests on;
  `Committers`, how many tasks commit it; `Locks`, who holds a commit lock; `GoodRuns`
  and `BadRuns`, runs that do, and that break, what a caller would expect; `SyncData`, the shared record; `GroupOutcome`, which carries the
  protocol's guarantee over to the committed memory.

In the imperative modules a class holds the source's fields; pointer-linked records
are maps from addresses to records, and ghost values (chunk map, free lists, tree,
chains) say what those records spell out. Methods are proved against functions of
these values.

## Where the code does not do what it seems to

- `absorb_left` drops the absorbed range's end. Adding a range inside a longer one,
  with a later range at the root, loses bytes (`LosesTail`, exact condition
  `LossyExactly`). The read and write maps of a task are built with this operation
  in access order, so they can miss accesses. Clone, intersection and subtraction
  never reach the case; a union loses bytes exactly when one of its additions does.
- The header (`bop_map.h`) says that intersection and union free the second map; the
  code does not, and the model follows the code.
- `check_for_overlap` cannot report a conflict on address 0 (`CheckExactly`).
- The last task of a group publishes no patch, so an earlier task's patch overwrites
  its stores (`LastStoreLost`, exact condition `LastTaskExactly`).
- `ppr_group_commit` clears the slots it applies and nothing clears the others, so the
  last task's slot can hold a patch of an earlier, larger group, which is then applied
  last (`LeftoverExactly`, `LastSlotExactly`).
- `map_add_range_from_task` looks for overlaps at the splayed root and its children
  only, so it can link a range that shares bytes with a stored one (`Overlooks`, exact
  condition `OverlookedExactly`).
- Chaining two channels of one chain never ends (`ConnectEndsExactly`).
- When chains are joined, members of the head chain other than its last miss the posted
  flag (`FirstMissed`, exact condition `JoinedFlagsExactly`); who waits on one of them
  waits although the chain is posted.
- The partial group size is tested outside its lock and can grow, in groups of three or
  more (`SizeGrowsExactly`). In groups of four or more a task can then commit a group
  that ends with it over a failed check (`FailureCommitsExactly`), so the guarantee of
  `CommittedGroup` fails for the code as written; it holds there for groups that end at
  their full size or with at most two tasks (`SoundGroup`).
- A failed check is signalled before the group shrinks. Two tasks can therefore commit
  one group when it has five tasks or more, even with an atomic size, and never in a
  smaller one (`TwoCommitExactly`); with an atomic size a failed task lies between the two
  (`CommittersApart`).
- On x86 the tree index narrows the size to 32 bits and misfiles some sizes from 2^40 on
  (`TreeIndexExactly`), so the model takes segments smaller than that, at any address.
- This build sets `FOOTERS`, so a chunk's overhead is 16 bytes and a small request is
  at most 224.

## Model

| member | source | states |
|---|---|---|
| `Sizes.TreeIndexRange` | external/malloc.c:1422-1433 | the tree-bin index of a size below 2^40 and the bin boundary macro (1494-1496) agree: the size lies in [minsize(i), minsize(i+1)) |
| `Sizes.TreeIndexExactly` | external/malloc.c:1422-1433 | for every tree-bin size, the two macros agree if and only if the size is below 2^40 or its shifted and narrowed value still reaches the last bin |
| `Sizes.TreeIndexMonotone` | external/malloc.c:1422-1433 | larger tree-bin index means larger size, so bins are ordered by size |
| `Sizes.WalkStart` | external/malloc.c:1489-1491 | the shifted size at the start of a trie walk is the size's offset in its bin, left-aligned in the word |
| `Sizes.WalkStep` | external/malloc.c:2255-2257 | the sign bit of the shifted size says in which half of the current size interval the size lies, and one more shift re-aligns the remaining bits |
| `Sizes.ChunkSizeFor` | external/malloc.c:815-820 | a padded request is a multiple of 16, at least a minimal chunk, holds the request and its overhead, and is small exactly when the request is |
| `Sizes.PaddedLeast` | external/malloc.c:815-820 | it is the least such size |
| `BinMaps.LeftBitsKeep` | external/malloc.c:1514-1517 | `left_bits` of a one-bit mask keeps exactly the map bits above it |
| `BinMaps.LeastIsLeast` | external/malloc.c:1514-1517 | `least_bit` is not above any bit of the map |
| `BinMaps.WordSearchHit` | external/malloc.c:3044-3050 | the bin found by masking with `left_bits` and taking `least_bit` is marked and lies above the request's bin |
| `BinMaps.WordSearch` | external/malloc.c:3044-3050 | no marked bin lies between the request's bin and the one found |
| `BinMaps.WordIsSet` | external/malloc.c:3044-3050 | the least bit of the map word masked by `left_bits` is the bit of the next marked index of the set the word stands for; the mask is empty exactly when there is none |
| `BinMaps.LeastIsFirst` | external/malloc.c:3091-3096 | the least bit of a whole map word is the bit of the first marked index |
| `Tries.LeftBelowRight` | external/malloc.c:953-964 | every size of a left subtree is below every size of the right one |
| `Searching.LeastIsMin` | external/malloc.c:997-997 | the smallest chunk of a trie lies on its leftmost path |
| `TreeBins.InsertFirst` | external/malloc.c:2239-2245 | the first chunk of an empty bin makes a one-node trie |
| `TreeBins.InsertLeaf` | external/malloc.c:2255-2264 | hanging a new leaf where the bit walk stopped keeps the trie rule and adds exactly that chunk |
| `TreeBins.InsertRing` | external/malloc.c:2266-2276 | a chunk whose size already has a node joins that node's ring; the trie keeps one node per size |
| `TreeBins.WalkStops` | external/malloc.c:2247-2258 | when the walk meets an empty child, no node of that size exists anywhere in the trie |
| `TreeBins.WalkDown` | external/malloc.c:2247-2258 | going down keeps the walk invariant and uses up one size bit, which bounds the loop |
| `Unlinking.UnlinkMember` | external/malloc.c:2303-2312 | unlinking a chunk chained behind a tree node changes only its ring |
| `Unlinking.HeadPlan` | external/malloc.c:2303-2312 | when the chunk in the tree has ring mates, the one behind it takes its place |
| `Unlinking.LeafPlan` | external/malloc.c:2314-2325 | the rightmost-descent leaf of the last chunk of a size, cut off its parent, can replace it |
| `Unlinking.UnlinkLeaf` | external/malloc.c:2326-2343 | removing the last chunk of a size at a leaf empties its slot or the bin |
| `Unlinking.Succeed` | external/malloc.c:2326-2366 | the replacement in place of the removed node: the trie rule holds, the root pointer and the parent's slot are right, and exactly one chunk is gone |
| `Unlinking.UnlinkCases` | external/malloc.c:2300-2325 | the link words of a binned chunk decide which of the four removal cases applies |
| `Bins.TreeInserted` | external/malloc.c:2232-2281 | the whole bin invariant (lists, tries, map bits, every free chunk in its own bin) after a tree insertion |
| `Bins.TreeRemoved` | external/malloc.c:2300-2369 | the same after a tree removal |
| `Bins.SmallInserted` | external/malloc.c:2154-2170 | the same after a small-bin insertion |
| `Bins.SmallRemoved` | external/malloc.c:2173-2215 | the same after a small-bin removal, cleared map bit included |
| `Searching.AheadStep` | external/malloc.c:3029-3041 | one step of the first search loop: nothing better than the candidate lies outside the subtree ahead and the kept right subtree |
| `Searching.AfterWalk` | external/malloc.c:3029-3043 | when that loop falls off the trie, the best fit of the bin is the candidate or the least of the kept subtree |
| `Searching.NodeStep` | external/malloc.c:3033-3041 | the pointer test `rt != 0 && rt != t` records exactly the right subtree that was not taken |
| `Searching.SearchNext` | external/malloc.c:3044-3053 | if the request's bin has no fit, the next marked bin holds the smallest fitting chunks |
| `Searching.RemainingStep` | external/malloc.c:3059-3066 | each step of the leftmost descent keeps the best fit in reach |
| `Heap.UseFront` | external/malloc.c:3074-3083 | splitting a free chunk keeps the boundary-tag heap: tiling, tags, no two adjacent free chunks |
| `Heap.UseWhole` | external/malloc.c:3075-3076 | the same when the whole free chunk is used |
| `Heap.UseTop` | external/malloc.c:4190-4200 | the same when the front of top is used |
| `Heap.FuseHeap` | external/malloc.c:4239-4312 | the same when a freed chunk is fused with its free neighbours |
| `Heap.FuseTop` | external/malloc.c:4271-4281 | the same when the fused block joins top |
| `Heap.BytesConserved` | external/malloc.c:2007-2040 | the chunk sizes from any chunk up to top add up to the distance to top |
| `Heap.PayloadsApart` | external/malloc.c:2007-2040 | payloads of two chunks share no byte and lie in the segment |
| `Heap.FreeNeighbours` | external/malloc.c:2007-2040 | both neighbours of a free chunk are in use |
| `Heap.OwnerOf` | external/malloc.c:2007-2040 | every address of the segment below top lies in a chunk |
| `Mspaces.IndexNarrows` | external/malloc.c:1422-1433 | an input: a chunk of 2^40 bytes is filed in bin 0, where a request of half the size does not look; `TreeIndexExactly` says which sizes are misfiled |
| `Mspaces.Mspace.constructor` | external/malloc.c:3992-4012 | a fresh mspace satisfies the invariant, with nothing in use |
| `Mspaces.Mspace.FreeChunk` | external/malloc.c:2007-2065 | a free chunk lies between chunks in use, and is the designated victim or else in exactly one bin, that of its size, whose map bit is set |
| `Mspaces.Mspace.InsertSmall` | external/malloc.c:2154-2170 | the chunk is put first in its small bin; the bin invariant holds |
| `Mspaces.Mspace.UnlinkSmall` | external/malloc.c:2173-2196 | exactly the chunk leaves its small bin |
| `Mspaces.Mspace.UnlinkFirstSmall` | external/malloc.c:2199-2215 | exactly the first chunk leaves the small bin |
| `Mspaces.Mspace.InsertLarge` | external/malloc.c:2232-2281 | exactly one chunk is added to the tree bins; the walk ends by remaining size bits |
| `Mspaces.Mspace.UnlinkLarge` | external/malloc.c:2300-2369 | exactly the given chunk is removed from the tree bins, in all four cases |
| `Mspaces.Mspace.FindLarge` | external/malloc.c:3020-3066 | the candidate is a smallest tree chunk that fits over all bins; none only when none fits |
| `Mspaces.Mspace.FindSmallest` | external/malloc.c:3091-3105 | the candidate is a smallest of all tree chunks |
| `Mspaces.Mspace.ReplaceDv` | external/malloc.c:2218-2227 | the old designated victim goes to its small bin and the new one takes its place |
| `Mspaces.Mspace.TmallocLarge` | external/malloc.c:3020-3088 | serves from a tree chunk of least size that fits; refuses, leaving everything alone, if and only if the designated victim fits and is no larger than any chunk that does, or nothing fits |
| `Mspaces.Mspace.TmallocSmall` | external/malloc.c:3091-3128 | serves a small request from a smallest of all tree chunks |
| `Mspaces.Mspace.Malloc` | external/malloc.c:4098-4210 | the reply is a new chunk, disjoint from all in use, big enough and wasting less than a minimal chunk. A binned chunk serves if one fits and the designated victim does not, or if one has exactly the size of a small request, or is smaller than the victim for a large one; it is then a best fit of all bins, in front of its small bin or in the tree. Else the victim serves if it fits, else top; NULL if and only if none of these can. What is left becomes the victim, or is binned for a large request. No size and no payload word of a chunk in use is written |
| `Supplies.BestOfAll` | external/malloc.c:3020-3088 | a large request takes a smallest of all free chunks that fit, the designated victim among them, and top only when none does |
| `Supplies.NothingFits` | external/malloc.c:4098-4210 | when nothing serves, every free chunk is too small |
| `Supplies.ExactBin` | external/malloc.c:4108-4125 | of the two small bins looked at first, the one marked holds exactly the size requested, since all sizes are multiples of 16 |
| `Supplies.NextIsBest` | external/malloc.c:4127-4151 | when neither is marked, the next marked small bin holds best fits of all bins |
| `Supplies.TreeIsBest` | external/malloc.c:4154-4157 | when no small bin serves, a smallest tree chunk is a best fit of all bins |
| `Mspaces.Mspace.Free` | external/malloc.c:4224-4323 | exactly the freed chunk is no longer in use. With the free chunks before and after it, it becomes one block: joined to top if it ends there, else the designated victim if that was part of it, else binned under its size; victim, top and bins are otherwise as before. The whole invariant holds, and no size and no payload word of a chunk that stays in use is written |
| `Mspaces.Mspace.Run` | external/malloc.c:4098-4323 | over any sequence of calls by valid callers the invariant holds; every reply is a chunk apart from all in use at that point and holding the request, or changes nothing; no call writes into a payload that stays in use; the chunks in use are exactly those handed out and not given back, and the segment keeps its extent |
| `Mspaces.HeldThroughout` | external/malloc.c:4098-4323 | from any point of a run to a later one, a chunk in use all the while keeps its size and every word of its payload |
| `Heap.PayloadsMissed` | external/malloc.c:2007-2040 | tag words written only at chunk boundaries and link words written only in binned chunks miss every payload that stays in use |
| `Ranges.NormalUnique` | range_tree/dtree.c:208-271 | normal form is canonical: two normal lists covering the same bytes have the same ranges |
| `Ranges.CutIsIntersection` | range_tree/dtree.c:95-123 | `overlap` finds common bytes exactly when there are any, and returns the intersection |
| `Splays.LinkRight` | range_tree/dtree.c:81-82 | one link-right step keeps the three trees of the splay apart, spelled out in memory, and their ranges in order |
| `Splays.RotateRight` | range_tree/dtree.c:78-80 | the rotation keeps nodes and in-order ranges |
| `Splays.Finish` | range_tree/dtree.c:91-92 | closing both side trees gives one tree with the same nodes and ranges |
| `Splays.SplayNeighbour` | range_tree/dtree.c:70-93 | the splayed root holds the key, or is its immediate predecessor or successor |
| `Halving.SplayHalves` | range_tree/dtree.c:70-93 | splaying halves the way searched: for every tree and key, the height afterwards is at most half the number of nodes visited, plus the height of the highest subtree beside them, plus two |
| `RangeMaps.RangeMap.Splay` | range_tree/dtree.c:70-93 | ends; same nodes, same in-order ranges, other memory untouched; the root is the last node of the search path, smaller bases left of it and larger ones right |
| `Coalesce.LeftTakes` | range_tree/dtree.c:160-168 | absorbing a left neighbour: nothing lies to its right and nothing further left is reached |
| `Coalesce.RightTakes` | range_tree/dtree.c:180-189 | absorbing a right neighbour takes all ranges left of it, and its end when larger |
| `Coalesce.AddedCovers` | range_tree/dtree.c:208-271 | an added range adds its bytes; lost are exactly the bytes from its end to the left neighbour's end when the root is a successor that it does not touch |
| `Coalesce.LossyExactly` | range_tree/dtree.c:151-191 | the covered set is old plus new if and only if that case does not arise |
| `Coalesce.AddedNormal` | range_tree/dtree.c:208-271 | normal form is kept, lossy or not |
| `Coalesce.AddedRecords` | range_tree/dtree.c:208-271 | the range that holds the new start carries the record of the splayed root when that was expanded, and the new record otherwise; every other range is an old one |
| `RangeMaps.RangeMap.AbsorbLeft` | range_tree/dtree.c:151-170 | the memory ends up with exactly the kept ranges; absorbed nodes are freed and counted off |
| `RangeMaps.RangeMap.AbsorbRight` | range_tree/dtree.c:172-191 | the same on the right |
| `RangeMaps.RangeMap.AddRange` | range_tree/dtree.c:208-271 | the new list is the coalesced list for the splayed root, normal, with an exact node count and no node leaked; a range beyond all others is appended |
| `RangeMaps.RangeMap.LosesTail` | range_tree/dtree.c:160-162 | adding [20,25), [0,10), [3,5) leaves [0,5) and [20,25): five bytes are gone |
| `RangeMaps.RangeMap.Contains` | range_tree/dtree.c:415-438 | a node is returned exactly when some range holds the address, and it is that range's node |
| `RangeMaps.RangeMap.SubtreeOverlaps` | range_tree/dtree.c:284-302 | the recursive search finds what a linear scan finds |
| `RangeMaps.RangeMap.Overlaps` | range_tree/dtree.c:306-316 | the query's overlap with the lowest overlapping range, as a linear scan gives it |
| `Scans.ScanBytes` | range_tree/dtree.c:304-316 | no byte of the query below the overlap found is covered; none at all when nothing is found |
| `RangeMaps.RangeMap.ToArray` | range_tree/dtree.c:50-66 | the array is the in-order list of ranges |
| `RangeMaps.RangeMap.Intersect` | range_tree/dtree.c:318-345 | exactly the bytes in both maps, in normal form, each piece inside an old range with that range's record; a map intersected with itself ends empty |
| `RangeMaps.RangeMap.Union` | range_tree/dtree.c:347-365 | all bytes of the other map, nothing foreign; nothing is lost if and only if no range, as they are added, meets the lossy case of an addition, which a range does only when it lies strictly inside what was there; an empty map receives an exact copy |
| `SetOps.FateStep` | range_tree/dtree.c:347-365 | a lossy addition in a union loses a byte that no later range brings back |
| `RangeMaps.RangeMap.AddOutside` | range_tree/dtree.c:383-406 | the second half of a subtraction: exactly the parts of the ranges outside the copy |
| `RangeMaps.RangeMap.AddWithin` | range_tree/dtree.c:328-341 | the second half of an intersection: exactly the parts of the ranges inside the other map |
| `RangeMaps.RangeMap.Clone` | range_tree/dtree.c:367-372 | an exact copy of the ranges and records |
| `RangeMaps.RangeMap.Subtract` | range_tree/dtree.c:374-413 | exactly the bytes not in the other map, in normal form, each piece with its old range's record |
| `RangeMaps.RangeMap.RemoveNode` | range_tree/dtree.c:478-494 | exactly the node with the given base goes |
| `RangeMaps.RangeMap.Clear` | range_tree/dtree.c:496-500 | every node is freed |
| `Conflicts.CheckForOverlap` | bop_merge.c:91-159 | returns the start of the first overlap that is not admitted, 0 for none; the maps keep their ranges |
| `Conflicts.CheckExactly` | bop_merge.c:91-159 | with no receives, 0 is returned exactly when no accessed byte is in the union, except that a conflict on byte 0 also reads as 0 |
| `Conflicts.ConflictExactly` | bop_merge.c:91-159 | the answer is the first byte written before of the first access range that is not excused; 0 when all are |
| `Conflicts.ConflictIsFirst` | bop_merge.c:89-159 | with no receives, it is the first of all accessed bytes that were written before |
| `Conflicts.AcceptedExactly` | bop_merge.c:91-156 | with receives, the check passes if and only if each access shares no byte with the union or is one whole range of it, received from its last writer |
| `Merge.UnionWrites` | bop_merge.c:161-178 | the union covers the old bytes and the task's writes; ranges that fit the others always go in and keep the union disjoint, under the latest task |
| `Merge.PprIsCorrect` | bop_merge.c:166-185 | passes exactly when the check finds no conflict (writes fitting), and then has recorded the writes; a conflict leaves the union as it was |
| `Patches.PatchRoundTrip` | bop_merge.c:193-222 | a patch made from a map and applied to any memory puts the written bytes there as they were and touches nothing else |
| `Patches.CreatePatch` | bop_merge.c:203-215 | the patch holds each range with its bytes; no ranges are merged away from their buffers |
| `Patches.ApplyPatch` | bop_merge.c:217-229 | the patch's buffers are copied in, in order, and the patch is emptied |
| `Merge.GroupCommit` | bop_merge.c:247-263 | the patches of tasks 0 to the last are applied in order and emptied |
| `Tasks.CommittedByte` | bop_merge.c:247-255 | a committed byte is the one its last writer left |
| `Tasks.GroupCommitIsSequential` | bop_merge.c:166-255 | if no task read what an earlier one wrote, the patches applied in order give the memory of running the tasks one after another |
| `Merge.CommitGroup` | bop_merge.c:91-255 | checking, recording, publishing and committing: the committed tasks are the longest prefix of which no task read what an earlier one wrote, and memory is as if they had run one after another |
| `Tasks.LastTaskExactly` | bop_ppr.c:364-377 | with no patch from the last task, the committed memory is the sequential one if and only if on bytes also written earlier the latest earlier writer left the same value |
| `Tasks.LeftoverExactly` | bop_merge.c:247-263 | the same when the last slot still holds any other patch, which is applied last: the result is sequential if and only if that patch agrees with what the tasks wrote and, outside it, the overwritten bytes agree |
| `Merge.LastSlotExactly` | bop_merge.c:247-263 | the same for the patch array, whatever its last slot holds, applied to the memory of the last task |
| `Merge.LastSlotEmpty` | bop_ppr.c:364-377 | with an empty last slot only the overwritten bytes matter |
| `Tasks.LastStoreLost` | bop_ppr.c:364-377 | two conflict-free tasks for which it is not: the last store is overwritten by the earlier patch |
| `Tasks.LastPublished` | bop_ppr.c:364-377 | when the group shrank to a task that had published, all patches applied to its memory give the sequential result without a condition |
| `Merge.LastSlotFilled` | bop_ppr.c:364-377 | the same for the patch array with its last slot filled |
| `TaskRanges.AddRangeFromTask` | postwait.c:247-316 | the outcome is decided by the splayed tree, whose root is the range where the search for the new start ends: abort if and only if the new range overlaps the root or its left child and the root has another extent; replaced or dropped, by the later task, if and only if the root has the same extent; a failed assertion if and only if, without these overlaps, a root that starts before has a right child reached by the new range; linked in place otherwise |
| `TaskRanges.OverlookedExactly` | postwait.c:266-297 | a range is linked although a stored one overlaps it if and only if the nearest range on the side away from the root reaches it |
| `TaskRanges.Overlooks` | postwait.c:266-297 | an input: after [10,11), [20,21), [30,31) and [40,41), the range [12,25) is linked |
| `Records.RecordedOrder` | postwait.c:266-313 | order is kept, and disjoint ranges stay disjoint exactly when the new range has no byte in common with one of another extent |
| `Records.RecordedCovers` | postwait.c:266-313 | no byte is lost and none invented, disjoint or not |
| `Records.StoredStep` | postwait.c:266-313 | a range that fits all received ones always succeeds, and each stored record is again that of the highest task |
| `Records.OrderIrrelevant` | postwait.c:299-313 | what is stored does not depend on the order of insertion, when no task sends two versions of a range |
| `Receives.ReceiveRange` | postwait.c:346-352 | the record approved is copied in, whatever else was received; memory holds the stored record on received bytes and the start memory elsewhere |
| `Receives.ReceiveOrderIrrelevant` | postwait.c:346-352 | receives in any two orders leave the same ranges and the same memory |
| `Chains.JoinedChained` | postwait.c:174-193 | joining two pieces gives one acyclic list, every member pointing to the first, and no other chain changes |
| `Chains.ConnectEndsExactly` | postwait.c:181-193 | the loop over the new chain meets a null pointer if and only if the two chains differ |
| `Chains.LoopIsWalk` | postwait.c:189-192 | after any number of turns the loop has changed no next pointer and stands where following the old pointers leads |
| `Chains.SelfJoinNeverEnds` | postwait.c:181-193 | with the last member linked to the first, following the pointers stays in the chain for ever |
| `Chains.JoinedFlags` | postwait.c:181-193 | all members of two joined chains carry the flag if and only if all members of the head chain but its last carried it before |
| `Chains.JoinedFlagsExactly` | postwait.c:181-193 | when each chain has one flag throughout, joining marks every member with either flag if and only if the head chain has one member, or is posted, or the other is not |
| `Chains.FirstMissed` | postwait.c:181-193 | an input: a chain of two joined with a posted one leaves its first member unmarked, though the chain is posted |
| `Postwait.Switchboard.Connect` | postwait.c:181-193 | ends for different chains; the exact new records, posted flags included: only the head chain's last member and the new members get the flag |
| `Postwait.Switchboard.GetChannel` | postwait.c:164-172 | the slot is claimed, or refused to another id |
| `Postwait.Switchboard.Chain` | postwait.c:195-219 | the leading chain followed by the other, or one chain of one; the chains invariant is kept |
| `Postwait.Switchboard.Post` | postwait.c:115-160 | when accepted, the old writes are split exactly into the channel's data and the remaining writes, the data are the bytes in memory, and all channels of the chain are marked posted; a refused post changes no data, no flag and no writes |
| `Postwait.Switchboard.MarkAll` | postwait.c:146-154 | exactly the members of the chain are marked posted |
| `Postwait.PostConserves` | postwait.c:115-160 | copying in the remaining patch and the posted data gives what the old patch alone would have given |
| `Postwait.NoOverlap` | postwait.c:328-344 | true exactly when the two maps share no byte |
| `Postwait.Wait` | postwait.c:361-392 | an unchained channel is received itself; of a chain, the first member with data, and nothing was posted if and only if no member has any. It is received unless one of its bytes was accessed before; memory and received set as after those receives |
| `Postwait.JoinedFilled` | postwait.c:371-378 | after two chains are joined, who waits gets what the leading chain holds first, and what the other holds first only when the leading one is empty |
| `SyncRecords.SyncData.Reset` | bop_ppr_sync.c:56-74 | all locks taken and the whole group size: the initial state of the protocol |
| `SyncRecords.SyncData.SetPartialSize` | bop_ppr_sync.c:37-45 | run alone, it is the protocol's atomic size step |
| `SyncRecords.SyncData.SignalCheckDone` | bop_ppr_sync.c:122-125 | it is the protocol's signalling step |
| `SyncRecords.SyncData.SignalCommitDone` | bop_ppr_sync.c:127-130 | it is the protocol's commit signal |
| `SyncRecords.SyncData.TakePriorCheck` | bop_ppr_sync.c:132-135 | the acquire is the protocol's step into the check |
| `CommitProtocol.ChecksAlways` | bop_ppr.c:302-316 | in every run, checks begin in order, each after the one before was signalled, and one lock at most is free for the next task; a task that dies recording its writes lets none pass |
| `CommitProtocol.OneCheckAtATime` | bop_ppr_sync.c:122-135 | in every run at most one task is checking; all before it are done and none after it has begun; the union it reads holds the writes of exactly the earlier tasks that passed |
| `CommitProtocol.UnionHoldsPassed` | bop_ppr_sync.c:122-135 | of the tasks whose check was signalled, the union holds exactly those that passed |
| `CommitProtocol.SizeNeverGrows` | bop_ppr_sync.c:37-45 | with an atomic test and set the partial size never grows along a run |
| `CommitProtocol.SizeGrowsExactly` | bop_ppr_sync.c:37-45 | some run makes the size grow if and only if the test is outside the lock and the group has at least three tasks |
| `CommitProtocol.SizeCanGrow` | bop_ppr_sync.c:40-44 | the run, for every such group |
| `CommitProtocol.LateTaskLeaves` | bop_ppr.c:352-362 | with an atomic size, a task whose region ends after the group shrank below it begins no check and adds nothing to the union in any continuation |
| `GroupCommits.CommitsAlways` | bop_ppr.c:208-225 | in every run, whether the size is set in one step or not: a signalled commit lock means a published patch, a committed group, or a failed task and a shrunk group |
| `Locks.LocksAlways` | bop_ppr_sync.c:127-148 | in every run a commit lock that was signalled is free, or is held by the task before, which is about to give it back, or by a task that took it for the group |
| `GoodRuns.GroupIsCommitted` | bop_ppr.c:208-225 | for all n and 2 <= z <= n some run of a group of n commits exactly its first z tasks: all of them passed, all but the last published and have seen the next one commit, and task z, if there is one, failed and shrank the group |
| `GroupCommits.WholeGroupExactly` | bop_ppr_sync.c:137-148 | with an atomic size, when task k has waited for the group: all tasks up to k passed their checks if and only if the size is still k+1, and then all below k published |
| `GroupCommits.SoundGroup` | bop_ppr_sync.c:137-148 | in every run of the code as written, a group of its full size or of at most two tasks, once waited for, has all checks passed and all patches below its last task published; with an atomic size every group has |
| `BadRuns.FailureCommitsExactly` | bop_ppr_sync.c:37-45 | some run lets a task wait for a group that ends with it over a failed check if and only if the size is tested outside the lock, as in the code, and the group has at least four tasks |
| `GroupCommits.VerdictsAlways` | bop_ppr.c:208-225 | in every run, whether the size is set in one step or not: a committing task whose group shrank below itself shrank to a task that failed, and one that waited without all locks below itself has a failed task below |
| `Committers.CommittersApart` | bop_ppr.c:309-312 | in every run with an atomic size: of two tasks that decided to commit the group, the task right after the first failed its check and lies between them |
| `Committers.OneCommits` | bop_ppr.c:208-225 | in a group of at most four tasks no two tasks commit, however the size is set |
| `BadRuns.DoubleCommit` | bop_ppr.c:309-312 | for every group of at least five tasks, a run in which two commit, with an atomic size even |
| `BadRuns.TwoCommitExactly` | bop_ppr.c:208-225 | some run lets two tasks commit the group if and only if it has at least five tasks, however the size is set |
| `BadRuns.AtomicIsOneOf` | bop_ppr_sync.c:37-45 | whatever a run with an atomic size reaches, a run of the code as written reaches |
| `GroupOutcome.CommittedGroup` | bop_ppr.c:352-379 | in every run, a group waited for by its last task leaves the sequential memory: always when that task had published, and otherwise exactly when the patch found in its slot, which may be one left by an earlier group, and its overwritten bytes agree. It covers, for the code as written, groups that end at their full size or with at most two tasks, and with an atomic size every group; beyond that it fails from four tasks on (`FailureCommitsExactly`). A check need only cover the tasks whose writes are in the union |

## Left out

- Running out of memory: `sys_alloc`, `sys_trim`, mmap, several segments, memalign, `ialloc`, bulk free and statistics make system calls or add bulk. Where `mspace_malloc` would call `sys_alloc` the model answers NULL and leaves the state alone.
- Corruption detection (`RTCHECK`, `magic`, footer checks): callers are taken to be valid.
- Mspaces.Mspace.Malloc: holds for segments smaller than 2^40 bytes, at any address, because larger chunks can be misfiled (`TreeIndexExactly`); addresses are naturals, without wrap-around.
- Mspaces.Mspace.Free: does not model the trim and release checks that follow, because they make system calls.
- Sizes.TreeIndexMonotone: is stated below 2^40, where bins are ordered by size.
- BinMaps.WordIsSet: the class keeps a bin map as the set of its marked indices; that the word tricks find what the set search finds is this lemma. `compute_bit2idx` is taken to return the index of a single bit.
- Header words: size, in-use bits and footers of a chunk are separate records, not packed words. Link words are records at chunk addresses, arbitrary when a chunk is binned, since user data overlays them; that no call writes such a word inside a payload in use is part of `Malloc` and `Free`.
- RangeMaps.RangeMap.AddRange: addresses are naturals, without wrap-around of base plus size, and nodes come from a bump allocator in place of an mspace.
- TaskRanges.AddRangeFromTask: after an abort or a failed assertion nothing is promised, because the process ends there.
- Conflicts.CheckForOverlap: does not record the received ranges it accepts in `received_n_used`, nor `conflict_addr`; the modify-after-post check that uses them is not modelled.
- Merge.CommitGroup: takes the recorded maps as given, with no address 0 among the reads and with the tasks' write ranges pairwise equal or disjoint. The code promises no such thing: write maps are in normal form, so neighbouring pages coalesce and two tasks' ranges can overlap without being equal; then recording them aborts, or goes undetected. `GroupCommitIsSequential` does not need it. Receives are not mixed in. Every task publishes here; that the last task of a full group does not is `LastTaskExactly`.
- Patches.CreatePatch: memory is a total function of addresses, every address mapped.
- Postwait.Wait: starts when the post has come; the spinning wait is not modelled. A channel's data is the list of ranges of its patch map.
- CommitProtocol.OneCheckAtATime: locks are acquired and released in one step each, and nothing is said about progress; only a parallel run is modelled.
- GroupCommits.WholeGroupExactly: the modify-after-post check, which can abort a task inside `data_commit` after its check passed, is not among the steps; with it a group could shrink without a failed check.
- CommitProtocol.UnionHoldsPassed: `spec_correct` starts unset; the code leaves the values of the group before and never reads them.
- fork, signals, process groups, the monitor process, the understudy race and the exits that follow a commit are operating-system behaviour.
- `ppr_group_set_size` and its reallocation of the slots, and the two understudy locks.
- `ary_bitmap.c`: word-wise marking and scanning of access bits; its address arithmetic and loops would add easy members only.
- Hash maps (`map_add_key_val`, `map_search_key`), `map_size_in_bytes`, `map_inspect` and `map_range_to_array` of the range map.
- Key-value checks, I/O hooks, port dispatch and logging.
