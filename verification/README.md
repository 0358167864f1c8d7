# Verified models of radare's in-memory engines

radare is a hex editor and reverse-engineering shell written in C. This project models the layer of data
structures under its commands, in Dafny, and proves what they keep over whole runs. Functions that change
lists, trees, arrays and counters in place are methods on heap objects here, proved against functions on
plain values; the properties are lemmas about those functions.

| file | models |
|---|---|
| `Lists.dfy`, `ListSort.dfy` | the intrusive circular list of `src/list.h`, at the level of its pointers, and the in-place sort that `src/ranges.c` and `src/trace.c` both contain |
| `Ranges.dfy`, `RangeSub.dfy`, `RangeOrder.dfy`, `RangeGaps.dfy`, `RangeRuns.dfy`, `RangeSet.dfy` | the address-range set of `src/ranges.c`: values, subtraction and the order it leaves, size and gap report, whole runs, and the list code itself |
| `UndoTheory.dfy`, `WriteUndo.dfy` | the write-undo log of `src/undo.c` over the reads and writes of `src/rio.c` |
| `SeekHistory.dfy` | the seek history of `src/undo.c` |
| `BTree.dfy` | the search tree with hit counters of `src/btree.c` |
| `CodeDecode.dfy`, `CodeWalk.dfy`, `CodeBlocks.dfy`, `BlockSplit.dfy`, `BlockEdges.dfy` | the decoding loop and the code-block walk of `src/analyze.c`, the block store and split of `src/rdb.c`, and what a split does to edges and paths |
| `TraceAdds.dfy`, `TraceRuns.dfy`, `TraceList.dfy` | the trace list of `src/trace.c`: what whole runs of adds leave in it, the ranges it shows, and the list code itself |
| `FlagScan.dfy`, `FlagLookup.dfy` | the cached nearest-flag search of `src/flags.c` |
| `Gsm7.dfy`, `Base64.dfy`, `HexPairs.dfy` | the codecs of `src/print.c`, `src/b64.c` and `src/utils.c` |
| `Bits.dfy`, `Machine.dfy`, `Collections.dfy` | shifts and bitwise or on natural numbers; 64-bit addresses and bytes; small facts about sets and sequences |

Addresses are numbers from 0 to 2^64 - 1. Sums that the C code lets wrap around are written with the
remainder (`ranges_size`, the end of a block). A list is described by its ring: the nodes met when following
`next` once around. The decoder `arch_aop` is an arbitrary function from addresses to opcodes.

## What is proved, in short

- One pass of `ranges_merge`, over a list in any order, keeps the covered addresses and leaves no two different
  ranges that overlap or touch. The sort terminates and sorts although it relinks nodes while two walks hold
  saved successors. For any list, merged or not and sorted or not, it is said exactly when the reported gaps are the
  uncovered addresses.
- After any run of logged writes, single undos and redos and undo-all and redo-all, undo-all restores the file as it
  was when the log was empty, although repeated writes are not logged. Undoing the k newest entries in turn gives the file
  before the last k writes that were logged.
- The 64-slot seek history is a window on an unbounded undo/redo history.
- Removing and adding in the search tree act on its sorted sequence, by pointer updates on the same nodes.
- A block is made of the opcodes that the decoder finds one behind the other, and its edges, calls and kind follow from
  them. The depth-bounded walk of the code graph is described exactly. Splitting blocks keeps the byte image and
  reduces the number of overlaps; it is said exactly when it keeps the edges and paths between blocks.
- After any run of trace adds every address has one trace, which sums up its adds.
- The cached flag search agrees with the plain one exactly on the runs that never ask for a named section again after a
  query below all flags has cleared it.
- Packing 7-bit characters keeps the number that the text stands for, so it is injective; base64 and hex pairs
  are read back.

## Where the code does not do what it seems to promise

For each of these a lemma says, for all inputs, when the code does meet the property, and another one gives a
concrete input on which it fails.

| property | holds if and only if | fails on |
|---|---|---|
| `ranges_sub` takes away a nonempty range and nothing else | `RangeSub.SubExact` | `RangeSub.SubMisses` |
| `ranges_sub` raises the changed flag when it unsorts the list | `RangeOrder.SubLosesOrder`, for runs `RangeRuns.RunKeepsSorted` | `RangeSub.SubUnsorts`, for runs `RangeRuns.RunLosesOrder` |
| `ranges_size` bounds or equals the number of covered addresses | `RangeGaps.SizeExactly` | `RangeGaps.SizeMiscounts` |
| `ranges_boolean` reports the uncovered addresses | `RangeGaps.ReportExactly`; on a sorted list `RangeGaps.ReportOfSorted`; on a merged and sorted one `RangeGaps.GapsExact` | `RangeGaps.GapsMisreport`, unmerged `RangeGaps.UnmergedMisreport`, unsorted `RangeGaps.UnsortedMisreport` |
| undoing the newest entry takes back the last write | `UndoTheory.UndoLastExactly` | `UndoTheory.UndoLastMisses` |
| undo-all and then redo-all lead back | `UndoTheory.RedoAfterUndo` | `UndoTheory.RedoAllReverses` |
| the code walk finds every block that is near enough to the start | `CodeWalk.WalkNearComplete`, a condition on the blocks that the walk made last; `CodeWalk.WalkEvenDepths`, on the graph alone, is sufficient only | `CodeWalk.DepthFirstMisses` |
| `CodeDecode.ScanMeaning` | src/analyze.c:357-390 | from any offset, the decoding loop stops behind the first opcode that ends the block or fills it, or in front of one that cannot be decoded |
| `CodeDecode.BlockMeaning` | src/analyze.c:344-413 | the block that belongs at an address consists of adjoining opcodes of which only the last one may end it; its bytes, edges, kind and calls are those that the decoder says, also for pushes that are followed |
| `CodeDecode.ConditionalJump` | src/analyze.c:402-403 | a conditional jump: the first edge is the jump, the second one goes on behind it |
| splitting a block leaves the covered addresses alone | `BlockSplit.SplitKeepsCoverage` | `BlockSplit.SplitUncovers` |
| splitting a block keeps the edges between blocks, or the paths | `BlockEdges.SplitKeepsEdges`, `BlockEdges.SplitKeepsPaths` | `BlockEdges.SplitLosesEdge` |
| the output buffers of the base64 loops are large enough | `Base64.OutputRoom` | lengths of 1, with a NUL also of 0, 2 and 4 |
| the base64 text depends on the data only | `Base64.CanonicalExactly` | `Base64.LooksBehind` |
| `trace_show` shows every traced address | `TraceRuns.ShownExactly` | `TraceRuns.UntaggedHides`, `TraceRuns.EmptyOpcodeHides` |
| `trace_show` shows the traced opcodes whole | `TraceRuns.UnionExactly`, `TraceRuns.ShownIsUnion` | `TraceRuns.OverlapCutsRun` |
| a trace added or hit under a tag is found under it | `TraceAdds.OwnTagMissed`: only if it was before | every new trace |
| the cached flag search agrees with the plain one | `FlagScan.CacheExactly` | `FlagScan.CacheSpoils` |

## Model

| member | source | states |
|---|---|---|
| `Lists.LinkBetween` | src/list.h:34-42 | a node is linked between two consecutive nodes by four pointer updates |
| `Lists.ListAdd` | src/list.h:52-55 | the ring with the node put in right behind the head, which may stand anywhere |
| `Lists.ListAddTail` | src/list.h:65-68 | the ring with the node put in right in front of the head |
| `Lists.Unlink` | src/list.h:77-81 | the other nodes form the ring without the node |
| `Lists.ListDel` | src/list.h:88-93 | the ring without the node, whose own pointers are cleared |
| `Lists.ListDelInit` | src/list.h:99-103 | the ring without the node, which becomes a ring of its own |
| `Lists.ListMove` | src/list.h:110-114 | the node leaves its ring and stands behind another node, of the same ring or of another one |
| `Lists.ListEmpty` | src/list.h:131-134 | true exactly for a ring that is only its head |
| `Lists.Splice` | src/list.h:136-147 | the entries of one ring stand behind the head of the other, in order, and the spliced head is outside |
| `Lists.ListSplice` | src/list.h:154-158 | as Splice; splicing an empty list changes nothing |
| `Lists.ListSpliceInit` | src/list.h:167-174 | as ListSplice, and the spliced list is left empty |
| `ListSort.Visit` | src/ranges.c:311-317 | one visit of the inner walk keeps its invariant, wherever the moved node and the saved successor stand |
| `ListSort.MovePass` | src/ranges.c:311-317 | a whole inner walk moves the node behind the nodes with smaller keys and nothing else |
| `ListSort.SettledAfterPass` | src/ranges.c:309-318 | after its pass a node has only keys of at least its own behind it, and so keep all visited nodes |
| `ListSort.VisitedStays` | src/ranges.c:309-318 | a node visited again never moves towards the end, which is why the outer walk terminates |
| `ListSort.SortByKey` | src/ranges.c:309-320 | the sort terminates with a ring of the same nodes in key order, and reports a change exactly if not all keys are equal |
| `Ranges.ExtendIsHull` | src/ranges.c:187-216 | for a touching range, whichever of the five cases applies, the result is the hull of the two ranges, and for others nothing changes |
| `Ranges.AddKeepsOrdered` | src/ranges.c:176-226 | `from <= to` is kept on every range |
| `Ranges.AddCovers` | src/ranges.c:176-226 | with rw set the covered addresses are the old ones and the new range, in either order of its ends |
| `Ranges.ExtendAllKeepsSorted` | src/ranges.c:187-216 | extending in place keeps a sorted list sorted, so that the flag need not be raised |
| `Ranges.AbsorbNext` | src/ranges.c:283-286 | one turn of the merge: whatever touches a processed range includes it |
| `Ranges.MergeFromAbsorbs` | src/ranges.c:276-288 | the closure argument over the rest of the walk |
| `Ranges.MergeSeparates` | src/ranges.c:276-288 | one merge pass keeps the covered addresses, and ranges that overlap or touch afterwards are the same range |
| `Ranges.MergeFromKeepsSorted` | src/ranges.c:276-288 | merging keeps a sorted list sorted |
| `RangeGaps.SizeBoundsCoverage` | src/ranges.c:84-99 | the sum before it wraps around bounds the number of covered addresses from above and equals it exactly for disjoint ranges |
| `RangeGaps.SizeExactly` | src/ranges.c:84-99 | the 64-bit size bounds the number of covered addresses exactly if that number and the excess, less whole wraps, stay below 2^64, and equals it exactly if the excess is a number of whole wraps |
| `RangeGaps.SizeWithoutWrap` | src/ranges.c:84-99 | if the sum is below 2^64, and only then, the size is the sum, with its bound and its equality |
| `RangeGaps.SizeMiscounts` | src/ranges.c:84-99 | two overlapping ranges whose size is below the number of covered addresses |
| `RangeGaps.SizeOfDisjoint` | src/ranges.c:84-99 | for disjoint ranges the 64-bit sum does not wrap around |
| `RangeGaps.ReportExactly` | src/ranges.c:490-527 | on any list the reported gaps are the uncovered addresses if and only if the start is uncovered, every skipped range ends at an uncovered address, and no later range reaches back into a gap |
| `RangeGaps.ReportOfSorted` | src/ranges.c:490-527 | on a sorted list that need not be merged: if and only if the start is uncovered and every skipped range ends at an uncovered address |
| `RangeGaps.GapsExact` | src/ranges.c:490-527 | on a merged and sorted list: if and only if the start is uncovered or nothing was asked for |
| `RangeGaps.GapsMissNothing` | src/ranges.c:490-527 | no uncovered address is missed, on any list |
| `RangeGaps.GapsAscend` | src/ranges.c:490-527 | gaps are nonempty, ascending and disjoint, on any list |
| `RangeGaps.GapsTotal` | src/ranges.c:490-527 | the printed total and the number of covered addresses add up to the width of the report, exactly when the report is right |
| `RangeGaps.GapsMisreport` | src/ranges.c:490-527 | a report that starts inside a range |
| `RangeGaps.UnmergedMisreport` | src/ranges.c:490-527 | a sorted list that was not merged, of which a covered address is reported |
| `RangeGaps.UnsortedMisreport` | src/ranges.c:490-527 | a list that was not sorted, of which a covered address is reported |
| `RangeSub.SplitFewerStraddlers` | src/ranges.c:266-269 | a split leaves fewer ranges that stick out on both sides, which makes `goto __reloop` terminate |
| `RangeSub.SubFromWithin` | src/ranges.c:237-273 | subtracting never covers a new address and keeps ranges ordered |
| `RangeSub.SubFromDone` | src/ranges.c:237-273 | in the end none of the four cases applies to any range |
| `RangeSub.SubExact` | src/ranges.c:237-273 | the subtraction of a nonempty range is exact if and only if no stored range that reaches into it starts where it starts, ends where it ends or sticks out on both sides |
| `RangeSub.SubPoint` | src/ranges.c:237-273 | what subtracting an empty range does to every address |
| `RangeSub.SubMisses` | src/ranges.c:237-273 | a range with the same start from which nothing is taken away |
| `RangeSub.SubUnsorts` | src/ranges.c:237-273 | a sorted list that subtracting leaves unsorted and as long as it was |
| `RangeOrder.SplitStaysSorted` | src/ranges.c:266-270 | in a sorted list a split comes before any other change of a start, and the order is kept |
| `RangeOrder.SubLosesOrder` | src/ranges.c:237-273 | a sorted list loses its order without losing a range exactly if nothing is split or deleted and a range cut at its head stands before one that ends exactly at the end of what is taken away |
| `RangeSet.RangeList.Get` | src/ranges.c:67-82 | the first range that contains the address, null exactly if it is not covered |
| `RangeSet.RangeList.Size` | src/ranges.c:84-99 | the sum of the lengths modulo 2^64 |
| `RangeSet.RangeList.Add` | src/ranges.c:176-226 | the stored list is the one of Ranges.Add; the flag is raised exactly when a range is appended |
| `RangeSet.RangeList.Merge` | src/ranges.c:276-288 | the stored list is the one of Ranges.Merge, on the same nodes |
| `RangeSet.RangeList.Sort` | src/ranges.c:301-321 | the same nodes, sorted if the flag was set; the flag then says whether the starts differ |
| `RangeSet.RangeList.SubEntry` | src/ranges.c:247-270 | one round of the subtraction, with the measure that falls when it restarts |
| `RangeSet.RangeList.Sub` | src/ranges.c:237-273 | the restarting loop terminates with the list of RangeSub.Sub |
| `RangeSet.RangeList.Boolean` | src/ranges.c:490-527 | sorts, then reports the gaps and their total |
| `RangeRuns.RunKeepsSorted` | src/ranges.c:176-321 | over any run of adds, merges, sorts and subtractions a clear flag always means that the list is sorted, if and only if no subtraction on a clear flag loses the order |
| `RangeRuns.RunWithoutSubKeepsSorted` | src/ranges.c:176-321 | in particular without subtractions |
| `RangeRuns.RunKeepsOrdered` | src/ranges.c:176-321 | `from <= to` on every range over any such run |
| `RangeRuns.RunLosesOrder` | src/ranges.c:176-321 | a run of five commands from the empty list that ends unsorted with a clear flag |
| `RangeRuns.OverlapsArise` | src/ranges.c:176-226 | the overlapping ranges of the two counterexamples above arise from three adds each |
| `RangeRuns.ReportAfterMergeAndSort` | src/ranges.c:276-527 | merge, sort and report together are exact, if and only if the start is uncovered |
| `UndoTheory.UndoAllForgets` | src/undo.c:188-200 | undoing everything gives the same file from any two files that differ at logged addresses only |
| `UndoTheory.WriteRecovers` | src/undo.c:94-127 | a logged write, recorded or dropped as a repetition, does not change what undo-all leads to |
| `UndoTheory.SetRecovers` | src/undo.c:202-219 | nor does a single undo or redo |
| `UndoTheory.SetAllRecovers` | src/undo.c:188-200 | nor does undo-all or redo-all |
| `UndoTheory.UndoAllRestores` | src/undo.c:94-219 | after any run of these commands undo-all restores the file at the last clear |
| `UndoTheory.SetBytes` | src/undo.c:174-219 | a single undo (redo) puts the old (new) bytes of the n-th newest entry where it wrote, and changes no other byte and nothing of the log but that entry's flag |
| `UndoTheory.UndoLast` | src/undo.c:94-219 | after a write that is logged, undoing the newest entry leads back to the file before, and redoing it forth again |
| `UndoTheory.UndoLastExactly` | src/undo.c:94-219 | after any write, undoing the newest entry leads back if and only if the write was logged, or changed nothing besides the newest entry, whose old bytes the file held |
| `UndoTheory.UndoTurnsBack` | src/undo.c:94-219 | after a run of writes without repetitions, undoing the k newest entries in turn gives the file before the last k writes |
| `UndoTheory.UndoLastMisses` | src/undo.c:94-219 | a dropped repetition, after which the undo takes back an older write |
| `UndoTheory.UnloggedWrite` | src/undo.c:103-104 | a write past the log is undone if and only if it changes logged addresses only |
| `UndoTheory.RedoAllExact` | src/undo.c:188-200 | redo-all leads from a file to any later one if and only if the later one holds, at every logged address, what the oldest write put there |
| `UndoTheory.RedoAfterUndo` | src/undo.c:94-200 | in every state, also after dropped repetitions and single undos, undo-all and redo-all lead back if and only if the file holds the oldest bytes |
| `UndoTheory.RedoOfNonOverlapping` | src/undo.c:94-200 | they lead back after any run of logged writes that do not overlap, repetitions included |
| `UndoTheory.RedoAllReverses` | src/undo.c:188-200 | two writes to one byte that redo-all gets wrong |
| `UndoTheory.RedoAllOfRepetition` | src/undo.c:110-200 | three writes, the last one dropped as a repetition, that it gets right |
| `WriteUndo.Editor.ReadAt` | src/rio.c:42-68 | the bytes at the offset, with the seek restored |
| `WriteUndo.Editor.LogNew` | src/undo.c:94-127 | the log grows by old and new bytes unless it is off, locked, or has this write already |
| `WriteUndo.Editor.WriteAt` | src/rio.c:94-125 | logs the write, then patches the file and restores the seek |
| `WriteUndo.Editor.SetOne` | src/undo.c:174-186 | writes the entry's old or new bytes with the log locked, so that the log does not grow |
| `WriteUndo.Editor.SetNth` | src/undo.c:202-219 | acts on the n-th newest entry, and reports whether there is one |
| `WriteUndo.Editor.SetEvery` | src/undo.c:188-200 | acts on all entries, newest first |
| `SeekHistory.WindowFollows` | src/undo.c:59-75 | the window moves with the unbounded history, across the shift at the last slot |
| `SeekHistory.PushRecords` | src/undo.c:59-75 | the recorded seek is the newest one behind the cursor; nothing in front of the cursor and nothing behind the next slot changes |
| `SeekHistory.PushUndo` | src/undo.c:44-75 | one undo after recording shows the seek before, and one redo the recorded one again |
| `SeekHistory.UndoRedo` | src/undo.c:44-57 | k undos and k redos restore the cursor, and the seek if and only if it was the recorded one |
| `SeekHistory.UndoTimesSeek` | src/undo.c:44-49 | k undos show the k-th seek before the one just recorded |
| `SeekHistory.SeekUndo.RecordSeek` | src/undo.c:59-75 | refines recording in the unbounded history |
| `SeekHistory.SeekUndo.UndoSeek` | src/undo.c:44-49 | refines undo |
| `SeekHistory.SeekUndo.RedoSeek` | src/undo.c:51-57 | refines redo; at the end nothing happens |
| `BTree.BtreeSearch` | src/btree.c:34-51 | finds a node with the key if and only if the tree holds the key |
| `BTree.BtreeGet` | src/btree.c:63-71 | as the search, and exactly the counter of the node found goes up by one |
| `BTree.InsertSortedMeaning` | src/btree.c:83-102 | inserting keeps the order and adds the datum exactly if its key is new |
| `BTree.InsertShapeOrder` | src/btree.c:83-91 | the descent inserts into the sorted sequence |
| `BTree.BtreeInsert` | src/btree.c:83-91 | the pointers below the root form the tree with the node inserted |
| `BTree.BtreeAdd` | src/btree.c:83-102 | the sorted sequence with the datum inserted once at most |
| `BTree.RemoveShapeMeaning` | src/btree.c:10-32 | the other data in order, on exactly the other nodes |
| `BTree.RemoveKeepsSearch` | src/btree.c:10-32 | the rest is a search tree again |
| `BTree.LeftmostUnlinked` | src/btree.c:17-23 | one pointer update takes the leftmost node of the right subtree out |
| `BTree.BtreeRemove` | src/btree.c:10-32 | the rewired pointers form the tree without its root |
| `BTree.BtreeHittest` | src/btree.c:110-120 | a node with the most hits, the first in pre-order among several |
| `CodeWalk.WalkAppends` | src/analyze.c:321-422 | the walk only appends, keeps addresses unique and has a block at its start |
| `CodeWalk.WalkBound` | src/analyze.c:321-422 | a walk of depth d adds at most 2^d - 1 blocks |
| `CodeWalk.WalkReaches` | src/analyze.c:321-422 | a new block is reached from the start by as many edges as depth was used up |
| `CodeWalk.WalkCloses` | src/analyze.c:321-422 | every successor of a block made with depth 2 or more left has a block |
| `CodeWalk.WalkComplete` | src/analyze.c:321-422 | everything reachable has a block if and only if the successors of the blocks at depth 1 have |
| `CodeWalk.WalkNearComplete` | src/analyze.c:321-422 | every address that fewer edges than the depth lead to has a block, if and only if such successors of the blocks that the walk made at depth 1 have |
| `CodeWalk.WalkPath` | src/analyze.c:321-422 | the walk meets a new block on a path without repetition, as long as the depth that was used up |
| `CodeWalk.WalkEvenDepths` | src/analyze.c:321-422 | they all have blocks if no simple path of full length leads to an address that fewer edges lead to |
| `CodeWalk.DepthFirstMisses` | src/analyze.c:321-422 | a block two edges away that a walk of depth 3 misses |
| `CodeBlocks.Program.BlockGet` | src/rdb.c:76-85 | null exactly if no block has the address |
| `CodeBlocks.Program.BlockNew` | src/rdb.c:222-228 | a fresh empty block at the end, and the counter is the length |
| `CodeBlocks.Program.BlockGetNew` | src/rdb.c:230-239 | the block of the address, new exactly if there was none |
| `CodeBlocks.Program.AddCall` | src/rdb.c:287-296 | the call is noted in that block and in no other |
| `CodeBlocks.Program.Decode` | src/analyze.c:357-390 | the decoding loop yields size, bytes and last opcode of the block that belongs at the address |
| `CodeBlocks.Program.MakeBlock` | src/analyze.c:344-414 | exactly one block is appended, and it is the one that belongs at the address |
| `CodeBlocks.Program.Analyze` | src/analyze.c:321-422 | the recursive walk on the store is CodeWalk.Walk, every new block is right and no old block changes |
| `CodeBlocks.Program.WalkFrom` | src/analyze.c:321-422 | a walk from any program is a step of the runs of RunKeepsImage |
| `CodeBlocks.Program.CodeAnalyze` | src/analyze.c:454-480 | a new program with one walk, of fewer than 2^29 blocks because the depth is limited |
| `CodeBlocks.Program.SplitNew` | src/rdb.c:87-167 | the store after a split is BlockSplit.Split, on the same blocks and at most one new one |
| `CodeBlocks.RunKeepsImage` | src/rdb.c:87-167 | over any run of walks and splits every block holds the bytes of the memory that was decoded, also past the last address, and block addresses are unique |
| `BlockSplit.SplitKeepsImage` | src/rdb.c:87-167 | the bytes of all blocks stay those of one memory |
| `BlockSplit.SplitKeepsUnique` | src/rdb.c:87-167 | no two blocks start at one address |
| `BlockSplit.SplitCovers` | src/rdb.c:87-167 | which addresses a split uncovers; it covers no new one |
| `BlockSplit.SplitKeepsCoverage` | src/rdb.c:87-167 | the covered addresses stay if and only if nothing is exposed behind the split block |
| `BlockSplit.SplitAtSameEnd` | src/rdb.c:87-167 | they stay if the block at the split point ends where the split block ends, or there was none |
| `BlockSplit.SplitUncovers` | src/rdb.c:87-167 | a longer block at the split point whose end is no longer covered |
| `BlockSplit.SplitReducesOverlaps` | src/rdb.c:87-167 | splitting at a block start reduces the pairs of a block and a start strictly inside it |
| `BlockEdges.SplitEdges` | src/rdb.c:112-129 | the block at the split point has the out-edges of the block that was split, which keeps one edge, to the split point, and kind Head; every other block and all calls stay |
| `BlockEdges.SplitKeepsEdges` | src/rdb.c:87-167 | all edges stay, or lead through the split point, if and only if the split takes over no block with other edges |
| `BlockEdges.SplitKeepsPaths` | src/rdb.c:87-167 | whatever a path led to from a block start is still led to, if and only if the edges of the block that the split takes over lead to addresses that the split block leads to without that other block; in particular if there was no such block |
| `BlockEdges.SplitLosesEdge` | src/rdb.c:87-167 | a block that starts at the split point already and loses its edge |
| `TraceRuns.StartIsLowest` | src/trace.c:263-268 | on a sorted list the search finds the lowest address other than 0 |
| `TraceRuns.RunIsTiled` | src/trace.c:179-196 | a run consists of whole traced opcodes |
| `TraceRuns.RunStops` | src/trace.c:179-196 | a run ends where no opcode begins, or where the first one is empty |
| `TraceRuns.Above` | src/trace.c:199-216 | the lowest tagged address above the given one |
| `TraceRuns.RunsAscend` | src/trace.c:289-299 | shown ranges ascend with gaps between them |
| `TraceRuns.RunsAreTraced` | src/trace.c:289-299 | every shown address belongs to a traced opcode that is shown as a whole |
| `TraceRuns.RunsReach` | src/trace.c:289-299 | from a start that is not empty every later traced address is shown, if the empty ones are |
| `TraceRuns.ShownExactly` | src/trace.c:248-300 | all tagged addresses but 0 are shown if and only if none has the tag, or the lowest address of all has it on an opcode that is not empty and every empty one lies strictly inside a run |
| `TraceRuns.ShownOfPositive` | src/trace.c:248-300 | without empty opcodes: if and only if the lowest address of all has the tag, or none has |
| `TraceRuns.UntaggedHides` | src/trace.c:263-268 | an untagged opcode that hides a tagged one |
| `TraceRuns.ShownWithoutTag` | src/trace.c:248-300 | without a tag every traced address but 0 is shown |
| `TraceRuns.ZeroNotShown` | src/trace.c:289-299 | address 0 is never shown |
| `TraceRuns.UnionExactly` | src/trace.c:248-300 | the shown addresses are the union of the opcodes if and only if every opcode that is not empty lies in one run |
| `TraceRuns.ShownIsUnion` | src/trace.c:248-300 | where nothing hinders the listing: if and only if no run ends strictly inside an opcode |
| `TraceRuns.NoOverlapIsUnion` | src/trace.c:248-300 | in particular for opcodes that do not overlap |
| `TraceRuns.RunEndNotShown` | src/trace.c:289-299 | the end of a run is in no later run |
| `TraceRuns.OverlapCutsRun` | src/trace.c:289-299 | overlapping opcodes of which a byte is not shown |
| `TraceRuns.EmptyOpcodeHides` | src/trace.c:289-299 | an opcode of size 0 that hides all others |
| `TraceAdds.BumpedTagged` | src/trace.c:144-145 | a hit under a tag adds the bits of the tag's number |
| `TraceAdds.OwnTagMissed` | src/trace.c:170-171 | a new trace is not found under its own tag, and a hit under a tag does not change whether a trace is found under it |
| `TraceAdds.AddKeepsSums` | src/trace.c:147-177 | one more add keeps the list the sum of the adds so far |
| `TraceAdds.RunSums` | src/trace.c:50-177 | over any run of adds and sorts without `trace.dup`, every added address has exactly one trace: times is the number of its adds, opsize that of the first one, count the number of the last one, tags the or of the tags |
| `TraceAdds.DuplicatedIs` | src/trace.c:138-177 | with `trace.dup` there is one trace for each add, in order, which counts that add and all later ones of the address |
| `TraceList.Traces.Add` | src/trace.c:130-177 | the known trace is bumped or a new one appended; the flag is raised exactly when the list grows |
| `TraceList.Traces.Get` | src/trace.c:72-83 | the first trace with the address and the tag |
| `TraceList.Traces.RangeEnd` | src/trace.c:179-196 | the loop terminates at the end of the run |
| `TraceList.Traces.NextAbove` | src/trace.c:199-216 | the next traced address, or 0 |
| `TraceList.Traces.Sort` | src/trace.c:50-70 | the same nodes in the order of their addresses |
| `TraceList.Traces.Show` | src/trace.c:248-300 | sorts, terminates and shows the ranges of TraceRuns.Shown |
| `FlagScan.ContainsExactly` | src/flags.c:967 | a name contains a text exactly if the text stands somewhere in it |
| `FlagScan.SuffixIsRest` | src/flags.c:981-1022 | of a name that begins with the text searched for, the answer is the rest |
| `FlagScan.EndsDoNotMatch` | src/flags.c:967-1006 | a flag whose name has "end" in it, for two texts "_end", is never found |
| `FlagScan.ScanFinds` | src/flags.c:964-976 | the scan finds the first of the highest matching flags at or below the address, and the next offset |
| `FlagScan.SectionIsConstant` | src/flags.c:958-961 | every address of the cached interval has the flag of the address that was searched |
| `FlagScan.SameSection` | src/flags.c:979-980 | addresses with the same section start have the same interval |
| `FlagScan.QueryHolds` | src/flags.c:949-983 | a query keeps the description of the cache in terms of the queries so far |
| `FlagScan.AnswerIs` | src/flags.c:949-983 | over every run each answer is the uncached one, or empty once the section is spoiled |
| `FlagScan.CacheExactly` | src/flags.c:949-1024 | the cached search agrees with the plain one exactly on the runs that ask for no named section after spoiling it |
| `FlagScan.CacheAgrees` | src/flags.c:949-1024 | it agrees whenever every query has a matching flag at or below it |
| `FlagScan.CacheSpoils` | src/flags.c:986-1024 | three queries of which the last loses the name |
| `FlagLookup.Lookup.Search` | src/flags.c:964-976 | the list walk computes the scan |
| `FlagLookup.Lookup.Here` | src/flags.c:949-983 | one call returns and stores what FlagScan.Query says |
| `Gsm7.PackKeepsValue` | src/print.c:294-313 | from any shift on, the octets are the number that the septets are, shifted |
| `Gsm7.PackedValue` | src/print.c:284-318 | the sum of c_i * 128^i equals the sum of b_j * 256^j, in ceil(7n/8) octets |
| `Gsm7.PackReadsBack` | src/print.c:284-318 | cutting the octets into septets gives the text back |
| `Gsm7.PackAlike` | src/print.c:284-318 | exactly when two texts of any bytes are packed alike |
| `Gsm7.ReadHexText` | src/print.c:303-306 | the digits written for some octets, read in pairs with the high digit in front, are those octets |
| `Gsm7.WrittenReadsBack` | src/print.c:284-318 | the digits written for a text, read as octets and cut into septets, give the text back |
| `Gsm7.PackingInjective` | src/print.c:284-318 | texts of the characters 1 to 127, of any lengths, have different output |
| `Gsm7.Packing` | src/print.c:284-318 | the loop writes the digits of these octets and a NUL; for 7-bit characters, reading back what stands in the destination gives the text |
| `Base64.Alphabet` | src/b64.c:29 | the 64 symbols in order |
| `Base64.EncodedBlockIs` | src/b64.c:32-38 | the four characters are the base-64 digits of the 24-bit number that the bytes are, highest first, with = for digits without data |
| `Base64.SymbolsExactly` | src/b64.c:41-49 | the symbols are the letters, the digits, + and / |
| `Base64.StopExactly` | src/b64.c:42-56 | decoding stops behind the leading symbols, with an error at a character outside the table or at the very first one, and yields one byte less than it read symbols |
| `Base64.DecodeBlock` | src/b64.c:42-56 | length and bytes of one block, whatever the uninitialised array held |
| `Base64.BlockRoundTrip` | src/b64.c:32-56 | a block decodes to the bytes it was made of |
| `Base64.RoundTrip` | src/print.c:1384-1410 | decoding the encoding yields the same bytes and length, with 4 * ceil(n/3) characters in between |
| `Base64.CanonicalExactly` | src/print.c:1398-1410 | the output is that of RFC 4648, section 4, if and only if the bits behind the data are zero |
| `Base64.LooksBehind` | src/print.c:1398-1410 | a byte behind the data that gets into the text |
| `Base64.OutputRoom` | src/print.c:1384-1410 | for which lengths the 2 * n allocated bytes hold the output |
| `Base64.EncodeBuffer` | src/print.c:1398-1410 | the block loop writes the encoding and nothing behind it |
| `Base64.DecodeText` | src/b64.c:42-56 | decoding block by block, keeping as many bytes as reported |
| `Base64.DecodeBuffer` | src/print.c:1384-1397 | the block loop, which always writes three bytes, recovers the data of any encoding |
| `HexPairs.ReadDigit` | src/utils.c:806-811 | one digit brings the parser from one described state to the next |
| `HexPairs.Flush` | src/utils.c:773-781 | the write of a finished byte leaves the unread text intact even in place |
| `HexPairs.HexStr2BinStr` | src/utils.c:761-815 | the bytes of the digit pairs, or 0 for any other character; the output may be the input array |
| `HexPairs.ReadsBack` | src/utils.c:761-815 | any text whose digits are those of some bytes is read back as them, wherever ignored characters stand |
| `HexPairs.ReadsBackAnyCase` | src/utils.c:719-815 | the same with the letters in either case, and with a single digit behind them, which is dropped |
| `HexPairs.OddDigitDropped` | src/utils.c:773-781 | one digit behind the pairs changes nothing |
| `HexPairs.DigitTable` | src/utils.c:719-726 | the digits and what they mean |
| `HexPairs.PrintedReadsBack` | src/undo.c:156-159 | in particular the bytes that the undo log prints |

## Left out

- User interface, scripting, sockets, plugins, debugger, process and project files: not modelled; files are byte arrays of a
  fixed size, and reads and writes stay within them.
- Memory: allocation failure and freeing are not modelled; buffers of a fixed size (4096 bytes of a block,
  `sec_str`, the output of the hex parser) are assumed to be large enough.
- `WriteUndo.Editor.WriteAt`: no write mask and no protected section (src/rio.c:99-119); one write, not the repetition of
  src/rio.c:263-277.
- `SeekHistory.SeekUndo`: starts after the first `undo_push` and undoes from index 2 on, because the code reads the slot in
  front of the array otherwise; `undo_reset` is not modelled.
- `RangeSet.RangeList.Merge`: on the global list; with another list the code still walks the global one. The result pointer of
  `ranges_add`, which may be uninitialised, is not modelled.
- `RangeSet.RangeList.Size`: `ranges_percent`, `ranges_list`, `ranges_new` (a parser) and `ranges_is_used` are not modelled.
- `Lists.ListMove`: `list_move_tail` is not modelled; it is the same with the other neighbour.
- `BTree.BtreeRemove`: `btree_del` and `btree_optimize` are not modelled; they rely on a parent search that returns the root of the whole
  tree, and on an uninitialised pointer. Hit counters do not overflow.
- `BTree.BtreeSearch`: a pure function because the code only reads; the order is the comparison function's, which must be total.
- `CodeBlocks.Program.Analyze`: opcode sizes are not negative, and labels, comments and cross references that other functions
  attach to blocks are not modelled; nor is the walk with splitting, `code_analyze_r_split`, that `code_analyze` adds when
  `graph.split` is set.
- `CodeBlocks.Program.SplitNew`: `program_block_split`, which copies the wrong successor, is not modelled; the lists of calls
  and cross references stay with the front block.
- `TraceList.Traces.Show`: opcodes have no negative size and do not reach past the last address, since the loop need not end
  otherwise; tags are below 31, where `1<<tag` is defined; the listings with opcodes are not modelled.
- `TraceList.Traces.Add`: counters do not overflow, and time stamps are not modelled. The opcode size comes from the decoder.
- `FlagScan.CacheExactly`: the list of flags and the filter stay the same during a run; the code does not reset the cache when
  they change.
- `Gsm7.Packing`: source and destination are different arrays. `unpacking_7bit_character` is not modelled; it never
  resets its shift and so does not read back more than seven characters.
- `Base64.EncodeBuffer`: the output array holds the text; the code allocates 2 * n bytes, which is enough for the lengths that
  `Base64.OutputRoom` names.
- `Base64.CanonicalExactly`: the two translation tables are piecewise functions here.
- `HexPairs.HexStr2BinStr`: texts without a number in `0x` notation, which calls the expression evaluator.
- `src/binparse.c`, `src/vm.c` and `src/section.c`: not modelled, because they depend on the state of the shell.
