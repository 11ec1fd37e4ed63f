# Dawn, verified

Dawn is a small relational database that ships its own copy of the LEMON parser generator. This project
models the algorithms of both that are hard to get right and proves what they are for.

**The parser generator** (`src/sql/lemon.c`, `src/sql/lempar.c`). A grammar is a sequence of rules over
terminals, nonterminals and multi-terminals; derivation is defined on sentential forms and knows nothing of
tables. Against it stand the loops of LEMON on bool arrays: the lambda and FIRST fixpoints, the closure of a
configuration list with its lookaheads and propagation links, the worklist that propagates follow sets, the
merge sort with a fixed array of bins on linked lists, and the packing of per-state action sets into one
table together with the code that reads it in the generated parser.

**The storage engine.** Each layer is a class with the fields of the original, proved against the simple thing
it stands for:

- a slotted page of 4096 bytes is a map from slots to bytes,
- the clock replacer picks a well-defined victim and is fair,
- the buffer pool is a map from page ids to what was last written to them,
- the page-id allocator partitions the ids and survives a restart,
- the catalog page and the table metadata decode to what was encoded,
- the link-hash index is a map from keys to tuples, and its iterator enumerates that map,
- the reader-writer latch is a state machine of N threads over its critical sections and notifications.

`PageCells` ties the layers together: the index works on pages seen as slots with tuples, and these slots
behave exactly like the page kept in bytes.

## Where the code falls short of what it is for

Each of these is proved: an example that fails, or the exact condition under which the code does what it
should.

- **Action packing can lose actions.** `acttab_insert` gives up its search for a hole when the allocated room
  runs out and then stores the set where the search ended, which is `nActionAlloc - mxLookahead`; the comment
  there says it appends at `nAction`. A call keeps all sets readable exactly if the table before it stores the
  set already, has a hole for it, or lets it fit where the search gives up; a run never loses a set exactly if
  this holds for each of its calls (`InsertLosslessIff`, `NeverLosesIff`). Room for the least and the greatest
  lookahead together is enough (`SlackRunSound`). Twenty insertions of one-element sets suffice to lose one
  (`PackingCanLose`). The number of slots in use can also exceed those allocated until the next insertion
  (`SizeWithinTableIff`, `SizeCanOverrun`).
- **The merge sort is a permutation exactly below 2^30 elements** (`SortCorrect`), and it is stable exactly if no
  two elements that compare equal end in the same bin, which their positions and the length of the list decide
  (`StableIff`, `NotStable`).
- **Tuples of 1, 2, 3, 4 or 7 bytes overrun a full page.** The insertion succeeds at slot -1 and overwrites
  the tuple count with the tuple size (`SpillingSizes`, `InsertTuple`).
- **`delete_page` leaves the freed frame in the replacer.** The frame can be given to a new page and offered as
  a victim while that page is pinned (`DeletionExposesPinnedPage`, `PinnedPageEvicted`).
- **The latch can forget a waiting reader** as soon as there are two threads more than the reader limit; with
  fewer threads no run gets stuck, and whenever somebody waits, somebody who waits gets the latch without spurious
  wakeups (`ProgressIff`, `ServedIff`, `ReaderForgotten`).
- **After a restart without a lasting page, the greatest allocated id is whatever it was** before the scan
  (`FromFile`, `RestartExact`).
- **The bound of the page ids is stored at creation and shutdown only.** A restart is whole exactly if the stored
  bound covers the file; otherwise the id of a page in use can be handed out again (`RestartExact`,
  `RestartReusesPage`).
- **`create_table` forgets the NUL behind the name in its space check.** If the room left is exactly what it
  asks for, the table record overwrites the first byte of the name. A restart then reads the table as it was
  created exactly if its name is empty or begins with the highest byte of its id (`CreateTable`,
  `CreateOverlaps`, `LongNameLost`).
- **A search along a bucket gives up at the first empty page.** It finds every key exactly if no empty page
  comes before one with tuples (`FindsAllIff`, `GapHides`).
- **A full bucket is extended by a page that was not initialised.** The bucket gains the new tuple only exactly if
  the bytes of that page show no foreign tuple, and the chain ends there exactly if they name no next page
  (`ExtendedIff`).
- **Names with NULs are cut** when a schema or the catalog is read back; it is the same schema or catalog exactly
  if there are none (`ReadSchema`, `RoundTrip`, `LoadIff`, `FromPage`).

## Model

| member | source | states |
|---|---|---|
| `SymbolSets.SetAdd` | src/sql/lemon.c:5196-5203 | adds one element to one set; the result tells whether it was new |
| `SymbolSets.SetUnion` | src/sql/lemon.c:5206-5218 | the first set becomes the union, all others stay; progress is reported exactly if something was missing |
| `FirstSets.LambdaExact` | src/sql/lemon.c:852-867 | a sound and closed lambda table marks all symbols of a form exactly if the form derives the empty string |
| `FirstSets.TablesExact` | src/sql/lemon.c:839-895 | sound and closed tables decide, for every sentential form, whether it vanishes and which terminals it can begin with |
| `FirstSets.ExactForNonterminals` | src/sql/lemon.c:839-895 | the tables hold exactly the nonterminals that vanish and exactly the pairs of a nonterminal and a terminal it can begin with |
| `FirstSets.HasFirstConcat` | src/sql/lemon.c:869-893 | FIRST of a concatenation, as the scan of a right-hand side computes it |
| `FirstSets.AllLambda` | src/sql/lemon.c:857-861 | decides whether all symbols of a right-hand side are marked |
| `FirstSets.FindLambdas` | src/sql/lemon.c:852-867 | the first fixpoint loop ends with a table that is sound for derivations of the empty string and closed under all rules |
| `FirstSets.AddFirstOf` | src/sql/lemon.c:874-891 | one rule of the second loop keeps the FIRST table sound, closes it for that rule and reports change exactly |
| `FirstSets.FindFirstSets` | src/sql/lemon.c:839-895 | terminates for every grammar; lambda holds for a nonterminal iff it derives the empty string, t is in its FIRST set iff it derives a form beginning with t |
| `FollowSets.PathFlows` | src/sql/lemon.c:1112-1144 | in a solution of all propagation constraints, what is in the first set of a path is in the last |
| `FollowSets.SolutionContainsFlows` | src/sql/lemon.c:1112-1144 | every solution above the initial sets contains what flows along links, so the flows are the least solution |
| `FollowSets.PropagateFrom` | src/sql/lemon.c:1132-1140 | a visit adds nothing but flows, leaves the links of the visited configuration satisfied, and exactly the configurations whose follow sets grew are no longer COMPLETE |
| `FollowSets.UnionWakes` | src/sql/lemon.c:1133-1139 | one union keeps this exact: a configuration is woken iff its set has grown since the visit began |
| `FollowSets.Pass` | src/sql/lemon.c:1128-1142 | one sweep keeps COMPLETE configurations satisfied; without progress all are COMPLETE |
| `FollowSets.FindFollowSets` | src/sql/lemon.c:1112-1144 | terminates; each final follow set is the union of the initial sets of all configurations that reach it, so skipping COMPLETE ones loses nothing |
| `Closure.ConfigList.Add` | src/sql/lemon.c:1345-1369 | finds the configuration or appends it with no lookaheads and no links; the list never has duplicates |
| `Closure.ConfigList.AddLookaheads` | src/sql/lemon.c:1421-1436 | adds exactly FIRST of the rest behind the dot and tells whether that rest can vanish |
| `Closure.ConfigList.ExpandRule` | src/sql/lemon.c:1420-1437 | handling one rule keeps the invariant of the scan: items forced, lookaheads explained, links exact for the pairs handled so far |
| `Closure.ConfigList.Close` | src/sql/lemon.c:1400-1442 | terminates although the list grows while scanned; the result is the least item set above the basis closed under expansion, a lookahead is there iff it was initially or comes from a parent's rest, a link iff that rest can vanish, each once; the error count grows by the number of configurations with, behind their dot, a nonterminal other than the error symbol that is no rule's left-hand side |
| `Closure.RuleHandled` | src/sql/lemon.c:1420-1437 | after the lookaheads and the link of one rule the invariant holds with that rule handled |
| `Closure.AppendInv` | src/sql/lemon.c:1420 | a configuration new to the list breaks nothing handled so far |
| `Closure.GrowthBounded` | src/sql/lemon.c:1408-1440 | a list that grows misses strictly fewer items, which is why the scan ends |
| `Closure.ScanDone` | src/sql/lemon.c:1400-1442 | with all configurations handled, the list is closed, forced, and its lookaheads and links are exact |
| `Closure.ClosureMeaning` | src/sql/lemon.c:1400-1442 | with the tables of FindFirstSets, a parent gives a lookahead to a child iff the child starts a rule of the nonterminal behind the parent's dot and what follows that nonterminal can begin with the lookahead; it links to the child iff what follows derives the empty string |
| `MergeSort.MergeContents` | src/sql/lemon.c:1842-1878 | merging keeps every element of both lists |
| `MergeSort.MergeSorted` | src/sql/lemon.c:1842-1878 | merging sorted lists gives a sorted list |
| `MergeSort.CarryCounts` | src/sql/lemon.c:1909-1913 | the bins count in binary: bin i below the last is empty or holds 2^i elements; what happens on overflow of the last |
| `MergeSort.CarryContents` | src/sql/lemon.c:1909-1913 | nothing is lost unless the lower bins overflow into an occupied last bin |
| `MergeSort.FillCounts` | src/sql/lemon.c:1904-1914 | the lower bins hold the list length modulo 2^(bins-1), the last bin the rest |
| `MergeSort.FillContents` | src/sql/lemon.c:1904-1914 | below 2^bins elements the bins hold exactly the list |
| `MergeSort.CollapseContents` | src/sql/lemon.c:1915-1916 | merging the bins keeps every element in them |
| `MergeSort.SortCorrect` | src/sql/lemon.c:1894-1918 | the result is always sorted, and it is a permutation iff the list is shorter than 2^bins; the exact length otherwise |
| `MergeSort.NotStable` | src/sql/lemon.c:1894-1918 | the shortest case: two elements that compare equal come out exchanged |
| `MergeSortOrder.MergeKeepsOrder` | src/sql/lemon.c:1842-1878 | merging keeps the order of both lists |
| `MergeSortOrder.MergePutsFirst` | src/sql/lemon.c:1842-1878 | elements of the first list come before equal ones of the second |
| `MergeSortOrder.FillMatches` | src/sql/lemon.c:1904-1914 | each bin holds one part of the list, with elements that compare equal in reverse order |
| `MergeSortOrder.PartsJoin` | src/sql/lemon.c:1904-1914 | below 2^bins elements these parts, the largest first, make up the list |
| `MergeSortOrder.BinsInOrder` | src/sql/lemon.c:1904-1914 | the bin of a position depends on the binary digits of the length only; earlier positions are in larger bins or earlier in the same one |
| `MergeSortOrder.SortOrder` | src/sql/lemon.c:1894-1918 | elements that compare equal come out exchanged if their positions share a bin and in their order otherwise |
| `MergeSortOrder.OrderIff` | src/sql/lemon.c:1894-1918 | of two nodes that compare equal the earlier comes first iff their positions are in different bins |
| `MergeSortOrder.StableIff` | src/sql/lemon.c:1894-1918 | the sort of a list is stable iff no two elements that compare equal have positions in the same bin |
| `MergeSort.MergeLists` | src/sql/lemon.c:1842-1878 | relinks the nodes of two lists into the merged list and touches no other node |
| `MergeSort.Splice` | src/sql/lemon.c:1855-1875 | the relinking loop, for two non-empty lists |
| `MergeSort.InsertRun` | src/sql/lemon.c:1906-1913 | one list node goes into the bins; all other lists stay intact |
| `MergeSort.FillAll` | src/sql/lemon.c:1904-1914 | takes the list apart into the bins, node by node |
| `MergeSort.Msort` | src/sql/lemon.c:1894-1918 | the linked list becomes a sorted linked list; a permutation iff shorter than 2^30 |
| `ActionTable.SameOffsetSameSet` | src/sql/lemon.c:680-783 | two different sets cannot be read exactly at one offset |
| `ActionTable.TakenSlotLoses` | src/sql/lemon.c:772-776 | writing over a slot of another offset makes its set lose an action |
| `ActionTable.UsedOffsetLoses` | src/sql/lemon.c:755-760 | an offset in use cannot hold a second set |
| `ActionTable.WriteLosslessIff` | src/sql/lemon.c:772-776 | storing a set keeps all sets readable iff it is there already, or its slots are free and its offset unused |
| `ActionTable.DupIff` | src/sql/lemon.c:710-735 | the duplicate test succeeds exactly where the set is already stored |
| `ActionTable.GrowKeeps` | src/sql/lemon.c:684-702 | growing the table changes nothing that can be read |
| `ActionTable.ChosenInBounds` | src/sql/lemon.c:710-763 | wherever the search ends, all slots of the set are allocated; a safe set never gets a negative offset |
| `ActionTable.ChosenMeans` | src/sql/lemon.c:709-763 | the position is the highest one at which the set is already stored, else the first vacant one, else where the room for the greatest lookahead ends; safe sets have no negative offset |
| `ActionTable.HasPlaceIff` | src/sql/lemon.c:710-763 | that condition on the table before the call holds iff at the position the search ends at the set is stored or fits |
| `ActionTable.InsertLosslessIff` | src/sql/lemon.c:680-783 | an insertion keeps every set readable iff the table before it stores the set, has a hole for it, or lets it fit where the search gives up |
| `ActionTable.SlackSuffices` | src/sql/lemon.c:741-763 | with room for the least and greatest lookahead together the search finds a duplicate or a fit, close behind the used slots |
| `ActionTable.FirstSetFits` | src/sql/lemon.c:741-763 | the first set always fits |
| `ActionTable.PlacedKeeps` | src/sql/lemon.c:772-777 | every stored entry still belongs to its own offset; for safe sets all token slots stay inside the table |
| `ActionTable.NewSizeLeast` | src/sql/lemon.c:772-777 | the slots in use afterwards are the fewest that cover those before, the set, and all tokens of a safe set |
| `ActionTable.TokensFitIff` | src/sql/lemon.c:710-777 | that condition on the table before the call, read at the position the search ends at |
| `ActionTable.ActTab.AddAction` | src/sql/lemon.c:639-663 | extends the pending set; least and greatest lookahead stay those of the set |
| `ActionTable.ActTab.GrowTable` | src/sql/lemon.c:684-702 | a table without room for one more row of symbols gets 20 slots more than that and its old size; old slots unchanged, new ones empty |
| `ActionTable.ActTab.Matches` | src/sql/lemon.c:716-722 | decides whether all pending entries match at a position |
| `ActionTable.ActTab.Count` | src/sql/lemon.c:726-730 | counts the entries that belong to the offset |
| `ActionTable.ActTab.FindDup` | src/sql/lemon.c:710-735 | the highest position at which the set is already stored, or none |
| `ActionTable.ActTab.SlotsFree` | src/sql/lemon.c:749-754 | decides whether the slots of the pending set are free |
| `ActionTable.ActTab.OffsetUnused` | src/sql/lemon.c:755-760 | decides whether no entry belongs to the offset |
| `ActionTable.ActTab.FindHole` | src/sql/lemon.c:741-763 | the first hole the set fits into, or where the search gives up |
| `ActionTable.ActTab.Store` | src/sql/lemon.c:772-777 | writes exactly the pending set at its offset and keeps the number of used slots right |
| `ActionTable.ActTab.Insert` | src/sql/lemon.c:680-783 | stores the pending set at the position the two searches choose and returns its offset |
| `ActionTableRuns.RunLossless` | src/sql/lemon.c:680-783 | in every run of insertions, calls for which the table has a place keep all sets ever inserted readable, and the first call without a place loses one; token indices of safe sets stay inside |
| `ActionTableRuns.NeverLosesIff` | src/sql/lemon.c:680-783 | all sets can be read back after every call of a run iff the table has a place for the set of every call |
| `ActionTableRuns.SlackRunSound` | src/sql/lemon.c:680-783 | with room for the least and greatest lookahead together behind the used slots in every call but the first, every set ever inserted is read back exactly |
| `ActionTableRuns.SizeWithinTableIff` | src/sql/lemon.c:772-777 | the used slots stay within those allocated iff behind the duplicate, the hole or the place of giving up that the table has for a safe set the slots of all tokens are allocated |
| `ActionTableRuns.SizeCanOverrun` | src/sql/lemon.c:772-777 | a first safe set can leave 60 slots in use of 51 allocated |
| `ActionTableRuns.PackingCanLose` | src/sql/lemon.c:741-776 | a run of twenty insertions over five symbols after which a set is lost |
| `ActionReader.ActionSizeTight` | src/sql/lemon.c:789-793 | behind the computed size there are only empty slots, and it ends with a slot in use |
| `ActionReader.ComputeActionSize` | src/sql/lemon.c:789-793 | the loop finds the last slot in use |
| `ActionReader.EmitReads` | src/sql/lemon.c:4617-4668 | at a token's slot the emitted arrays match exactly when the packed table does, with its action |
| `ActionReader.EmitEmpty` | src/sql/lemon.c:4617-4668 | a slot that belongs to no set matches no token and has no action; the arrays are no longer than needed |
| `ActionReader.StateReads` | src/sql/lemon.c:4617-4693 | at a state's offset the emitted arrays give exactly the state's action map |
| `ActionReader.FindShiftAction` | src/sql/lempar.c:507-566 | in a state with action map m: the action of the token if m has one, else that of its fallback token, else the wildcard's unless the token reached is the end of input, else the default |
| `Bytes.DecodeEncode` | src/storage/page/table_page.cpp:7-9 | every 32-bit integer stored in page memory is read back as written |
| `PageLayout.Tiles` | src/include/storage/page/table_page.h:116-125 | every byte behind the free space pointer belongs to exactly one live tuple |
| `PageLayout.CoveredSize` | src/include/storage/page/table_page.h:174-176 | live tuples cover tuple size times tuple count bytes |
| `TablePageOps.SpillingSizes` | src/storage/page/table_page.cpp:30-52 | the sizes for which a full page accepts one more tuple are 1, 2, 3, 4 and 7 |
| `TablePageOps.RoomIff` | src/storage/page/table_page.cpp:14-37 | after the search for a slot there is room for a tuple iff fewer tuples are live than the capacity, or the size spills |
| `TablePageOps.GrowSlots` | src/storage/page/table_page.cpp:22-27 | a new slot changes no contents, since the bytes it takes are zero |
| `TablePageOps.FillSlot` | src/storage/page/table_page.cpp:39-51 | writing tuple and record adds exactly that slot |
| `TablePageOps.EmptySlot` | src/storage/page/table_page.cpp:83-103 | moving the data up and patching the offsets removes exactly that slot and keeps all other bytes |
| `TablePageOps.ReplaceTuple` | src/storage/page/table_page.cpp:117 | overwriting a tuple in place changes that slot only |
| `TablePageOps.Remask` | src/storage/page/table_page.cpp:61-73 | setting or clearing the delete mask changes the mark of that slot only |
| `TablePages.TablePage.Init` | src/storage/page/table_page.cpp:5-11 | an initialised page is the empty map, for every tuple size |
| `TablePages.TablePage.GetEmptySlot` | src/storage/page/table_page.cpp:14-28 | the first empty slot, a new one, or -1 without room for a record |
| `TablePages.TablePage.InsertTuple` | src/storage/page/table_page.cpp:30-52 | succeeds iff fewer tuples are live than the capacity (or the size spills); the map gains exactly that slot; a failing insertion changes no contents; the page header stays |
| `TablePages.TablePage.ApplyDelete` | src/storage/page/table_page.cpp:76-104 | the map loses exactly that slot, every other tuple keeps slot and bytes |
| `TablePages.TablePage.PatchOffsets` | src/storage/page/table_page.cpp:97-103 | exactly the tuples below the deleted one get a new offset |
| `TablePages.TablePage.UpdateTuple` | src/storage/page/table_page.cpp:106-120 | overwrites an unmarked tuple of the same size on the same page; otherwise fails and changes nothing |
| `TablePages.TablePage.MarkDelete` | src/storage/page/table_page.cpp:54-64 | marks an occupied slot of this page; otherwise fails |
| `TablePages.TablePage.RollbackDelete` | src/storage/page/table_page.cpp:66-74 | takes the mark back, of occupied slots only |
| `TablePages.TablePage.GetTuple` | src/storage/page/table_page.cpp:122-144 | succeeds iff the slot is occupied and gives its bytes |
| `TablePages.TablePage.NextLive` | src/storage/page/table_page.cpp:146-173 | the loops over the slots: the first slot in use from a slot on |
| `TablePages.TablePage.GetTheFirstTuple` | src/storage/page/table_page.cpp:175-188 | succeeds iff the page has a tuple, and gives the first one with its bytes |
| `TablePages.TablePage.GetNextTupleRid` | src/storage/page/table_page.cpp:146-173 | the tuple behind the current one, or the first |
| `TablePages.TablePage.GetStoredTupleCnt` | src/storage/page/table_page.cpp:190-199 | the number of tuples in the map |
| `TablePages.NextSlotExact` | src/storage/page/table_page.cpp:146-188 | stepping through the slots skips no tuple |
| `TablePages.InsertCases` | src/storage/page/table_page.cpp:14-37 | the outcome of the search for a slot in terms of the number of stored tuples |
| `TablePages.TupleCount` | src/storage/page/table_page.cpp:190-199 | stored tuples are the live records |
| `TablePages.SpilledCount` | src/storage/page/table_page.cpp:49-50 | the record of slot -1 overwrites the tuple count with the tuple size |
| `ClockReplacers.ClockReplacer.PinFrame` | src/buffer/clock_replacer.cpp:12-18 | the frame is no candidate any more; other frames and the hand stay; the count of candidates stays exact |
| `ClockReplacers.ClockReplacer.UnpinFrame` | src/buffer/clock_replacer.cpp:20-26 | a frame that was no candidate becomes one with its second chance; otherwise nothing changes; other frames and the hand stay; the count stays exact |
| `ClockReplacers.ClockReplacer.TakeVictim` | src/buffer/clock_replacer.cpp:28-57 | stops within two rounds at the first frame whose chance is spent, else at the first candidate; exactly the chances passed are spent; the hand stops behind the victim |
| `ClockReplacers.VictimComesCloser` | src/buffer/clock_replacer.cpp:40-56 | a candidate that is not taken comes strictly closer to being taken |
| `ClockReplacers.PatienceBound` | src/buffer/clock_replacer.cpp:40-56 | no candidate is further away than two rounds of victims |
| `ClockReplacers.Fair` | src/buffer/clock_replacer.cpp:12-57 | in every run that does not pin it, a candidate is taken within its remaining patience |
| `ClockReplacers.FairWithinTwoRounds` | src/buffer/clock_replacer.cpp:12-57 | in every run, a frame left unpinned is taken within 2 * pool size victims, whatever is done to other frames |
| `ClockReplacers.SecondChance` | src/buffer/clock_replacer.cpp:20-57 | in every run, a frame just unpinned is not the next victim if any frame has spent its chance; otherwise it is the next victim only if no candidate is closer to the hand |
| `PoolModel.MappingInjective` | src/buffer/buffer_pool_manager.cpp:32 | no two pages share a frame |
| `PoolModel.EvictKeeps` | src/buffer/buffer_pool_manager.cpp:112-135 | the victim is unpinned and mapped; its frame goes to the free list and the frame invariant holds |
| `PoolModel.OccupyKeeps` | src/buffer/buffer_pool_manager.cpp:28-43 | giving a free frame to a page keeps the partition of frames and the replacer exact |
| `PoolModel.HitKeeps` | src/buffer/buffer_pool_manager.cpp:149-154 | pinning a cached page keeps both |
| `PoolModel.UnpinKeeps` | src/buffer/buffer_pool_manager.cpp:48-74 | giving up a pin keeps both |
| `PoolModel.FlushKeeps` | src/buffer/buffer_pool_manager.cpp:76-98 | writing back keeps both |
| `PoolModel.DeleteKeepsPartition` | src/buffer/buffer_pool_manager.cpp:203-233 | deleting a cached page keeps the partition but never leaves the replacer exact |
| `PoolModel.BlocksOnlyIfAllPinned` | src/buffer/buffer_pool_manager.cpp:21-26 | without a free frame there is a victim iff some frame is not pinned |
| `PoolModel.StepCoherent` | src/buffer/buffer_pool_manager.cpp:14-233 | an operation that touches one page and keeps what the pool shows of it keeps it for all pages |
| `BufferPools.BufferPool.EvictPage` | src/buffer/buffer_pool_manager.cpp:112-135 | unmaps the page of the frame, appends the frame to the free list, and writes the page back iff it is dirty; nothing else changes |
| `BufferPools.BufferPool.EnsureFree` | src/buffer/buffer_pool_manager.cpp:156-163 | with a free frame nothing happens; without one exactly the replacer's victim, which nobody pins, is evicted; no page's contents change |
| `BufferPools.BufferPool.AllocPage` | src/buffer/buffer_pool_manager.cpp:14-46 | after making room, the first free frame holds the new page, pinned once, dirty, with its id in the header; every other page shows what it showed, and pinned ones keep frame, pins and bytes |
| `BufferPools.BufferPool.GetPage` | src/buffer/buffer_pool_manager.cpp:142-198 | for every page in the map the pool shows what was last written to it, whichever evictions happened, with one pin more; it answers iff the page is cached or its sector is marked as existing; every other pinned page keeps its frame, pins and bytes |
| `BufferPools.BufferPool.FetchPage` | src/buffer/buffer_pool_manager.cpp:156-196 | a page that is not cached comes back from disk as it was last written, iff its sector is marked as existing; pinned pages keep frame, pins and bytes |
| `BufferPools.BufferPool.UnpinPage` | src/buffer/buffer_pool_manager.cpp:48-74 | one pin less, dirty if it was or is reported so; the frame is a candidate, with its second chance, iff that was the last pin; no other frame, page or sector changes; reported writes stay covered |
| `BufferPools.ReleasePins` | src/buffer/buffer_pool_manager.cpp:48-74 | as many unpins as there are pins leave none and make the frame a candidate, so that there is room for another page |
| `BufferPools.BufferPool.FlushPage` | src/buffer/buffer_pool_manager.cpp:76-98 | writes a cached page back and marks it clean; nothing else changes; reports whether it is cached |
| `BufferPools.BufferPool.FlushAll` | src/buffer/buffer_pool_manager.cpp:100-110 | afterwards the disk holds the last written contents of every page and no cached page is dirty; pins and bytes stay |
| `BufferPools.BufferPool.DeletePage` | src/buffer/buffer_pool_manager.cpp:203-233 | succeeds iff the page is not pinned; its frame goes to the end of the free list; exactly the status byte of a known page's sector changes, so that it cannot be fetched; no other page and no other sector changes; the replacer stays exact iff the page was not cached |
| `BufferPools.RoomUndisturbed` | src/buffer/buffer_pool_manager.cpp:112-135 | making room takes no frame, pin or byte from a pinned page |
| `BufferPools.EvictCoherent` | src/buffer/buffer_pool_manager.cpp:112-135 | no page shows anything else after an eviction |
| `BufferPools.OccupyCoherent` | src/buffer/buffer_pool_manager.cpp:28-43 | a page read or created shows its frame's payload, all others what they showed |
| `BufferPools.UnpinCoherent` | src/buffer/buffer_pool_manager.cpp:48-74 | with writes reported before the last pin goes, nothing is lost |
| `BufferPools.FlushOnDisk` | src/buffer/buffer_pool_manager.cpp:76-98 | a flushed page is on disk and no other page's sector changes |
| `BufferPools.DeleteCoherent` | src/buffer/buffer_pool_manager.cpp:203-233 | deleting a page affects no other page |
| `BufferPools.FreedCoherent` | src/buffer/buffer_pool_manager.cpp:207-212 | neither does freeing a page that is not cached |
| `BufferPools.DeletionExposesPinnedPage` | src/buffer/buffer_pool_manager.cpp:221-227 | after a deletion the next page in that frame is pinned and yet a candidate for eviction |
| `BufferPools.PinnedPageEvicted` | src/buffer/buffer_pool_manager.cpp:221-227 | in a pool of one frame that page is the next victim |
| `Latch.StepSafe` | src/include/util/rwlatch.h:27-73 | every step of every thread keeps the reader count exact, writers exclusive, and admits no reader while a writer has entered |
| `Latch.WriterAdmitted` | src/include/util/rwlatch.h:27-36 | a writer holds the latch after its step iff nobody had it, has entered iff there are readers only, and waits iff a writer has entered |
| `Latch.EnteredAdmitted` | src/include/util/rwlatch.h:33-35 | a writer that has entered and wakes up holds the latch iff there is no reader |
| `Latch.ReaderAdmitted` | src/include/util/rwlatch.h:50-56 | a reader holds the latch after its step iff no writer has entered and there is room |
| `Latch.RunInvariant` | src/include/util/rwlatch.h:27-73 | safety in every run of any number of threads; with at most max + 1 of them no wakeup is lost |
| `Latch.MutualExclusion` | src/include/util/rwlatch.h:27-73 | in every reachable state a thread holding the write latch excludes all other holders |
| `Latch.StepProgress` | src/include/util/rwlatch.h:27-73 | with at most max + 1 threads a step loses no wakeup |
| `Latch.NeverStuck` | src/include/util/rwlatch.h:27-73 | with at most max + 1 threads no reachable state has a latch that could be taken and only sleeping waiters |
| `Latch.SomeoneServed` | src/include/util/rwlatch.h:27-73 | with at most max + 1 threads, from every reachable state with a waiting thread, unlocking holders and notified threads alone make a waiting thread a holder |
| `Latch.ReaderForgotten` | src/include/util/rwlatch.h:61-73 | with max + 2 threads a state is reachable in which a reader sleeps at a free latch, nobody holds it and nobody has been notified |
| `Latch.ProgressIff` | src/include/util/rwlatch.h:27-73 | no run gets stuck iff there are at most max + 1 threads |
| `Latch.ServedIff` | src/include/util/rwlatch.h:27-73 | without spurious wakeups somebody who waits is always served in the end iff there are at most max + 1 threads |
| `DiskManagers.MoreIdsKeeps` | src/storage/disk/disk_manager.cpp:302-309 | doubling the id space makes ids free and keeps the partition |
| `DiskManagers.LeastFreeInFile` | src/storage/disk/disk_manager.cpp:289-338 | the least free id is at most one behind the end of the file, so the file has no holes |
| `DiskManagers.AllocateKeeps` | src/storage/disk/disk_manager.cpp:289-338 | allocating the least free id keeps partition, maximum and file |
| `DiskManagers.ReleaseKeeps` | src/storage/disk/disk_manager.cpp:340-382 | freeing an allocated id keeps them too |
| `DiskManagers.RunAgrees` | src/storage/disk/disk_manager.cpp:289-382 | in every run from a new database on, no id is handed out while a caller has it, the allocated ids are those handed out and not given back, and a restart finds exactly those handed out as lasting |
| `DiskManagers.RestartExact` | src/storage/disk/disk_manager.cpp:161-232 | exactly the pages allocated as lasting and not freed come back, temporary ones become free; the state is whole iff the maximum is right and the stored bound covers the file |
| `DiskManagers.RestartReusesPage` | src/storage/disk/disk_manager.cpp:84 | with a bound that does not cover the file and all pages in use, the next id handed out belongs to a page in use |
| `DiskManagers.DiskManager.FromScratch` | src/storage/disk/disk_manager.cpp:72-76 | starts with a hundred free ids and nothing allocated |
| `DiskManagers.DiskManager.AllocPage` | src/storage/disk/disk_manager.cpp:289-338 | returns the least free id, doubling the id space first if none is free; exactly that id becomes allocated, its page gets the flag, the file grows by at most this page, and the maximum is kept |
| `DiskManagers.DiskManager.FreePage` | src/storage/disk/disk_manager.cpp:340-382 | exactly an allocated id becomes free, its page is marked and the new maximum is found; other ids change nothing |
| `DiskManagers.DiskManager.FromFile` | src/storage/disk/disk_manager.cpp:161-232 | the rebuilt sets are the pages whose status byte has the EXIST bit and the rest of file and id space; the maximum is right if there is such a page |
| `DiskManagers.ScanFile` | src/storage/disk/disk_manager.cpp:161-232 | the batched scan finds exactly the pages marked as existing and the greatest of them |
| `DiskManagers.ScanBatch` | src/storage/disk/disk_manager.cpp:210-222 | one batch extends what has been scanned by its pages |
| `CStrings.CStringOf` | src/meta/table_meta_data.cpp:50 | a name stored with its NUL is read as its part before the first NUL |
| `CStrings.CStringWhole` | src/meta/catalog_table.cpp:47-55 | that part is the whole name iff the name has no NUL |
| `TableMetaDatas.WriteColumn` | src/meta/table_meta_data.cpp:97-111 | the record of the column is stored at its place and nothing else changes |
| `TableMetaDatas.WriteSchema` | src/meta/table_meta_data.cpp:82-112 | the count and all records are stored, each directly behind the one before |
| `TableMetaDatas.ReadColumn` | src/meta/table_meta_data.cpp:40-57 | a stored record is read back, its name up to the first NUL |
| `TableMetaDatas.ReadSchema` | src/meta/table_meta_data.cpp:22-58 | all columns come back in order; they are the same columns iff no name contains a NUL |
| `TableMetaDatas.RoundTrip` | src/meta/table_meta_data.cpp:22-112 | reading what was written gives the same schema iff no name contains a NUL |
| `CatalogLayout.EndRemove` | src/meta/catalog_table.cpp:156-169 | behind a removed table every name ends higher by the size of the removed name, before it nothing moves |
| `CatalogLayout.CreateKeeps` | src/meta/catalog_table.cpp:86-101 | with a byte to spare the page holds the old tables and the new one, names packed |
| `CatalogLayout.LayoutDecodes` | src/meta/catalog_table.cpp:29-38 | a page that holds tables decodes to them, each name up to its first NUL |
| `CatalogLayout.CreateOverlaps` | src/meta/catalog_table.cpp:69-101 | without it the old tables are read back as before, and the new one iff its name has no NUL and is empty or begins with the highest byte of its id |
| `CatalogLayout.OverlappedIff` | src/meta/catalog_table.cpp:86-101 | a name whose first byte is overwritten by the record is read back iff it has no NUL and is empty or begins with that byte |
| `CatalogLayout.LongNameLost` | src/meta/catalog_table.cpp:69-101 | on an empty page a name of 4016 bytes passes the space check and is not read back |
| `CatalogLayout.MovingStep` | src/meta/catalog_table.cpp:156-169 | moving one table down and its name up breaks neither the moved nor the waiting tables |
| `CatalogLayout.MovingDone` | src/meta/catalog_table.cpp:152-173 | after the loop and the new count the page holds exactly the remaining tables, in order |
| `Catalogs.IndexesUnique` | src/meta/catalog_table.cpp:29-38 | there is one pair of maps for a list of tables |
| `Catalogs.LoadIff` | src/meta/catalog_table.cpp:29-38 | decoding the stored tables gives their maps iff no name contains a NUL |
| `Catalogs.LoadMaps` | src/meta/catalog_table.cpp:29-38 | the decoding loop fills both maps with what the records decode to, the last one winning |
| `Catalogs.Restart` | src/meta/catalog_table.cpp:5-45 | a catalog whose names have no NULs is the same after its page is decoded again: counter, free space pointer and both maps |
| `Catalogs.IndexesRemove` | src/include/meta/catalog_table.h:122-126 | removing a table from both maps leaves the maps of the remaining tables |
| `Catalogs.CatalogTable.FromScratch` | src/meta/catalog_table.cpp:5-45 | an initialised page is the empty catalog |
| `Catalogs.CatalogTable.FromPage` | src/meta/catalog_table.cpp:5-45 | decoding any page whose records are readable gives counter, free space pointer and the maps of what the records decode to; for a page that holds given tables this is the catalog of these tables iff no name contains a NUL |
| `Catalogs.CatalogTable.CreateTable` | src/meta/catalog_table.cpp:57-105 | succeeds iff the name is new, name and record fit into the space between records and names, and there is a page; counter and free space pointer follow; then a restart reads the old tables as before, and the new one iff its name has no NUL and there was a byte to spare, or it is empty or begins with the highest byte of its id |
| `Catalogs.CatalogTable.DeleteTable` | src/meta/catalog_table.cpp:118-179 | removes exactly the table with that id from page and maps and keeps the order of the others; unknown ids change nothing |
| `Catalogs.CatalogTable.FindTable` | src/meta/catalog_table.cpp:129-138 | finds the record of every id in the map |
| `Catalogs.MoveTable` | src/meta/catalog_table.cpp:164-168 | one round of the moving loop |
| `Catalogs.MoveTables` | src/meta/catalog_table.cpp:156-169 | the loop moves every table behind the deleted one |
| `HashPages.NextLive` | src/storage/page/table_page.cpp:146-188 | the first occupied slot from a slot on, or -1 if there is none |
| `HashTableOrder.PageExact` | src/table/lk_ha_tb_iter.cpp:124-129 | the tuples of a page are listed once each, in slot order |
| `HashTableOrder.ChainExact` | src/table/lk_ha_tb_iter.cpp:117-151 | the tuples of a chain of distinct pages are listed once each |
| `HashTableOrder.GridExact` | src/table/lk_ha_tb_iter.cpp:98-170 | the order of iteration lists every live tuple of the table once and nothing else |
| `HashTableOrder.GridAscends` | src/table/lk_ha_tb_iter.cpp:98-170 | the order of iteration is by first-level slot, second-level slot, place in the chain and slot of the page |
| `HashTableIters.ScanChain` | src/table/lk_ha_tb_iter.cpp:117-151 | the next tuple in the page or in the pages linked behind it, empty pages skipped |
| `HashTableIters.NextUsed` | src/table/lk_ha_tb_iter.cpp:154-156 | the next slot in use of a directory page; all between are unused |
| `HashTableIters.ScanRow` | src/table/lk_ha_tb_iter.cpp:107-158 | the next tuple in the chains of a second-level page |
| `HashTableIters.LinkHashTableIter.constructor` | src/table/lk_ha_tb_iter.cpp:6-76 | stands on the first tuple of the table, with the whole table ahead |
| `HashTableIters.LinkHashTableIter.Next` | src/table/lk_ha_tb_iter.cpp:78-179 | moves to the next tuple of the order; what is ahead loses its first element and nothing else |
| `HashTableIters.Iterate` | src/table/lk_ha_tb_iter.cpp:6-179 | iterating to the end terminates and gives every live tuple exactly once, by directory slots, chain and page slot |
| `LinkHashTree.HashToSlot` | src/index/link_hash.cpp:13-17 | both slots are in range and together are the hash modulo the number of slots |
| `LinkHashTree.GrowSecondKeeps` | src/index/link_hash.cpp:209-219 | a new second-level page changes no bucket, and no two slots share a page |
| `LinkHashTree.AddBucketKeeps` | src/index/link_hash.cpp:233-241 | a new table page changes that bucket only, and no two slots share a page |
| `LinkHashTree.DropBucketKeeps` | src/index/link_hash.cpp:150-173 | dropping the page of a bucket changes that bucket only |
| `LinkHashTree.KeyInBucket` | src/index/link_hash.cpp:24-87 | a key is in the map iff its bucket has it |
| `LinkHashTree.LiveCountClear` | src/index/link_hash.cpp:386-391 | a deletion leaves one tuple less on the page, so that the page becomes empty iff it held one |
| `LinkHashTree.InsertRefines` | src/index/link_hash.cpp:184-291 | a tuple with a new key put into its bucket extends the map by that entry |
| `LinkHashTree.ClearRefines` | src/index/link_hash.cpp:378-391 | taking a tuple out of its bucket removes that entry only |
| `LinkHashTree.DropRefines` | src/index/link_hash.cpp:378-402 | so does taking out the last tuple and dropping the page |
| `LinkHashes.FindsAllIff` | src/index/link_hash.cpp:56-85 | a search along a chain finds every key iff no empty page comes before one with tuples |
| `LinkHashes.GapHides` | src/index/link_hash.cpp:56-65 | a chain of two pages with an empty first one: the key of the second page is there and is not found |
| `LinkHashes.ExtendedIff` | src/index/link_hash.cpp:254-275 | the new page is linked in both directions but not initialised: the longer chain ends with it iff its bytes name no next page, and the bucket gains only the new tuple iff its bytes show no foreign one; no other page changes |
| `LinkHashes.ExtendedFinds` | src/index/link_hash.cpp:251-275 | a chain is extended when all its pages are full, so that a search finds every key of the longer one |
| `LinkHashes.FindInPage` | src/index/link_hash.cpp:67-79 | finds a slot with the key iff the page has the key |
| `LinkHashes.LinkHashIndex.FindInChain` | src/index/link_hash.cpp:56-86 | finds the key iff it is visible, that is, no empty page comes before it; pin counts as before |
| `LinkHashes.LinkHashIndex.CheckDuplicate` | src/index/link_hash.cpp:24-87 | the same for the bucket of the key, through both directory levels |
| `LinkHashes.LinkHashIndex.GetTuple` | src/index/link_hash.cpp:296-315 | success iff the key is in the map, with its entry; pin counts as before |
| `LinkHashes.LinkHashIndex.EnsureSecond` | src/index/link_hash.cpp:199-224 | the second-level page exists afterwards and is pinned; every bucket as before |
| `LinkHashes.LinkHashIndex.EnsureBucket` | src/index/link_hash.cpp:226-246 | the table page exists afterwards and is pinned; the bucket holds what it held |
| `LinkHashes.LinkHashIndex.FindRoom` | src/index/link_hash.cpp:251-284 | walks to the first page with room or to the last page; only that page is pinned |
| `LinkHashes.LinkHashIndex.InsertIntoChain` | src/index/link_hash.cpp:248-288 | the first page of the chain with room takes the tuple in its first empty slot; without room a page from the pool, as it is, is linked behind the last one and takes it; without such a page it fails; no other page or slot changes, no page stays pinned |
| `LinkHashes.LinkHashIndex.InsertTuple` | src/index/link_hash.cpp:184-291 | DUP_KEY iff the key is in the map, also if its bucket is full, and then nothing changes; with room the map gains exactly that entry; a full bucket is extended by a page from the pool, or NEW_PG_FAIL and nothing changes; pin counts as before, new pages unpinned |
| `LinkHashes.LinkHashIndex.CollectEmpty` | src/index/link_hash.cpp:132-148 | the empty pages at the front of a chain of any length, all pinned, and the first page with tuples |
| `LinkHashes.LinkHashIndex.RemoveEmpty` | src/index/link_hash.cpp:132-164 | exactly these pages are deleted |
| `LinkHashes.LinkHashIndex.ClearEmptyPage` | src/index/link_hash.cpp:108-182 | the slot refers to the first page with tuples or to none, whose previous page is none; pin counts of surviving pages as before |
| `LinkHashes.ClearedChain` | src/index/link_hash.cpp:108-182 | afterwards the slot holds the rest of the chain, which starts with a page with tuples, and the deleted pages are gone; no other page, slot or tuple changes |
| `LinkHashes.LinkHashIndex.ApplyDelete` | src/index/link_hash.cpp:378-402 | the map loses the key and nothing else, whoever has pinned a page that keeps further tuples; of such a page exactly one slot is emptied; a page that becomes empty is deleted; pin counts of surviving pages as before |
| `LinkHashes.LinkHashIndex.constructor` | src/include/storage/page/link_hash_page.h:19-23 | a new directory page is the empty map |
| `IndexScans.IndexTable` | src/index/link_hash.cpp:184-402 | every state of the index is a table of unshared chains with non-empty first pages, as the iterator needs it |
| `IndexScans.ScanExact` | src/table/lk_ha_tb_iter.cpp:6-179 | the listed tuples of an index are the entries of its map, with different keys |
| `IndexScans.ScanIndex` | src/table/lk_ha_tb_iter.cpp:6-179 | a full iteration over an index enumerates its map, each entry once |
| `PageCells.NextMatches` | src/storage/page/table_page.cpp:146-188 | stepping through the tuples of a page in bytes is stepping through its slots |
| `PageCells.CountMatches` | src/storage/page/table_page.cpp:190-199 | both have the same number of tuples |
| `PageCells.InsertBoth` | src/storage/page/table_page.cpp:30-52 | a page in bytes inserts at the slot the index expects below its capacity; at capacity it refuses, unless the size spills, and then answers with slot -1 |
| `PageCells.DeleteBoth` | src/storage/page/table_page.cpp:76-104 | a page in bytes loses the tuple the index takes out |

## Left out

- LinkHashes.LinkHashIndex.InsertTuple: after a full bucket was extended by a page that was not initialised (src/index/link_hash.cpp:254-275) the pages are given exactly, but the index is shown to be a map while buckets have one page.
- LinkHashes.LinkHashIndex.InsertIntoChain: requires that the bytes of the page from the pool read as a table page with room; otherwise the code would go on along the next page they name.
- The pool below the index: the index counts pins itself. Its deletion of a page lacks the frame that stays in the replacer (`BufferPools.BufferPool.DeletePage`), so that over the real pool a deletion that drops a page can break pin safety for later insertions.
- `lk_ha_mark_delete`, `lk_ha_update_tuple` and `lk_ha_rollback_delete`: unfinished, or a page stays pinned on some path.
- LinkHashes.LinkHashIndex.ApplyDelete: if the page becomes empty, requires that nobody else has pinned it, since the code would wait for that (src/index/link_hash.cpp:154-163).
- TablePages.TablePage.ApplyDelete: requires an occupied slot; for an empty one the code would move a negative number of bytes.
- TablePages.TablePage.GetTuple: requires that the record of the slot lies inside the page; the code does not check it. The iterator also asks for slot -1, whose record is in the reserved zero bytes in front of the tuple count, so that the answer is no.
- TablePages.TablePage.GetTheFirstTuple: requires that the first tuple is not marked as deleted; the code takes the size field with the mark in it.
- Catalogs.CatalogTable.FromPage: requires that every name lies inside the page and ends with a NUL; the code would read on behind the page.
- TableMetaDatas.WriteSchema: requires that the records fit into the page, which the code supposes.
- BufferPools.BufferPool.UnpinPage: requires that clients pin before they write and report their writes before the last pin goes.
- ActionTable.ActTab.AddAction: requires lookaheads to be symbols and different from each other within a set, as LEMON calls it.
- Pages left pinned by the constructor of the iterator; the iterator reads pages and its own pins are not counted.
- `CatalogTable::change_table_name`: declared unsupported in its header.
- Concurrency inside the operations of pool, catalog and index: each is one step; only the latch is modelled as interleaved threads.
- Failing reads and writes of the disk; 32-bit overflow of page ids and of the doubled id space.
- The Murmur hash: any function from keys to numbers; keys are integers.
- Executors, expressions, the lexer, the syntax tree, the server and its threads.
- LEMON's command line, grammar reader, reports, table compression and the text of the emitted parser beyond the arrays that its action lookup reads.
