# Verified model of the page store and of the I/O pipeline

The repository holds two components that are modelled here: a B+tree on slotted pages (`src/tree/`), and an
event-driven pipeline that writes, flushes, reads back and traces pages (`src/scheduler.c`, `src/cbuf.c`, `src/main.c`).

## The B+tree

A page has 4096 bytes: a header of 56, an array of 4-byte slots growing up, cells growing down from `cell_offset`, and a
linked list of dead cells threaded through the cells themselves.

* `Keys` is the order of keys: lexicographic, the end of a key counting above every byte.
* `Pages` is a page as a value, and what each operation of `src/tree/node.c` makes of it, including 32-bit truncation.
  `PageLaws` and `PageRuns` say what that means for space: which bytes are free, live or dead.
* `Memory` says when 4096 bytes hold such a page. The class `Nodes.Node` changes header fields and bytes in place, as the C
  code does, and every method is proved to make the page what the function in `Pages` says. `PageWitnesses` has pages that
  the code can build and on which it does what one would not expect.
* `Trees` is a tree of pages: uniform depth, key intervals, no page used twice, every separator stored in the leaf to its
  right. `TreeLaws`, `TreeInsert`, `TreeGrowth`, `TreeRefinement`, `TreeLimits`, `TreeBreaks`, `TreeSpace` and
  `TreeTheorem` lead to what `btree_insert` does to one tree, `TreeRuns` to what any number of calls does.
* `TreeCascades` is about any path of sorted pages, in a tree or in what an internal split has left of one: every level of a
  cascade of splits conserves its keys. `TreeWitnesses` runs from the empty tree to an internal split, and shows that the code
  can go on behind it.
* The class `BTrees.BTree` is `btree_insert` itself: breadcrumbs, planning from the leaf up, new root, writing from the top down.
  What it asks of a page before it changes it (`CanSplit`, `TakesSep`, `TakesPair`, `FitsRoot`) is what the methods of
  `Nodes.Node` ask, so every call is one that they accept.

Some properties one would expect do not hold for all inputs; each of these is stated with its exact condition, and with an
input that the code can meet and on which it fails.

* Keys compare in the intended order exactly when the sizes differ by less than 2^31 or the common bytes differ.
* An insertion keeps a page sound exactly when four more bytes are free for the slot. The room test does not ask for them.
* Reusing a dead extent sets `cell_offset` to it. All cells stay above `cell_offset` exactly when nothing lies below it.
  Otherwise a later request is given unused bytes exactly when nothing lies in the bytes before `cell_offset`.
* `tombstone_bytes` stays the sum of the dead sizes exactly when a reused extent is used up without a remainder.
* The fullness test walks the whole dead list, the allocator tries its head only. A page that is not full can refuse a cell
  exactly when only a later dead extent would fit.
* After an insertion the tree is well-formed exactly when no internal page was split and the key was new. When an internal
  page is split, the new page lacks its rightmost child or shares one, and the root is not the root of a tree of any height.
  It follows that trees stay well-formed for two levels only, and that sixteen breadcrumbs always suffice for those.

What the code takes for granted is a precondition of `BTree.Insert`: pages that split have their split point inside
(`PageRuns.FullPageSplitsInside` gives sizes for which that is so), and a page that receives a cell has room for it and its slot.

## The pipeline

`Pipeline` is a state machine. One event is one completion that the kernel delivers: a timeout of one of four jobs, a write, a
read, an fsync, the write or the fsync of a trace dump, or nothing. What the kernel still owes is part of the state. All
counters have their C widths: batches adapt to an 8-bit in-flight counter that wraps, page ids and the ring buffer counters have
32 bits, trace offsets 64. `PipelineLog` adds a log of everything issued and returned. `Liveness` is about infinite fair runs.
The class `Scheduler.ThreadContext` has the callbacks as they are written, with the list of unflushed writes threaded through
the operations, and the main loop; every callback is proved to be its step of `Pipeline`.

The assertion that writes complete in the order of their ids always holds when the kernel delivers them in issue order.
Writer, flusher and reader stop in every fair run. The tracer need not: its last tick gets stuck exactly when the buffer is empty.

`StatsBuckets` is the sliding window of the statistics. Its totals are those of the last epochs modulo 2^64. A 32-bit epoch
counter that wraps keeps naming the right slots exactly when the number of slots divides 2^32; seven does not. On the move that
wraps it a total is still right exactly when the slot that is named holds the value that leaves the window.

## Model

| member | source | states |
|---|---|---|
| Keys.CompareExact | src/tree/node.c:178-185 | the comparison decides "comes before", "comes after" and "equal" correctly if and only if the size difference keeps its sign as a 32-bit int or the common bytes differ |
| Keys.CompareMeaning | src/tree/node.c:178-185 | for keys below 2^31 bytes the sign of the comparison is the lexicographic order with the end of a key above every byte |
| PageWitnesses.LongKeyMisplaced | src/tree/node.c:181-182 | a key of 2^31 bytes comes before the empty key and is reported as coming after it |
| Keys.PrecedesTransitive | src/tree/node.c:178-185 | the order is transitive |
| Keys.PrecedesTrichotomy | src/tree/node.c:178-185 | of two keys exactly one comes first, or they are equal |
| Keys.PrefixComesLast | src/tree/node.c:181-182 | a proper prefix comes after its extensions |
| Nodes.Node.constructor | src/tree/node.c:9-21 | an initialised page decodes to the empty page |
| Nodes.Node.KeyCompare | src/tree/node.c:166-176 | compares the key of a slot, read from the bytes, in the order of keys |
| Nodes.Node.BinSearch | src/tree/node.c:187-215 | on a strictly sorted page, ends, finds the key if and only if the page holds it, and returns its rank either way |
| Nodes.Node.IsFull | src/tree/node.c:234-256 | the walk over the dead list ends; full if and only if neither free space nor any dead extent is large enough |
| Nodes.Node.GetFreeOffset | src/tree/node.c:258-308 | on the bytes, allocates as the page-level allocator does, carving a remainder in place; the page still decodes |
| Nodes.Node.PartitionIdx | src/tree/node.c:329-343 | the loop computes the split point of the decoded cells |
| Nodes.Node.WriteLeafCell | src/tree/node.c:477-486 | the bytes written hold the leaf cell, no other byte changes |
| Nodes.Node.WriteInternalCell | src/tree/node.c:488-497 | the bytes written hold the internal cell, no other byte changes |
| Nodes.Node.InsertLeafCell | src/tree/node.c:446-460 | memmove of the slots and the cell write insert the cell at idx into the decoded cells; everything else decodes as before |
| Nodes.Node.InsertInternalCell | src/tree/node.c:462-475 | the same for an internal cell |
| Nodes.Node.InsertNonfull | src/tree/node.c:320-327 | with room for cell and slot, allocation and insertion together put the cell at idx, keep the page sound, and keep cell_offset below all cells if and only if KeepsValid |
| Nodes.Node.PutLeaf | src/tree/btree.c:232-240 | on the bytes of a leaf: allocation, search and insertion give PutLeaf of the decoded page |
| Nodes.Node.SetChild | src/tree/btree.c:205-208 | overwriting the child of a cell, or the rightmost child, changes nothing else of the decoded page |
| Nodes.Node.AddSep | src/tree/btree.c:199-214 | on the bytes of an internal page: search, redirection, allocation and insertion give AddSep of the decoded page |
| Nodes.Node.FillRoot | src/tree/btree.c:148-156 | on the bytes of a new root: allocation, insertion and the rightmost child give RootPage, a valid page |
| Nodes.Node.SetTombstone | src/tree/node.c:428-444 | turning a cell dead in place puts its extent at the head of the dead list and keeps all other live cells and dead extents readable |
| Nodes.Node.DeleteKey | src/tree/node.c:405-426 | returns 0 if and only if the page held the key; then the other cells remain in their order, strictly sorted and without the key, the cell's extent is the new head of the dead list, and nothing else changed |
| Nodes.Node.LeafSplit | src/tree/node.c:376-403 | copying cells and burying them in turn leaves the left cells on the page and the others as its newest dead extents, last one first; the new page has copies of those, in order, each directly below the one before it |
| Nodes.Node.InternalSplit | src/tree/node.c:345-374 | the same, but the partition cell is buried and not copied, and the rightmost child is not handed on |
| Memory.DecodeUnique | src/tree/node.c:137-164 | the bytes determine the cells in the slots |
| Memory.DeadListUnique | src/tree/node.c:245-251 | the bytes determine the dead list from its head on |
| PageLaws.FreeSpaceExact | src/tree/node.c:260-261 | on a valid page the unsigned free-space difference does not wrap |
| PageLaws.AllocationSound | src/tree/node.c:258-308 | a nonzero offset starts an extent that meets no slot, no live cell and no remaining dead extent; it is nonzero if and only if free space or the head extent is large enough |
| PageLaws.AllocationOnSound | src/tree/node.c:258-308 | on a page that is sound but not valid, a nonzero offset starts unused bytes in the reuse branch always, and in the free-space branch if and only if nothing lies in the bytes before cell_offset |
| PageLaws.AllocationMeaning | src/tree/node.c:258-308 | the three outcomes of an allocation in numbers: below cell_offset, the front of the first dead extent with the rest kept if longer than 16 bytes, or nothing |
| PageLaws.FullMeaning | src/tree/node.c:234-256 | the fullness test in numbers: neither the bytes below cell_offset nor any dead extent hold the cell rounded up to four |
| PageLaws.FullAndAllocation | src/tree/node.c:234-308 | a nonzero offset means not full; refusing on a page that is not full happens if and only if only a later dead extent fits |
| PageWitnesses.NotFullButRefused | src/tree/node.c:234-308 | a page built by inserts and deletes that is not full and still allocates nothing |
| PageLaws.InsertSound | src/tree/node.c:446-475 | a cell put into an unused extent keeps the page sound if and only if its new slot has room |
| PageWitnesses.SlotOverwritesCell | src/tree/node.c:236-240 | a page built by an insert that is not full, whose next cell starts in the bytes of its own slot |
| PageLaws.InsertValid | src/tree/node.c:265-308 | after an allocation and insertion cell_offset is still below all cells if and only if KeepsValid: four spare bytes in the free-space branch, the lowest extent in the reuse branch |
| PageWitnesses.ReuseThenCorruption | src/tree/node.c:274-295 | on a built page reuse leaves a live cell below cell_offset, and the next insertion overwrites that cell |
| PageLaws.DeleteValid | src/tree/node.c:405-444 | deleting keeps live cells and dead extents disjoint and tombstone_bytes exact |
| PageLaws.DeletedMeaning | src/tree/node.c:420-423 | a deletion on a sorted page removes the one cell with the key and keeps the order of the others |
| PageLaws.ReuseTombBytes | src/tree/node.c:272-296 | reuse keeps tombstone_bytes the sum of the dead sizes if and only if no remainder is lost |
| PageWitnesses.ReuseLosesBytes | src/tree/node.c:279-292 | on a built page reuse with a remainder leaves tombstone_bytes larger than what is dead |
| PageLaws.TombsDistinct | src/tree/node.c:243-251 | the dead list visits different, nonzero offsets |
| PageLaws.CellsFit | src/tree/node.c:234-238 | the live cells of a valid page take no more bytes than lie above cell_offset |
| PageLaws.BuryAllTombs | src/tree/node.c:388-396 | burying the moved cells one by one makes exactly their extents the new dead ones, the last one first |
| PageLaws.SplitLeftValid | src/tree/node.c:388-399 | the split page stays valid and its tombstone_bytes stay exact |
| PageLaws.SplitRightValid | src/tree/node.c:388-398 | the moved cells always fit in the new page, which is valid |
| PageLaws.SplitKeepsCells | src/tree/node.c:345-403 | a split loses, repeats and reorders nothing but the partition cell of an internal page |
| PageRuns.LeftMeaning | src/tree/node.c:358-396 | the old page of a split, in full: front cells, dead list, everything else as before |
| PageRuns.RightMeaning | src/tree/node.c:359-396 | the new page of a split, in full: which cells, in which order, at which offsets |
| PageRuns.PartitionMeaning | src/tree/node.c:335-342 | the split point is the least prefix of at least 1992 bytes, or all cells |
| PageRuns.SplitPoint | src/tree/node.c:335-342 | the same in numbers, with the bytes counted cell by cell: the least prefix of at least 1992 bytes of 16 + key + value each |
| PageRuns.Overshoot | src/tree/node.c:335-342 | it is positive and overshoots by less than one cell |
| PageRuns.PartitionInside | src/tree/node.c:335-342 | it is at most k if and only if k is all cells or the first k cells reach half a page |
| PageRuns.FullPageSplitsInside | src/tree/node.c:234-256 | a full page without dead cells, with cells of at most 480 bytes, splits inside; with at most 300 bytes a cell is left over behind the partition cell |
| PageRuns.RunKeeps | src/tree/node.c:405-475 | every sequence of free-space inserts, deletes and splits keeps a page valid and tombstone_bytes exact; RunPlaced is about reuse |
| PageRuns.BuiltPages | src/tree/node.c:9-21 | so is every page built from an initialised one |
| PageRuns.RunPlaced | src/tree/node.c:258-475 | every sequence of inserts in either branch, deletes and splits keeps a page sound, as long as no insert takes free space in which something lies |
| Trees.InsMeaning | src/tree/btree.c:235-240 | sorted insertion puts the pair behind all smaller keys and changes nothing else |
| Trees.InsSorted | src/tree/btree.c:235-240 | the pairs stay strictly sorted if and only if the key was new |
| TreeLaws.ShapeOrdered | src/tree/btree.c:45-68 | the pairs of a well-formed subtree are strictly sorted and inside its interval |
| TreeInsert.PutLeafMeaning | src/tree/btree.c:231-240 | storing in a leaf page is sorted insertion of its pairs, also when the key is there already |
| TreeInsert.AddSepMeaning | src/tree/btree.c:199-214 | adding a separator puts the old child before it and the new page behind it, between the same neighbours |
| TreeInsert.HalvesMeaning | src/tree/node.c:345-403 | what both halves of a split page hold, and that the new page has no rightmost child |
| TreeRefinement.InsertSubtree | src/tree/btree.c:76-240 | for every well-formed subtree without internal splits: what the path algorithm leaves in its place holds the old pairs with the new one at its rank, and is well-formed when the key is new |
| TreeLimits.DescentMeetsSeparators | src/tree/btree.c:45-54 | the descent meets a key if and only if it is a separator anywhere in the tree |
| TreeLimits.SeparatorsAreStored | src/tree/btree.c:49-53 | a key met as a separator is stored in a leaf, so the early return is truthful |
| TreeLimits.PlanSepInside | src/tree/btree.c:80-135 | the key that a splitting page pushes up lies strictly inside the page's interval |
| TreeCascades.CascadeConserves | src/tree/btree.c:102-222 | for any path of different sorted pages that ends in a leaf, in a tree or not: every level that splits satisfies old keys with the received key = left keys, separator, right keys, in order, and every other level receives its key or stays as it is; the pairs of the leaf become sorted insertion over both halves, and the children of every internal level are the old ones with the new page behind the old child, a right half ending in none |
| TreeCascades.GrownSorted | src/tree/btree.c:199-214 | the keys of a level stay strictly sorted if and only if the key it receives is new to it |
| TreeTheorem.InsertConserves | src/tree/btree.c:76-240 | the same for the whole insertion, with a root that splits: its separator is alone in the new root, between its halves |
| TreeTheorem.TreeReceivesNew | src/tree/btree.c:76-240 | in a tree every key that a level receives is new to it |
| TreeTheorem.TreesAreOnTrack | src/tree/btree.c:45-71 | in a tree the path of every key consists of different sorted pages, the last one a leaf |
| TreeTheorem.InsertFlags | src/tree/btree.c:141-164 | after an insertion exactly one page carries the root flag, the root, old or new |
| TreeBreaks.HalvesClash | src/tree/node.c:345-374 | the halves of a split internal page lack a rightmost child or share a child |
| TreeBreaks.PathBreaks | src/tree/btree.c:176-222 | after an internal split below a page, that page is not well-formed at any height and for any interval |
| TreeSpace.PathSpace | src/tree/btree.c:176-240 | over the whole path all pages stay sound, and all keep cell_offset below their cells if and only if every receiving page does |
| TreeTheorem.InsertRefines | src/tree/btree.c:38-244 | storing a key that is no separator: sorted insertion without internal splits; well-formed afterwards if and only if no internal page split and the key was new; otherwise no tree of any height |
| TreeWitnesses.CascadeReached | src/tree/btree.c:102-222 | six calls from the empty tree make a proper tree whose next insertion lacks nothing, splits the root and leaves no tree |
| TreeWitnesses.StoredTwice | src/tree/btree.c:235-240 | a key given twice is stored twice when it is no separator, and the tree is not proper |
| TreeWitnesses.GoesOnBroken | src/tree/btree.c:176-222 | behind that internal split the path of the next key still meets all that an insertion asks of a path |
| TreeTheorem.InsertSpace | src/tree/btree.c:38-244 | with room in every receiving page no page is corrupted, in a tree or not, with the exact condition for cell_offset |
| TreeRuns.StepProper | src/tree/btree.c:38-244 | a call that has room leaves a proper tree if and only if it is allowed, and then the contents are sorted insertion or unchanged |
| TreeRuns.RunStores | src/tree/btree.c:38-244 | every run of allowed calls keeps a proper tree and stores for every new key its first value |
| TreeRuns.BuiltFromEmpty | src/tree/btree.c:38-244 | from the empty tree the leaves hold, strictly sorted, exactly the first pair given for every key |
| TreeRuns.FirstCall | src/tree/btree.c:231-243 | the first call is allowed, and stores its pair, for every pair that fits in an empty page |
| TreeRuns.TwoLevels | src/tree/btree.c:141-164 | such trees never have more than two levels |
| BTrees.PlanNumbers | src/tree/btree.c:104-135 | new pages are allocated from the leaf up, and a page only splits when the one below it does |
| BTrees.PlanMeaning | src/tree/btree.c:78-135 | for every path and level, in numbers: a page splits if and only if the one below it does and it has no room for the key pushed up, the leaf if and only if it has none for the pair; the split point is the least prefix of at least 1992 bytes; the key there moves up |
| BTrees.ApplyLevels | src/tree/btree.c:167-222 | every page of the path ends as its own level of the plan says |
| BTrees.HalfwayFacts | src/tree/btree.c:231-240 | the final pages are those after the downward loop with the pair stored in the receiving half |
| BTrees.SuppliedInner | src/tree/btree.c:191-214 | every internal page that is split or receives a separator is one that the page methods accept for it |
| BTrees.SuppliedLeaf | src/tree/btree.c:184-240 | the leaf that is split, and the half that receives the pair, are ones that the page methods accept for it |
| BTrees.SuppliedRoot | src/tree/btree.c:148-156 | the separator of a root that splits fits in an empty page |
| BTrees.BTree.constructor | src/tree/btree.c:8-18 | an initialised tree is well-formed and empty |
| BTrees.BTree.PlanPage | src/tree/btree.c:104-135 | one breadcrumb: the new page, the receiving half, and as split point the least prefix of at least 1992 bytes |
| BTrees.BTree.PlanSplits | src/tree/btree.c:76-137 | the upward loop fills the breadcrumbs with the plan, up to the first page that has room, and writes no old page |
| BTrees.BTree.GrowRoot | src/tree/btree.c:141-164 | the new root has one separator between the old root and the page split off it |
| BTrees.BTree.Find | src/tree/node.c:187-215 | the search in a page of the path, which is sorted |
| BTrees.BTree.ApplyLevel | src/tree/btree.c:167-222 | one turn of the downward loop writes its level although the child is still unsplit |
| BTrees.BTree.Propagate | src/tree/btree.c:167-222 | the downward loop arrives at the planned pages |
| BTrees.BTree.SplitPath | src/tree/btree.c:76-224 | the whole branch of a full leaf, for any path of sorted pages: every breadcrumb is decided as PlanMeaning says, the pages are those of InsertAll but for the pair, every level conserves what it holds, and the half chosen accepts the pair |
| BTrees.BTree.Descend | src/tree/btree.c:41-71 | along any path of sorted pages: ends early if and only if the key is a separator on the way; otherwise the breadcrumbs are the path to a leaf |
| BTrees.BTree.StoreInLeaf | src/tree/btree.c:231-241 | the pair goes into the chosen leaf, count goes up by one modulo 2^32 |
| BTrees.BTree.Insert | src/tree/btree.c:38-244 | along any path of sorted pages: returns 1 and changes nothing if and only if the key is a separator on the way; otherwise the pages become InsertAll, no page is corrupted and every level conserves its keys. In a tree: a key met as a separator is stored, the contents become sorted insertion without internal splits, and the tree is valid afterwards if and only if no internal page split, the key was new and every receiver keeps cell_offset |
| Pipeline.AdaptBounds | src/scheduler.c:287-295 | batches never exceed 16382, and with nothing in flight they are positive |
| Pipeline.AdaptExact | src/scheduler.c:287-295 | the batch size in numbers for every range of the in-flight counter: doubled, grown or lowered by one in a hundred, or left as it is |
| Pipeline.RampUp | src/scheduler.c:287-290 | a job that always finds nothing in flight has batches 1, 2, 4, ... up to 8192, where they stay |
| Pipeline.CreepUp | src/scheduler.c:287-292 | with one to eight in flight the batch grows every tick until it reaches 8192, and ends at 8272 at most |
| Pipeline.BackOff | src/scheduler.c:294-295 | with 32 or more in flight the batch falls every tick down to 0, and by one in a hundred at most while it is large |
| Pipeline.WriterKeeps | src/scheduler.c:277-326 | a writer tick keeps the invariant: ids owed in order, 8-bit counter right modulo 256, one timeout if and only if running |
| Pipeline.ReaderKeeps | src/scheduler.c:214-275 | a reader tick keeps it: the subtraction from the flush watermark does not wrap, reads stay behind it |
| Pipeline.ReaderSends | src/scheduler.c:242-272 | a reader tick issues one read for each of the next pages, as many as the adapted batch and the flushed pages allow, and keeps that number as its batch |
| Pipeline.FlusherKeeps | src/scheduler.c:328-359 | a flusher tick keeps it: at most one fsync, and only with something to flush |
| Pipeline.FlusherTicks | src/scheduler.c:337-356 | a flusher tick issues an fsync if and only if something is to be flushed and none is under way, and goes on if and only if fewer than 32768 pages are flushed |
| Pipeline.WrittenKeeps | src/scheduler.c:88-117 | the write that completes is the one expected, and write_list grows in order |
| Pipeline.SyncedKeeps | src/scheduler.c:179-212 | a completed fsync moves the watermark over exactly the listed pages |
| Pipeline.TracerKeeps | src/scheduler.c:384-429 | a tracer tick keeps the buffer within 64 items across counter wrap, and at most one dump under way |
| Pipeline.TickRecords | src/scheduler.c:390-415 | a tracer tick with fewer than 64 used items and a job running raises trace_done and the used count by one, any other tick neither |
| Pipeline.TickDumps | src/scheduler.c:417-426 | a tracer tick starts a dump of all used items if and only if none is under way and 32 are used, or no job runs and there are some; it waits for another tick unless no job runs and no dump was due |
| Pipeline.DumpWrittenKeeps | src/scheduler.c:146-162 | a written dump releases its items from the head, keeping the offsets in step with what was released |
| Pipeline.DumpSyncedKeeps | src/scheduler.c:164-177 | a synced dump advances the file offset by what it wrote |
| Pipeline.DumpSyncedEnds | src/scheduler.c:164-177 | a synced dump stops the tracer if and only if no other job is running |
| Pipeline.UsedMeaning | src/cbuf.c:43-51 | used and free count are right across counter wrap and add up to the length |
| Pipeline.UsedGrows | src/cbuf.c:67-70 | advancing the tail raises the used count by one |
| Pipeline.UsedShrinks | src/cbuf.c:72-75 | advancing the head lowers it by as much |
| Pipeline.StepKeeps | src/scheduler.c:56-58 | every step keeps the whole invariant |
| Pipeline.RunKeeps | src/main.c:90-104 | the invariant holds after every run: pages flow in order, timers and fsync flags match, page ids stay at most 49149, tracing is in step |
| PipelineLog.RunLogs | src/scheduler.c:88-263 | after every run: every page id went through each stage once and in order, no entry came before its turn, dumps abut in the trace file without gap or overlap |
| PipelineLog.RunBatches | src/scheduler.c:242-310 | after every run the batch a job keeps is the number of operations it issued last |
| PipelineLog.ReaderStartsOver | src/scheduler.c:224-263 | after a tick that read nothing, the next one with nothing in flight reads one page if any is flushed, else none |
| PipelineLog.NothingToRead | src/scheduler.c:224-263 | any number of reader ticks with nothing to read issue no read and leave a batch of 0 |
| PipelineLog.RunRecords | src/scheduler.c:397-415 | after every run trace_done is the number of ticks that had room and a job running, modulo 2^64 |
| PipelineLog.ReadsCameLast | src/scheduler.c:234-261 | no read is issued for a page before a completed fsync passed it, its write completed before that, its issue before that |
| PipelineLog.EndToEnd | src/main.c:102-103 | when writer, flusher and reader have stopped, each of the 32768 pages was written once, completed once, passed by one fsync and had one read issued, in this order |
| PipelineLog.FinalTick | src/scheduler.c:417-426 | the last tracer tick gets stuck if and only if the buffer is empty; otherwise its dump stops the tracer |
| PipelineLog.StuckForever | src/main.c:102-103 | once stuck, the tracer never stops and the main loop is never left |
| Liveness.SomeRunGetsStuck | src/main.c:90-104 | a run exists that stops writer, flusher and reader, and one tracer tick later the tracer is stuck |
| Liveness.NeverMore | src/scheduler.c:88-359 | no step adds to the work left, and a step that takes none away leaves the relevant state as it is |
| Liveness.Helps | src/scheduler.c:214-359 | while a job runs, some event is enabled that takes work away |
| Liveness.FairRunStops | src/main.c:90-104 | every fair infinite run stops writer, flusher and reader for good |
| Liveness.RoundMoves | src/scheduler.c:179-359 | with nothing outstanding and the reader running, one round of writer, flusher, fsync and reader moves a page id forward |
| Scheduler.ThreadContext.constructor | src/scheduler.c:478-535 | the initialised context with all jobs run is the initial state |
| Scheduler.ThreadContext.Append | src/scheduler.c:100-107 | appending to write_list keeps it linked, without repetition, in order |
| Scheduler.ThreadContext.PageWrittenCallback | src/scheduler.c:88-117 | is the step of a completed write |
| Scheduler.ThreadContext.PageReadCallback | src/scheduler.c:119-144 | is the step of a completed read |
| Scheduler.ThreadContext.FreeAll | src/scheduler.c:194-204 | visits and frees every listed operation once, in order, none of them freed before |
| Scheduler.ThreadContext.FileSyncedCallback | src/scheduler.c:179-212 | is the step of a completed fsync, and frees exactly the listed operations |
| Scheduler.ThreadContext.BackgroundReader | src/scheduler.c:214-275 | is the step of a reader tick, and issues as many reads as the batch it keeps |
| Scheduler.ThreadContext.IssueWrites | src/scheduler.c:297-310 | allocates one operation per page of the batch and queues it in order |
| Scheduler.ThreadContext.BackgroundWriter | src/scheduler.c:277-326 | is the step of a writer tick, and issues as many writes as the batch it keeps |
| Scheduler.ThreadContext.BackgroundFlusher | src/scheduler.c:328-359 | is the step of a flusher tick |
| Scheduler.ThreadContext.DumpTracingItems | src/scheduler.c:361-382 | starts a dump of all items unless one is under way or there are none |
| Scheduler.ThreadContext.BackgroundTracing | src/scheduler.c:384-429 | is the step of a tracer tick |
| Scheduler.ThreadContext.TracingWrittenCallback | src/scheduler.c:146-162 | is the step of a written dump |
| Scheduler.ThreadContext.TracingSyncedCallback | src/scheduler.c:164-177 | is the step of a synced dump |
| Scheduler.ThreadContext.MainLoop | src/main.c:90-104 | after the delivered completions the context is in the state of the run, and it ends at the first state in which all four jobs have stopped |
| StatsBuckets.WindowMoves | src/scheduler.c:598-606 | a new element in a window of the last epochs adds itself and takes away the oldest |
| StatsBuckets.OldestSlot | src/scheduler.c:600-602 | the slot that comes next holds the epoch that leaves the window |
| StatsBuckets.SlotsSurviveWrap | src/scheduler.c:600 | a wrapping 32-bit counter names the right slots for ever if and only if the number of slots divides 2^32; seven does not |
| StatsBuckets.WrapGoesWrong | src/scheduler.c:600-602 | with seven slots, a full history on which the move that wraps the counter takes off the wrong slot and leaves a wrong total |
| StatsBuckets.StatsBucket.constructor | src/scheduler.c:582-591 | a fresh bucket has one empty epoch |
| StatsBuckets.StatsBucket.Add | src/scheduler.c:608-612 | adds to the current epoch; the totals stay those of the window modulo 2^64 |
| StatsBuckets.StatsBucket.Move | src/scheduler.c:598-606 | begins an epoch, also when the counter wraps; a total is the window's modulo 2^64 if and only if the slot named holds the evicted value, which is so without a wrap or when the number of slots divides 2^32 |
| StatsBuckets.TotalsExact | src/scheduler.c:598-612 | without 64-bit overflow the totals are exact and the next subtraction does not underflow |

## Left out

- io_uring itself, the capacity of its queues, `mmap`, `memfd`, file opening, clocks and logging: foreign calls. What the kernel owes is part of the state, and each callback is one step.
- Error completions, and writes that complete out of issue order: the code logs or asserts them, here they do not happen.
- Durability: an fsync also counts writes that completed while it was under way. Only the order of completions is stated.
- The contents of the ring buffer: the index into it is a byte offset that is not scaled by the item size. Only its counters are modelled.
- The tracer stopping, or leaving no items behind: neither holds in general.
- The status job and its display arithmetic: it changes no state of the other jobs.
- The buffers of read and write operations and the `user_fsync_callback` of a write, which is always null. Read operations are ids, their allocation is not modelled.
- Failing allocation: `malloc` hands out new addresses in increasing order.
- BTrees.BTree.Insert: works on decoded pages by address, not on `Nodes.Node` objects; update in place and aliasing are in `Nodes.Node` only.
- BTrees.BTree.Insert: asks for a split point inside each splitting page and room for cell and slot in each receiving page, as the code asserts or takes for granted, and for addresses below 2^64.
- PageRuns.RunKeeps: inserts that reuse a dead extent are not among its operations, since they keep neither property; `PageRuns.RunPlaced` is about those.
- TreeTheorem.InsertRefines: says nothing of a refused allocation, which the code asserts away; `TreeTheorem.InsertSpace` asks for room.
- `parent_pid`, which is set only when a root grows, overflow pages, and the reachability of children after an internal split.
- `btree_search`, which returns null on both paths, the `debug_` functions, `src/json.c` and `src/wal.c`.
- Byte order: words are little-endian.
