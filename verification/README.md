# NVMeVirt: verified models of its state machines

NVMeVirt emulates an NVMe SSD in a Linux kernel module. This project models the parts of it that keep state by rules of
their own, and proves what those rules promise, for every input and over whole runs.

- **Conventional FTL.** `FtlState`, `FtlGc`, `FtlCredits`, `HostWrite`: the abstract state (maps, page status, counters, line
  places, write pointers, credits) with its invariant. `HostRun`, `HostTight`, `HostTrace`: the results over whole runs. `Layouts`,
  `Counts`, `Geometry`, `GcOrder`: page layout, counting, and the order in which lines are written and collected.
  `FtlMirror`: the weaker invariant that holds while a collection runs. `PQueue`: the heap of victim lines with position
  back-pointers. `ConvFtl`: the class whose methods update tables, lists, heap and pointers in place, each tied to a
  transition of the abstract state. `ConvNamespace`: several instances behind one namespace.
- **Victim policies and the online tuner.** `Fractions` and `CatPolicy`: the exact order of lines. `FixedPoint`: the 64-bit
  fixed-point helpers. `Arms`, `Bandit`, `Tuner`, `Sampling`, `TunedFtl`: the sixty staircases, coverage and probing, the
  learner, its measuring windows, and a partition that tunes itself while it is written.
- **Channel bandwidth.** `Timeline` is an unbounded timeline of credits; `Channel` is the ring that refines it.
- **I/O worker queue.** `IoQueue`: two lists threaded through one array, with insertion, the worker's walk and reclaim.
  `IoHistory`: what holds over every history of these three.
- **Key-value index.** `KvIndex`: a coalesced-chain hash table that refines a map.
- **Zoned namespace.** `Zns`: zone states, resource counters and write pointers, after the Zoned Namespace Command Set
  Specification Revision 1.1a.

`Util` and `Arith` hold what the models share. Check everything with `dafny verify dfyconfig.toml`.

## How to read the FTL proofs

The methods of class `ConvFtl` take the abstract state before the step as a ghost argument and ensure
`Holds(Transition(s))`: the tables, lists, heap and counters represent the abstract state after the step. The promises are
then lemmas about the transitions. A collection breaks the invariant on purpose: it remaps pages without invalidating the old
copies and clears the counters only at the end. `FtlMirror.Mirrors` relates the real tables to a corrected state in which each
old copy was invalidated when it was copied; that state satisfies the whole invariant after every copy, and when the victim's
blocks are erased and its line is freed the two states are equal. Page contents are ghost data carried along with the pages.

A run (`HostRun.HostRun`) is a sequence of states in which each follows from the one before by what the code does: the page
is written, a credit is spent, and when credits are used up a line may be collected, page by page. A step from a state that
cannot take the write may lead anywhere, so that soundness, credits and free lines are conclusions about runs, not part of
their definition. `ConvFtl.WritePage` takes such a step.

Geometry is symbolic, with one plane per LUN. T is the number of lines, L the pages per line.

## Findings

- In every run of writes to n logical pages every forced collection of a device of five lines or more finds a line to
  collect, if and only if n < (T-4)*L (`HostTight.TightBound`); below that bound the device never runs out of free
  lines or of credits either (`HostRun.NeverRunsOut`), given the reserve at the start, which is there exactly when
  (T-3)*L >= 2 (`FtlCredits.InitialFunded`). The FTL checks addresses only against its physical size
  (nvmevirt_test/conv_ftl.c:1602). With 7 percent of over-provisioning (nvmevirt_test/ssd_config.h:103) the size that the
  namespace announces keeps the bound, if an instance has at least 62 lines of at least 18 pages
  (`ConvNamespace.LogicalSizeFits`).
- The slot difference of the channel ring is cut to 32 bits before it is compared with the used part
  (nvmevirt_test/channel_model.c:43-44). After an idle time of d slots the ring shows the present if and only if d fits 32
  bits or its low 32 bits reach the used length (`Channel.KeepsUp`); if not, it falls behind by the bits cut off, and
  `Channel.ChannelModel.Advance` says by how much. `Channel.StaleCredit` is the case of exactly 2^32 slots.
- An append that is held back for want of write buffer has its address overwritten with the write pointer
  (nvmevirt_test/zns_read_write.c:87-106). Offered again, it goes to the zone it was meant for if and only if that zone was
  not written to its end (`Zns.ZnsFtl.RetriedAppend`).
- An arm whose mean is 0xFFFFFFFF never leads, because the search for the minimum starts there with a strict comparison
  (nvmevirt_test/conv_ftl.c:321-330); `Tuner.Rated` excludes it.
- With the limits the zoned device installs, one resource of each kind per zone, no command is ever refused for want of
  resources (`Zns.NeverScarce`).
- experiment.md:21-23 describes a line's age differently from the code, which restarts it with every invalidation
  (nvmevirt_test/conv_ftl.c:1114-1115). The model follows the code.
- A key-value store of a different length above 1024 bytes writes the value but leaves the stored length as it was
  (nvmevirt_test/kv_ftl.c:533-539); the contract of `KvIndex.Index.Store` says so. The probe for a free slot ends if and
  only if the table is not full (`KvIndex.HasRoom`); the model reports a probe that has come round, where the code goes on.

## Model

| member | source | states |
|---|---|---|
| HostRun.NeverRunsOut | nvmevirt_test/conv_ftl.c:656-671 | in every run of page writes from a fresh device with (T-3)*L >= 2, to a space of n < (T-4)*L logical pages, every state satisfies the whole invariant, is funded (free lines * L + unwritten pages of both open lines - credits >= 2L+2) and can take a write of any of the n pages: a credit is left, and a free line if the open line fills up; a step of a run assumes none of this |
| HostRun.RunExists | nvmevirt_test/conv_ftl.c:1618-1663 | every list of writes below n can be carried out from beginning to end |
| HostRun.StepExists | nvmevirt_test/conv_ftl.c:1618-1663 | a funded device carries out any write, with whatever collection its refill entails |
| HostTight.TightBound | nvmevirt_test/conv_ftl.c:1462-1469 | with five lines or more, every collection forced in any run over n logical pages finds a victim if and only if n < (T-4)*L |
| HostTight.MissesAbove | nvmevirt_test/conv_ftl.c:1391-1396 | for every larger n there is a run, writing page after page, after which a collection is forced that finds nothing to collect |
| HostTight.StraightStep | nvmevirt_test/conv_ftl.c:779-845 | while each page is written once, lines fill up with valid pages only, credits run out exactly when a line fills up, and nothing is collected |
| HostRun.NoStall | nvmevirt_test/conv_ftl.c:732-746 | a funded state takes any write that fits: a credit is left (no unsigned underflow), a free line is there when the open line fills up, and when a collection is forced there is a victim with an invalid page and a free line to copy to |
| HostRun.StepSound | nvmevirt_test/conv_ftl.c:1618-1663 | one iteration of the write loop, with whatever collection it entails, keeps invariant and funding, changes the content of exactly the written page, and counts one host page |
| HostRun.CollectsRoom | nvmevirt_test/conv_ftl.c:1462-1469 | foreground_gc does nothing while more than two lines are free or no victim is queued; else it gains as much room as credits will be refilled, and no content changes |
| HostRun.CollectsFunds | nvmevirt_test/conv_ftl.c:663-671 | whether the collection is skipped or done, adding the refill keeps the invariant and the contents, and leaves a funded state if the space in use fits |
| HostRun.ProgrammedPages | nvmevirt_test/conv_ftl.c:1643-1645 | after i writes of any run i + GC page writes = mapped pages + invalid pages still counted + L * collections, so write amplification is determined by the tables |
| HostTrace.StampsLatest | nvmevirt_test/conv_ftl.c:1107-1117 | in every run the stamp of a line is the time of the latest invalidation of one of its pages, or 0 if there was none since the line was free |
| HostTrace.StepMarks | nvmevirt_test/conv_ftl.c:1618-1663 | one step stamps exactly the line whose page it invalidates and forgets the stamp of a line it frees; lines are opened in the order in which they were freed |
| HostTrace.CollectionMarks | nvmevirt_test/conv_ftl.c:1379-1389 | a collection resets the stamp of its victim and of no other line, and puts the victim behind all free lines |
| HostTrace.CountersTrack | nvmevirt_test/conv_ftl.c:1446-1455 | in every run measuring starts with the hundredth collection, which is not measured itself, and from then on the measured counters move with the lifetime counters |
| HostRun.ReadsLastWrite | nvmevirt_test/conv_ftl.c:1618-1648 | in every run of host writes, across all its collections, a read of a logical page returns the last write to it |
| FtlCredits.InitialFunded | nvmevirt_test/conv_ftl.c:718-725 | a fresh device is funded if and only if (T-3)*L >= 2 |
| FtlCredits.HostFindsLine | nvmevirt_test/conv_ftl.c:732-746 | a funded host write that uses up its line finds a free line |
| FtlCredits.CollectorFindsLine | nvmevirt_test/conv_ftl.c:828-833 | with all credits spent a free line is still left for the collector's write pointer |
| FtlCredits.NoVictimMapped | nvmevirt_test/conv_ftl.c:1253-1267 | with an empty victim queue and at most two free lines, at least (T-4)*L logical pages are mapped |
| FtlCredits.VictimExists | nvmevirt_test/conv_ftl.c:1462-1469 | with fewer than (T-4)*L mapped pages a forced collection always has a victim |
| FtlCredits.SpendCredit | nvmevirt_test/conv_ftl.c:656-659 | a host write takes one page of room and one credit, so the reserve of 2L+2 stays |
| FtlCredits.RefillPlenty | nvmevirt_test/conv_ftl.c:663-671 | with more than two free lines the whole refill is funded without a collection |
| FtlCredits.RefillCollected | nvmevirt_test/conv_ftl.c:1408 | a collection that gains `ipc` pages of room funds exactly `ipc` credits |
| FtlState.InitialInv | nvmevirt_test/conv_ftl.c:896-930 | the initialised tables satisfy the invariant and read as empty |
| FtlState.TrimInv | nvmevirt_test/conv_ftl.c:1091-1138 | dropping a mapped page keeps the invariant (maps inverse on live data, counters = page counts, every line in exactly one place, conservation); the counters it decrements are positive |
| FtlState.AppendInv | nvmevirt_test/conv_ftl.c:1634-1648 | writing an unmapped logical page at a write pointer keeps the invariant, also when the line is used up and filed and a free line is opened |
| FtlState.PutInv | nvmevirt_test/conv_ftl.c:1634-1645 | programming the target page and mapping it keeps everything but the position of the write pointer in step |
| FtlState.AdvanceInv | nvmevirt_test/conv_ftl.c:779-845 | advancing the write pointer restores the invariant, filing a used-up line as full or victim |
| FtlState.FullLine | nvmevirt_test/conv_ftl.c:1117-1120 | a line whose pages are all valid is in the full list and not in the queue |
| FtlGc.AppendRoom | nvmevirt_test/conv_ftl.c:779-845 | every append, by host or collector, takes exactly one page of room |
| HostWrite.UnmappedInv | nvmevirt_test/conv_ftl.c:1627-1632 | superseding the old copy leaves a state that satisfies the invariant with that page unmapped and nothing else changed |
| HostWrite.WriteSame | nvmevirt_test/conv_ftl.c:1634-1648 | overwriting the map entry without clearing it first, as the code does, is the same as writing an unmapped page |
| HostWrite.WriteInv | nvmevirt_test/conv_ftl.c:1618-1648 | a page write keeps the invariant, stores the page, keeps all others and adds the page to the mapped set |
| HostWrite.WriteFunds | nvmevirt_test/conv_ftl.c:1661-1662 | a page write keeps the reserve after its credit is spent |
| Counts.CountInvalidate | nvmevirt_test/conv_ftl.c:1100-1129 | valid and invalid counts stay equal to the page counts when a valid page is invalidated |
| Counts.CountProgram | nvmevirt_test/conv_ftl.c:1147-1160 | the same when a free page is programmed |
| Counts.CountErase | nvmevirt_test/conv_ftl.c:1163-1182 | the same when whole groups of pages are erased |
| Counts.CountBounds | nvmevirt_test/conv_ftl.c:1107-1122 | the bounds that the assertions on block and line counters state hold |
| FtlGc.ProgressStart | nvmevirt_test/conv_ftl.c:1398-1408 | the loop invariant of a collection holds when it starts |
| FtlGc.CopyHasRoom | nvmevirt_test/conv_ftl.c:1211-1223 | while a victim is copied back one free line at the start is enough: the GC pointer never misses a line |
| FtlGc.CopyStep | nvmevirt_test/conv_ftl.c:1203-1223 | copying one live page keeps the collection's invariant: the same contents, untouched closed lines, room spent only on copies |
| FtlGc.CopySkip | nvmevirt_test/conv_ftl.c:1366-1376 | passing over a page that is not live keeps it too |
| FtlGc.CopyAllProgress | nvmevirt_test/conv_ftl.c:1411-1423 | copying the pages of a closed line one after the other, in any order, keeps it throughout: with one free line at the start no copy fails |
| FtlGc.RewriteInv | nvmevirt_test/conv_ftl.c:1203-1223 | moving a live page keeps the whole invariant when its old copy is counted as invalid |
| FtlGc.RewriteEffect | nvmevirt_test/conv_ftl.c:1203-1223 | exactly which entries of both maps, the page statuses and the counters a moved page changes |
| FtlGc.RewriteContent | nvmevirt_test/conv_ftl.c:1203-1223 | moving a page changes the content of no logical page |
| FtlGc.DrainedCounts | nvmevirt_test/conv_ftl.c:1379-1389 | a victim without live pages has vpc 0 and ipc L before its counters are cleared |
| FtlGc.ReclaimInv | nvmevirt_test/conv_ftl.c:1379-1460 | freeing a drained victim keeps the invariant, although stale reverse entries remain, keeps all contents and gains L pages of room |
| FtlGc.CollectionDone | nvmevirt_test/conv_ftl.c:1391-1460 | when every page of the victim has been passed, freeing it keeps all contents and has gained exactly the victim's invalid pages |
| FtlMirror.MirrorStart | nvmevirt_test/conv_ftl.c:1298-1302 | at the start the real tables differ from the corrected ones only in the dangling victim |
| FtlMirror.MirrorCopy | nvmevirt_test/conv_ftl.c:1203-1223 | remapping without invalidating the old copy keeps the real tables in step with the corrected ones, in which it is invalid |
| FtlMirror.MirrorErase | nvmevirt_test/conv_ftl.c:1163-1182 | erasing a block of the victim keeps them in step |
| FtlMirror.MirrorDone | nvmevirt_test/conv_ftl.c:1379-1389 | when all blocks of the victim are erased, clearing the line makes the real tables equal to the corrected ones, reclaimed |
| FtlMirror.CollectedDone | nvmevirt_test/conv_ftl.c:1391-1460 | a finished collection: same contents, victim erased and free, no page of another closed line touched, credits to refill = the victim's ipc, counters exact |
| FtlMirror.CollectedSteps | nvmevirt_test/conv_ftl.c:1391-1460 | a collection defined by what it does, copying the victim's live pages in some order and freeing the line, has all these effects |
| FtlMirror.CollectionExists | nvmevirt_test/conv_ftl.c:1391-1460 | any queued line can be collected, in any state with a free line |
| GcOrder.RankDigits | nvmevirt_test/conv_ftl.c:1411-1418 | the visiting number of a page (flash page, channel, LUN, page) determines the page |
| GcOrder.DoneNext | nvmevirt_test/conv_ftl.c:1411-1423 | each step of the loops over flash pages, channels and LUNs reaches exactly one new page of the victim |
| GcOrder.DoneAll | nvmevirt_test/conv_ftl.c:1411-1445 | the loops reach every page of the victim |
| GcOrder.FreedNext | nvmevirt_test/conv_ftl.c:1425-1428 | in the last round each step erases exactly one new block of the victim |
| GcOrder.FreedAll | nvmevirt_test/conv_ftl.c:1425-1445 | every block of the victim is erased |
| Geometry.PageRoundTrip | nvmevirt_test/conv_ftl.c:600-614 | the page index is below the number of pages and determines the address |
| Geometry.IndexRoundTrip | nvmevirt_test/conv_ftl.c:600-614 | every index below the number of pages is the index of its address |
| Geometry.BlkRoundTrip | nvmevirt_test/conv_ftl.c:1085-1088 | block numbers determine channel, LUN and line |
| Geometry.SlotRoundTrip | nvmevirt_test/conv_ftl.c:779-812 | the position of a page in the order in which a line is written determines the page |
| Geometry.SlotInverse | nvmevirt_test/conv_ftl.c:779-812 | every position below L is the position of a page of the line |
| Geometry.NextSlot | nvmevirt_test/conv_ftl.c:788-810 | each branch of the address step goes to the next position |
| Geometry.LastSlot | nvmevirt_test/conv_ftl.c:808-812 | the branch that closes the line is taken exactly at the last position |
| Geometry.LayoutOk | nvmevirt_test/conv_ftl.c:600-614 | the concrete geometry is a sound page layout: pages and slots correspond one to one, lines and blocks have L and pgs_per_blk pages |
| ConvFtl.ConvFtl.constructor | nvmevirt_test/conv_ftl.c:896-930 | the fresh tables represent the initial state; funded exactly when (T-3)*L >= 2 |
| ConvFtl.ConvFtl.MarkPageInvalid | nvmevirt_test/conv_ftl.c:1091-1138 | tables, counters, queue priority and the move from full list to queue follow the invalidation of one page; its assertions hold |
| ConvFtl.ConvFtl.MarkPageValid | nvmevirt_test/conv_ftl.c:1140-1161 | status and counters follow the programming of one page; its assertions hold |
| ConvFtl.ConvFtl.GetNewPage | nvmevirt_test/conv_ftl.c:847-862 | the write pointer's address is valid and is the next slot of its line |
| ConvFtl.ConvFtl.PutPage | nvmevirt_test/conv_ftl.c:1637-1645 | map, reverse map, status and statistics follow one page write |
| ConvFtl.ConvFtl.NextAddress | nvmevirt_test/conv_ftl.c:788-812 | the address step goes to the next slot, or reports the line used up exactly at the last one; its range checks hold |
| ConvFtl.ConvFtl.GetNextFreeLine | nvmevirt_test/conv_ftl.c:732-746 | takes the head of the free list, or nothing if it is empty |
| ConvFtl.ConvFtl.FileLine | nvmevirt_test/conv_ftl.c:813-827 | a used-up line goes to the full list if all its pages are valid, else into the queue |
| ConvFtl.ConvFtl.AdvanceWritePointer | nvmevirt_test/conv_ftl.c:779-845 | the tables follow the advance of either write pointer; its assertions hold |
| ConvFtl.ConvFtl.ScanVictims | nvmevirt_test/conv_ftl.c:1281-1291 | among the lines with a position the scan returns the one that is better than all others that qualify, or none if none qualifies |
| ConvFtl.EligibleMeans | nvmevirt_test/conv_ftl.c:1253-1291 | a line qualifies if and only if collection is forced or at least seven eighths of it would be gained |
| ConvFtl.ConvFtl.SelectVictim | nvmevirt_test/conv_ftl.c:1253-1303 | both policies take the best qualifying line out of the queue and out of no other list; none only if no line qualifies |
| ConvFtl.ConvFtl.WriteAt | nvmevirt_test/conv_ftl.c:1211-1223 | a page write at either pointer, for host and collector |
| ConvFtl.ConvFtl.GcWritePage | nvmevirt_test/conv_ftl.c:1203-1223 | the live page named by the reverse map is copied; the old copy stays marked valid |
| ConvFtl.ConvFtl.CleanOneFlashpg | nvmevirt_test/conv_ftl.c:1330-1377 | all live pages of one flash page are copied, and none twice; no page of it is free |
| ConvFtl.ConvFtl.MarkBlockFree | nvmevirt_test/conv_ftl.c:1163-1182 | all pages and both counters of one block are cleared |
| ConvFtl.ConvFtl.MarkLineFree | nvmevirt_test/conv_ftl.c:1379-1389 | the line's counters are cleared and it joins the end of the free list |
| ConvFtl.ConvFtl.CopyBack | nvmevirt_test/conv_ftl.c:1410-1445 | the three nested loops copy every live page of the victim and erase all its blocks |
| ConvFtl.ConvFtl.CollectLine | nvmevirt_test/conv_ftl.c:1403-1455 | from the dangling victim to a complete collection |
| ConvFtl.ConvFtl.DoGc | nvmevirt_test/conv_ftl.c:1391-1460 | the policy's choice is collected completely, or nothing happens because no line qualifies |
| ConvFtl.ConvFtl.ForegroundGc | nvmevirt_test/conv_ftl.c:1462-1469 | a line is collected exactly when at most two are free, and then do_gc never fails |
| ConvFtl.ConvFtl.CheckAndRefill | nvmevirt_test/conv_ftl.c:663-671 | credits are refilled when they are used up, after a collection if need be |
| ConvFtl.ConvFtl.ConsumeCredit | nvmevirt_test/conv_ftl.c:656-659 | spends one credit; there is one |
| ConvFtl.ConvFtl.Supersede | nvmevirt_test/conv_ftl.c:1625-1632 | a mapped page is invalidated and its reverse entry cleared |
| ConvFtl.ConvFtl.WritePage | nvmevirt_test/conv_ftl.c:1618-1663 | the loop body is one HostStep: invariant and funding kept, the page stored, all others kept |
| ConvFtl.ConvFtl.ReadPage | nvmevirt_test/conv_ftl.c:1530-1538 | an unmapped page is skipped; a mapped one translates to a valid address that holds its content |
| ConvNamespace.WriteOne | nvmevirt_test/conv_ftl.c:1623-1624 | a page goes to the instance that owns it and changes no other page of the namespace |
| ConvNamespace.Striped | nvmevirt_test/conv_ftl.c:1623-1624 | pages are dealt out to the instances in turn, and instance and number there determine the page |
| ConvNamespace.TouchedPages | nvmevirt_test/conv_ftl.c:1584-1585 | the divisions by the page size give exactly the pages in which the command has a block |
| ConvNamespace.LastInRange | nvmevirt_test/conv_ftl.c:1602-1606 | comparing the last page alone refuses exactly the commands with any page past the physical range |
| ConvNamespace.Write | nvmevirt_test/conv_ftl.c:1571-1675 | an accepted command writes page k if and only if one of its blocks lies in page k, at the instance that owns it, and changes no other page; it is refused exactly if one of its pages is past the physical range or without write buffer |
| ConvNamespace.Serve | nvmevirt_test/io.c:510-541 | over any sequence of write commands, across the collections on every instance, every page of the namespace holds what the last accepted command with a block in it stored there; a page without one keeps its content |
| ConvNamespace.Init | nvmevirt_test/conv_ftl.c:948-994 | the instances of a fresh namespace are in good order and apart, nothing is stored, for every logical space that leaves four lines over |
| ConvNamespace.LogicalSizeFits | nvmevirt_test/conv_ftl.c:985 | the size that the namespace announces, 100/107 of the flash, keeps every page number on every instance inside such a space if an instance has at least 62 lines of at least 18 pages |
| PQueue.ShiftUp | nvmevirt_test/pqueue/pqueue.c:62-67 | moving a larger parent down keeps links and order but for the hole |
| PQueue.ShiftDown | nvmevirt_test/pqueue/pqueue.c:93-98 | moving the smaller child up keeps links and order but for the hole |
| PQueue.PlaceValid | nvmevirt_test/pqueue/pqueue.c:69-70 | putting the moving line into a hole where it fits gives a heap with all positions right |
| PQueue.RootLeast | nvmevirt_test/pqueue/pqueue.c:170-178 | the root has the least priority value |
| PQueue.PeekLeast | nvmevirt_test/pqueue/pqueue.c:170-178 | the root is a member, and least among all members |
| PQueue.RemovedLast | nvmevirt_test/pqueue/pqueue.c:144-154 | removing the last slot, where the removed line meets itself, leaves a heap with the line outside |
| PQueue.RemovedMoving | nvmevirt_test/pqueue/pqueue.c:144-154 | removing from the middle leaves a hole that the last line fills in the direction the comparison says |
| PQueue.Rekeyed | nvmevirt_test/conv_ftl.c:1124-1129 | changing lines outside the queue does not disturb it |
| PQueue.PriorityQueue.constructor | nvmevirt_test/pqueue/pqueue.c:33-41 | an empty queue |
| PQueue.PriorityQueue.BubbleUp | nvmevirt_test/pqueue/pqueue.c:56-71 | restores the heap upwards |
| PQueue.PriorityQueue.MaxChild | nvmevirt_test/pqueue/pqueue.c:73-85 | the child with the lesser priority value, or 0 at a leaf |
| PQueue.PriorityQueue.PercolateDown | nvmevirt_test/pqueue/pqueue.c:87-102 | restores the heap downwards |
| PQueue.PriorityQueue.Insert | nvmevirt_test/pqueue/pqueue.c:104-129 | adds the line to the members and changes nothing but positions |
| PQueue.PriorityQueue.ChangePriority | nvmevirt_test/pqueue/pqueue.c:131-142 | same members, one new priority, heap order and positions kept |
| PQueue.PriorityQueue.Remove | nvmevirt_test/pqueue/pqueue.c:144-154 | removes exactly the line, from any slot |
| PQueue.PriorityQueue.Peek | nvmevirt_test/pqueue/pqueue.c:170-178 | a least member, or none if there is none |
| PQueue.PriorityQueue.Pop | nvmevirt_test/pqueue/pqueue.c:156-168 | removes a least member, or does nothing if there is none |
| Fractions.FractionCmp | nvmevirt_test/conv_ftl.c:75-107 | negative exactly if an * bd < bn * ad and positive exactly if it is greater, for all 64-bit inputs with non-zero denominators, on both paths; it terminates |
| Fractions.QuotientsDecide | nvmevirt_test/conv_ftl.c:92-99 | unequal quotients decide the comparison |
| Fractions.RemaindersDecide | nvmevirt_test/conv_ftl.c:100-108 | with equal quotients the remainders decide it |
| Fractions.CmpAntisymmetric | nvmevirt_test/conv_ftl.c:75-107 | swapping the fractions negates the result |
| Fractions.CmpTransitive | nvmevirt_test/conv_ftl.c:75-107 | the comparison is transitive, and strict if one of its parts is |
| CatPolicy.TransformAge | nvmevirt_test/conv_ftl.c:58-72 | the value of the first step whose threshold exceeds the age, the last step beyond all, the first for lines never invalidated or stamped later |
| CatPolicy.CatParam.StepFrom | nvmevirt_test/conv_ftl.c:65-70 | all thresholds before the step are reached and its own is not |
| CatPolicy.AgeMonotone | nvmevirt_test/conv_ftl.c:58-72 | on a climbing staircase waiting never lowers the age value |
| CatPolicy.AgeExact | nvmevirt_test/conv_ftl.c:58-72 | a line invalidated at `stamp` has the i-th value exactly from threshold i-1 up to threshold i after that time |
| CatPolicy.AgeYoung | nvmevirt_test/conv_ftl.c:60-64 | a line never invalidated, or stamped later than now, has the first value |
| CatPolicy.OlderStamp | nvmevirt_test/conv_ftl.c:58-72 | of two lines the one invalidated earlier never has the lower age value |
| CatPolicy.AgeShift | nvmevirt_test/conv_ftl.c:58-72 | only the time since the stamp counts: moving stamp and clock together changes nothing |
| CatPolicy.PrefersOld | nvmevirt_test/conv_ftl.c:109-126 | a line with no more valid pages, no fewer invalid pages and no later stamp is never passed over except for a lower number, and is better if it has fewer valid pages |
| CatPolicy.BetterTransitive | nvmevirt_test/conv_ftl.c:109-126 | the order of lines is transitive |
| CatPolicy.BetterTotal | nvmevirt_test/conv_ftl.c:109-126 | of two different lines exactly one is better: ties go to the lower number |
| CatPolicy.LineIsBetter | nvmevirt_test/conv_ftl.c:109-126 | decides without overflow whether vpc_i * (ipc_j * age_j) is below vpc_j * (ipc_i * age_i), the lower number first on ties |
| FixedPoint.WafQ16 | nvmevirt_test/conv_ftl.c:146-168 | the result w satisfies (w - 65536) * host <= 65536 * gc < (w - 65535) * host, and exists exactly when host > 0 and gc / host is below 65535; nothing overflows |
| FixedPoint.DivisionStep | nvmevirt_test/conv_ftl.c:156-165 | one step of the long division keeps quotient * host + remainder |
| FixedPoint.DiscountExact | nvmevirt_test/conv_ftl.c:170-175 | the split product is floor(v * 65503 / 65536) and does not overflow |
| FixedPoint.Sqrt | nvmevirt_test/conv_ftl.c:177-193 | r * r <= v < (r+1) * (r+1) for every 64-bit v |
| FixedPoint.LogQ16 | nvmevirt_test/conv_ftl.c:195-212 | halving octave by octave computes the specified logarithm, and no intermediate value exceeds 64 bits |
| FixedPoint.SeriesFits | nvmevirt_test/conv_ftl.c:207-211 | on one octave every product of the series fits 64 bits |
| FixedPoint.SeriesBelowOctave | nvmevirt_test/conv_ftl.c:207-211 | within an octave the series never exceeds the ln 2 that the next one adds |
| FixedPoint.OctaveEnds | nvmevirt_test/conv_ftl.c:195-212 | doubling adds 45426 parts, and the series comes within 14 parts of that at the end of its octave |
| FixedPoint.LogMonotone | nvmevirt_test/conv_ftl.c:195-212 | the logarithm is monotone, across its normalisation boundaries too |
| Bandit.EpochStart | nvmevirt_test/conv_ftl.c:296-316 | a new epoch is balanced, whichever arm is under observation |
| Bandit.ObserveBalanced | nvmevirt_test/conv_ftl.c:259-265 | until coverage any two arms differ by at most one visit; coverage comes with window 180 and three visits for each arm |
| Bandit.EpochStep | nvmevirt_test/conv_ftl.c:369-439 | every accepted window keeps: visits sum to the windows of the epoch, coverage exactly from 180 on, balance and a least visited arm before |
| Bandit.DueDecreases | nvmevirt_test/conv_ftl.c:429-438 | every window that does not observe an arm brings its turn exactly one window nearer |
| Bandit.AheadBound | nvmevirt_test/conv_ftl.c:226-238 | no arm but the incumbent ever waits more than 531 windows |
| Bandit.ProbeFairness | nvmevirt_test/conv_ftl.c:429-438 | while the tuner stays settled every other arm is observed in any 531 consecutive accepted windows |
| Bandit.SumDiscounted | nvmevirt_test/conv_ftl.c:394-399 | discounting scales the sum of the counts by at most 65503/65536 |
| Bandit.CountsBounded | nvmevirt_test/conv_ftl.c:394-412 | after discounting and one more sample the counts still sum to at most 130150524 |
| Tuner.FindLeader | nvmevirt_test/conv_ftl.c:326-334 | the observed arm with the least mean, the lowest number on ties; none only if no arm is rated |
| Tuner.MeanMeans | nvmevirt_test/conv_ftl.c:146-168 | an arm's mean m satisfies (m - 65536) * host <= 65536 * gc < (m - 65535) * host, and exists exactly if gc < 65535 * host |
| Tuner.KeptIsClose | nvmevirt_test/conv_ftl.c:326-347 | an incumbent that stays has at most 65536/65208 of the mean of any rated arm |
| Tuner.ReplacedByBetter | nvmevirt_test/conv_ftl.c:326-347 | an incumbent that goes is beaten by more than that, and no rated arm beats the one that comes |
| Tuner.BonusBounded | nvmevirt_test/conv_ftl.c:279-286 | the bonus b of an arm is a quarter of the root of 2 * ln(total) / count, stated with squares: b * b * count <= 2 * 16384^2 * ln(total), and the opposite bound with the rounding of two divisions and a root allowed for |
| Tuner.BonusAntitone | nvmevirt_test/conv_ftl.c:282-286 | more evidence never raises the bonus |
| Tuner.PrefersPromising | nvmevirt_test/conv_ftl.c:279-293 | no arm has a smaller mean and no more evidence than the chosen one; an arm with no larger mean and less evidence is passed over only at equal means and bonuses that round to one number, for a lower arm number |
| Tuner.ChosenOptimistic | nvmevirt_test/conv_ftl.c:279-293 | mean less bonus of the chosen arm is at most that of any other, with both bonuses bounded by count and logarithm |
| Tuner.SearchByScore | nvmevirt_test/conv_ftl.c:251-293 | after coverage, while no arm has gone 240 windows unobserved and every arm has a score, the search chooses by score |
| Tuner.BonusFits | nvmevirt_test/conv_ftl.c:282-285 | with bounded counts no step of the confidence bonus exceeds 64 bits |
| Tuner.LogOfBound | nvmevirt_test/conv_ftl.c:279-283 | the logarithm of the greatest possible total is at most 11 ln 2 |
| Tuner.ArmBonus | nvmevirt_test/conv_ftl.c:282-285 | the bonus of one arm by its specification, with the integer square root |
| Tuner.Tuner.constructor | nvmevirt_test/conv_ftl.c:441-456 | the initial tables satisfy all invariants; warm-up, arm 37 |
| Tuner.Tuner.OldestArm | nvmevirt_test/conv_ftl.c:226-238 | the arm observed longest ago, the lowest number on ties, optionally without the incumbent |
| Tuner.Tuner.IsCovered | nvmevirt_test/conv_ftl.c:240-249 | true exactly when every arm has three visits |
| Tuner.Tuner.LeastVisitedArm | nvmevirt_test/conv_ftl.c:259-265 | the first of the least visited arms |
| Tuner.Tuner.TotalCount | nvmevirt_test/conv_ftl.c:269-278 | the exact sum of the counts, or the first arm without a score; the saturating branch is dead |
| Tuner.Tuner.BestScore | nvmevirt_test/conv_ftl.c:279-293 | the arm with the least mean minus bonus, the lowest number on ties |
| Tuner.Tuner.ChooseSearch | nvmevirt_test/conv_ftl.c:251-294 | least visited arm until coverage, then a stale arm, then an arm without a score, then the best score |
| Tuner.Tuner.ResetEpoch | nvmevirt_test/conv_ftl.c:296-316 | everything learned is dropped but the arm under observation |
| Tuner.Tuner.CheckDrift | nvmevirt_test/conv_ftl.c:380-391 | drifting windows of the settled incumbent are counted in a row; a new epoch starts exactly with the third |
| Tuner.Tuner.DriftMeans | nvmevirt_test/conv_ftl.c:380-386 | a sample drifts exactly if it lies outside seven eighths to nine eighths of the reference |
| Tuner.Tuner.DiscountAll | nvmevirt_test/conv_ftl.c:394-399 | all sums are discounted, visits and times stay |
| Tuner.Tuner.AddSample | nvmevirt_test/conv_ftl.c:400-414 | exactly one arm gets the sample; its three sums are halved together exactly as often as needed to make room, and the loop ends |
| Tuner.DiscountBounds | nvmevirt_test/conv_ftl.c:170-175 | discounting multiplies by 65503/65536 and rounds down |
| Tuner.FadedRatio | nvmevirt_test/conv_ftl.c:394-399 | discounting keeps the ratio of the page sums up to one unit of either |
| Tuner.HalvedRatio | nvmevirt_test/conv_ftl.c:400-407 | so does halving them together |
| Tuner.EnteredBetween | nvmevirt_test/conv_ftl.c:408-412 | the ratio after an observation lies between the one before and that of the sample; every observation counts 65536 |
| Tuner.Tuner.UpdateBest | nvmevirt_test/conv_ftl.c:318-367 | the leader replaces the incumbent exactly when better by more than the tolerance; the tuner settles exactly when covered, stable for 12 windows and confirmed three times |
| Tuner.Tuner.Absorb | nvmevirt_test/conv_ftl.c:392-426 | a window that first reaches coverage does not count towards stability, so settling needs coverage before it |
| Tuner.Tuner.LearnSample | nvmevirt_test/conv_ftl.c:394-415 | all arms are discounted, one gets the sample and its time; the count bound and coverage survive |
| Tuner.Tuner.Observe | nvmevirt_test/conv_ftl.c:369-439 | one accepted window: balanced coverage, drift, settling, eight incumbent windows and a probe, all at once and exactly |
| Tuner.Tuner.Accept | nvmevirt_test/conv_ftl.c:509-524 | the window's arm is observed and the next arm and its staircase are put in force |
| Tuner.Tuner.CloseWindow | nvmevirt_test/conv_ftl.c:499-524 | a sample out of numeric range is discarded and changes nothing learned; any other is learned |
| Tuner.Tuner.OnGc | nvmevirt_test/conv_ftl.c:458-525 | the windows follow Sampling.After; the learner changes exactly with an accepted sample |
| Tuner.Tuner.BeginPhase | nvmevirt_test/conv_ftl.c:214-224 | a window starts with the present counters and time |
| Sampling.SamplesDisjoint | nvmevirt_test/conv_ftl.c:473-475 | the intervals of accepted samples do not overlap |
| Sampling.SampledPagesBounded | nvmevirt_test/conv_ftl.c:473-475 | their host pages sum to at most the lifetime total |
| Sampling.MeasuresBurnedIn | nvmevirt_test/conv_ftl.c:476-498 | measuring starts only after a whole burn-in (32768 host pages, 32 collections) with the arm measured |
| Sampling.WarmupEnds | nvmevirt_test/conv_ftl.c:465-473 | a device leaves warm-up with the hundredth collection and not before |
| Sampling.WindowsEnd | nvmevirt_test/conv_ftl.c:482-491 | no window outlives 4096 collections or 300 seconds |
| Sampling.KeepsMeasuring | nvmevirt_test/conv_ftl.c:465-524 | of a device with at most p host pages between collections, and no time-outs, every 98304 + 96p host pages after warm-up complete a measuring window |
| Sampling.MeasuresSoon | nvmevirt_test/conv_ftl.c:465-524 | from any collection after warm-up the next measuring window is complete before that many pages have been written |
| Sampling.SamplesKeepUp | nvmevirt_test/conv_ftl.c:465-524 | while samples are in range, their number plus one, times 98304 + 96p, is at least the host pages written since warm-up |
| Sampling.AcceptedInRange | nvmevirt_test/conv_ftl.c:499-508 | a completed window is accepted if and only if both sums can be weighted in 64 bits and gc < 65535 * host |
| Sampling.ArmChanges | nvmevirt_test/conv_ftl.c:509-524 | the arm changes only with an accepted sample, to the arm the learner names, which is burned in first |
| Sampling.WindowDiscipline | nvmevirt_test/conv_ftl.c:458-525 | every accepted sample covers at least 65536 host pages and 64 collections under one arm and follows a full burn-in since any other arm was in force |
| Sampling.SamplesTakePages | nvmevirt_test/conv_ftl.c:479-481 | accepted samples are so long that 65536 times their number is at most the host pages they cover |
| Arms.DecodeEncode | nvmevirt_test/conv_ftl.h:26 | arm numbers encode the grid as documented |
| Arms.DecodeInjective | nvmevirt_test/conv_ftl.c:19-31 | different arms are different settings |
| Arms.SetArm | nvmevirt_test/conv_ftl.c:33-56 | tabulates the staircase of an arm |
| Arms.StaircaseClimbs | nvmevirt_test/conv_ftl.c:33-56 | the tabulated formulas yield a staircase with climbing thresholds and values, from 18 to 18 * ratio, all positive and within 32 bits |
| Arms.ThresholdsScale | nvmevirt_test/conv_ftl.c:48-53 | a threshold is its table entry at the arm's percentage, rounded down; arms that differ only in scale have thresholds in the ratio of their scales, but for less than a unit |
| Arms.ValuesSpaced | nvmevirt_test/conv_ftl.c:54-56 | the values rise from 18 in equal steps, rounded down |
| Arms.InitialStaircase | nvmevirt_test/conv_ftl.h:31 | the initial arm has seven values from 18 to 126 and thresholds of 10, 20, 45, 90, 180 and 360 seconds |
| TunedFtl.TunedPartition.constructor | nvmevirt_test/conv_ftl.c:441-456 | a fresh partition with a tuner in warm-up; nothing recorded |
| TunedFtl.TunedPartition.CollectAndLearn | nvmevirt_test/conv_ftl.c:1391-1460 | the arm in force chooses the victim, the collection is complete, and only then the tuner is told, once, with the new counters; without a victim nothing is told |
| TunedFtl.TunedPartition.Refill | nvmevirt_test/conv_ftl.c:663-671 | credits are refilled when they are used up; the collection that may be forced is reported to the tuner |
| TunedFtl.TunedPartition.WritePage | nvmevirt_test/conv_ftl.c:1618-1663 | a page write of a partition that tunes itself does to the FTL what any page write does, and keeps FTL, tuner and record in order |
| TunedFtl.TunedPartition.Serve | nvmevirt_test/conv_ftl.c:1618-1663 | over any run of writes every page holds what was last written to it while arms change, and the record of windows only grows |
| TunedFtl.TunedPartition.Accounted | nvmevirt_test/conv_ftl.c:458-525 | after any such run the windows form a run of the window machine, the tuner has been told of exactly the collections done, and 65536 times the samples learned is at most the host pages written |
| TunedFtl.TunedPartition.KeepsLearning | nvmevirt_test/conv_ftl.c:458-525 | a busy partition goes on learning: the windows learned keep up with the host pages |
| TunedFtl.RecordedOn | nvmevirt_test/conv_ftl.c:465-524 | reporting one more collection keeps the record: totals never go down and one window is learned for every accepted sample |
| Timeline.GrantShape | nvmevirt_test/channel_model.c:86-106 | a grant empties the slots before the one it ends in, takes the rest there and touches no other |
| Timeline.FirstFit | nvmevirt_test/channel_model.c:86-106 | a grant that takes from a slot leaves nothing in the slots before it |
| Timeline.Conservation | nvmevirt_test/channel_model.c:86-106 | what the slots have given is what the grants have asked for, over any history |
| Channel.KeepsUp | nvmevirt_test/channel_model.c:43-44 | a ring whose last used slot is not full shows the present after an idle time of d slots if and only if d fits 32 bits or its low 32 bits reach the used length |
| Channel.StaleCredit | nvmevirt_test/channel_model.c:43-44 | after exactly 2^32 idle slots a credit granted before them still counts as taken, and a transfer that needs a whole slot ends a slot late |
| Channel.ChannelModel.ShowsPresent | nvmevirt_test/channel_model.c:42-57 | the ring shows the timeline from the present slot on if and only if it has not fallen behind or nothing in it is taken |
| Channel.ChannelModel.constructor | nvmevirt_test/channel_model.c:16-29 | an empty ring shows the empty timeline; a slot's credits and the time of a unit are the bandwidth's, rounded down |
| Channel.BandwidthRated | nvmevirt_test/channel_model.h:40-42 | credits * 128 * 10^9 <= bandwidth * 2^20 * 4000 and time * bandwidth * 2^20 <= 128 * 10^9, and neither could be one more; the time fits 32 bits for every bandwidth |
| Channel.ChannelModel.IdleDone | nvmevirt_test/channel_model.c:108-119 | on a channel that is idle from the slot of the request on, a transfer of any length ends without delay |
| Channel.ChannelModel.IdleTransfer | nvmevirt_test/channel_model.c:31-119 | from bandwidth and length alone: such a transfer takes the rated time of the least number u of 128-byte units that hold it, but for u nanoseconds |
| Channel.ChannelModel.LateBy | nvmevirt_test/channel_model.c:114-117 | any other transfer is late by the 4000 ns slots that it ends after the slot in which an idle channel would have ended it |
| Channel.ChannelModel.Advance | nvmevirt_test/channel_model.c:42-62 | moving the head lazily, with wrap and clamp, loses and invents no credit: the ring still shows the timeline, exactly as many slots late as the truncation of the slot difference to 32 bits has made it |
| Channel.ChannelModel.Consume | nvmevirt_test/channel_model.c:86-106 | the loop serves first-fit up to the first slot by which there are enough credits, or to the end of the ring |
| Channel.ChannelModel.Record | nvmevirt_test/channel_model.c:108-112 | the used part grows to the slot in which the request ended |
| Channel.ChannelModel.Request | nvmevirt_test/channel_model.c:31-120 | for every clock reading, request time and length: the units asked for are granted first-fit and no slot gives more than it has, the completion time is the transfer time plus the delay, and requests before now or beyond the ring change nothing; slot differences, units and credits are truncated to 32 bits as in the code |
| Channel.ChannelModel.ServedInFull | nvmevirt_test/channel_model.c:93-105 | a request is served in full if and only if the ring holds enough credits from its slot on |
| IoQueue.StaysOrdered | nvmevirt_test/io.c:266-274 | the queue stays in order when the clock moves on |
| IoQueue.SpliceThreads | nvmevirt_test/io.c:276-291 | putting an entry into the doubly linked list at head, middle or tail keeps both directions consistent |
| IoQueue.InsertedOrder | nvmevirt_test/io.c:260-291 | a request put behind all that are due no later keeps the queue in order, first come first served on ties |
| IoQueue.InsertedSplit | nvmevirt_test/io.c:248-292 | inserting keeps the two lists disjoint and complete |
| IoQueue.AllocatedSplit | nvmevirt_test/io.c:294-315 | taking the first free entry keeps them so |
| IoQueue.ReclaimedSplit | nvmevirt_test/io.c:420-434 | moving a prefix of the queue to the free list keeps them so |
| IoQueue.WalkedAll | nvmevirt_test/io.c:624-695 | one walk visits every entry in flight once, in order, and no other |
| IoQueue.Worker.constructor | nvmevirt_test/io.c:751-762 | all entries are free, in one chain |
| IoQueue.Worker.Allocate | nvmevirt_test/io.c:294-315 | takes the head of the free list, refused exactly when one entry is left, so the free list is never empty |
| IoQueue.Worker.FindPlace | nvmevirt_test/io.c:264-274 | the walk from the end finds the place behind all requests with no later key |
| IoQueue.Worker.InsertSorted | nvmevirt_test/io.c:248-292 | the entry is linked in at that place; the in-flight list stays doubly linked, acyclic and ordered by max(target, latest) |
| IoQueue.Worker.Enqueue | nvmevirt_test/io.c:317-388 | one request is added with its data, others keep theirs; refused exactly when one entry is free |
| IoQueue.Worker.Pass | nvmevirt_test/io.c:621-695 | every request in flight is copied, completes exactly when due, and is posted in this walk only if it completes in it and is no internal operation; lists and order survive the moving clock |
| IoQueue.Worker.FinishedPrefix | nvmevirt_test/io.c:403-413 | finds exactly the longest prefix of finished requests |
| IoQueue.Worker.Reclaim | nvmevirt_test/io.c:390-439 | exactly the longest prefix of finished requests moves to the end of the free list |
| IoHistory.AlwaysBooked | nvmevirt_test/io.c:317-439 | in every history of enqueueing, walking and reclaiming, every request in flight is one that was accepted, completed ones are those posted, and both lists stay disjoint, complete and in order |
| IoHistory.PostedOnce | nvmevirt_test/io.c:657-692 | at any time a request has been posted at most once, not before its target, and only if it was accepted and is not internal; every such request that has left the queue has been posted |
| IoHistory.PostedWhenDue | nvmevirt_test/io.c:657-692 | a request that is due when a walk begins has been posted, exactly once, when it ends |
| IoHistory.ReclaimedNext | nvmevirt_test/io.c:390-439 | and the next reclaim frees its entry, wherever in the queue it was, because all requests ahead of it are finished too |
| IoHistory.StaysOut | nvmevirt_test/io.c:390-439 | a request that has left the queue does not come back |
| KvIndex.OnTheWay | nvmevirt_test/kv_ftl.c:337-360 | a slot on the chain to a stored key that holds another key links one step nearer |
| KvIndex.LinkLater | nvmevirt_test/kv_ftl.c:159-162 | every link leads to a used slot filled later, so chains are acyclic |
| KvIndex.PutChained | nvmevirt_test/kv_ftl.c:219-226 | a new entry keeps chains acyclic |
| KvIndex.PutIndexed | nvmevirt_test/kv_ftl.c:200-232 | and keeps every stored key reachable from its home slot, also where chains have merged |
| KvIndex.HasRoom | nvmevirt_test/kv_ftl.c:180-185 | a slot is free if and only if fewer keys than slots are stored |
| KvIndex.Index.constructor | nvmevirt_test/kv_ftl.c:1049-1056 | an empty index |
| KvIndex.Index.Locate | nvmevirt_test/kv_ftl.c:332-360 | the chain walk ends and finds exactly the stored keys |
| KvIndex.Index.Get | nvmevirt_test/kv_ftl.c:320-377 | the stored offset and length, or offset -1 for a key that is not stored |
| KvIndex.Index.Update | nvmevirt_test/kv_ftl.c:268-318 | only the length of a stored key changes; an unknown key is refused |
| KvIndex.Index.FindNextSlot | nvmevirt_test/kv_ftl.c:164-198 | the tail of the chain, and the first free slot that stepping up from it reaches, around the end of the table; the probe ends if and only if the table is not full |
| KvIndex.Index.Insert | nvmevirt_test/kv_ftl.c:200-232 | adds exactly one key to the map, if and only if the table is not full |
| KvIndex.Index.Store | nvmevirt_test/kv_ftl.c:519-540 | a new key gets the allocated offset; a known one keeps its offset and changes its length only between small lengths; it fails exactly for a new key on a full table, where the source's probe never ends |
| KvIndex.Index.Retrieve | nvmevirt_test/kv_ftl.c:541-552 | the shorter of stored and requested length, or not found |
| Zns.CountUpdate | nvmevirt_test/zns_ftl.h:63-78 | counting zones follows the change of one zone |
| Zns.TiledOnce | nvmevirt_test/zns_read_write.c:17-39 | every block below the write pointer was written by exactly one command since the reset |
| Zns.TilesBound | nvmevirt_test/zns_read_write.c:17-39 | no command wrote outside [zslba, wp) |
| Zns.ManagedOk | nvmevirt_test/zns_mgmt_send.c:7-175 | every action keeps zslba <= wp <= end, wp below the end in active zones and at the start in empty ones; a refused one changes nothing |
| Zns.LegalMoves | nvmevirt_test/zns_mgmt_send.c:7-175 | no command takes a zone along a transition that the zone state machine does not have |
| Zns.NeverScarce | nvmevirt_test/zns_ftl.c:64-82 | with one resource of each kind per zone no action and no write, on a zone in any state, is refused for want of resources: every empty or active zone can be opened and written at its pointer |
| Zns.ZnsFtl.constructor | nvmevirt_test/zns_ftl.c:10-82 | all zones empty, nothing acquired |
| Zns.ZnsFtl.ZoneMoves | nvmevirt_test/zns_ftl.h:63-87 | when one zone changes and the counters follow, OPEN still counts the open zones and ACTIVE the open and closed ones, within their limits |
| Zns.ZnsFtl.Close | nvmevirt_test/zns_mgmt_send.c:7-29 | an open zone becomes closed and the number of open zones falls by one; a closed one stays; any other state refuses; no other number, zone or pointer changes |
| Zns.ZnsFtl.Finish | nvmevirt_test/zns_mgmt_send.c:31-64 | an empty, open or closed zone becomes full, the numbers of open and active zones and of random write areas fall by what it held, and the write pointer stays; only read-only and offline zones refuse |
| Zns.ZnsFtl.Open | nvmevirt_test/zns_mgmt_send.c:66-106 | an empty or closed zone is opened explicitly if and only if the resources it lacks are left, and takes exactly these; an open one in any case; a refusal changes no zone and no number |
| Zns.ZnsFtl.Reset | nvmevirt_test/zns_mgmt_send.c:108-156 | any zone that is not read-only or offline becomes empty, its pointer returns to its start, the numbers fall by what it held, and its extents are forgotten |
| Zns.ZnsFtl.TakeOffline | nvmevirt_test/zns_mgmt_send.c:158-175 | only a read-only zone goes offline |
| Zns.ZnsFtl.Manage | nvmevirt_test/zns_mgmt_send.c:230-258 | each action does what the zone's own state and the counts of zones allow, to that zone only |
| Zns.ZnsFtl.ManageAll | nvmevirt_test/zns_mgmt_send.c:272-274 | with select-all the action goes to every zone in turn |
| Zns.ZnsFtl.ResetAll | nvmevirt_test/zns_mgmt_send.c:272-274 | resetting all zones empties every zone that is not read-only or offline |
| Zns.ZnsFtl.OpenForWrite | nvmevirt_test/zns_read_write.c:127-169 | the state switch of a write, with no resource lost on refusal |
| Zns.ZnsFtl.IncreaseWritePtr | nvmevirt_test/zns_read_write.c:17-39 | the pointer moves by the length, the zone is full exactly at its end and then gives up both resources; the extents still tile |
| Zns.ZnsFtl.StaysInside | nvmevirt_test/zns_read_write.c:12-15 | comparing the zones of first and last block is enough: the write ends inside its zone |
| Zns.ZnsFtl.Write | nvmevirt_test/zns_read_write.c:64-171 | a write or append that gets its buffer succeeds if and only if it is made of whole 512-byte-block write units, stays inside one zone, starts at the write pointer, and the zone is open or the resources to open it are left; each refusal has the status of its reason; it then extends the zone at its pointer and never past its end; refused, or held back for want of buffer, it changes nothing |
| Zns.ZnsFtl.WrittenMeans | nvmevirt_test/zns_read_write.c:17-39 | a written zone is full exactly if its end is reached; else it is open, explicitly only if it was so before |
| Zns.ZnsFtl.RetriedAppend | nvmevirt_test/zns_read_write.c:87-106 | an append that was held back is offered again with the write pointer as its address, and then goes to the same zone if and only if that zone was not written to its end, else to the next one |

## Left out

- Timing: NAND, firmware and PCIe latencies, the aggregation of reads and writes per flash page, and all scheduling of flash
  commands. Clock readings are inputs; where the code needs them not to decrease, the contracts say so.
- Write-buffer accounting: allocation is by bytes of the command and release by whole one-shot pages
  (nvmevirt_test/conv_ftl.c:1608, 1657), so it is not conserved. Whether the buffer is granted is an input of
  `ConvNamespace.Write` and `Zns.ZnsFtl.Write`.
- 64-bit wrap-around of lifetime counters, window counters, timestamps and completion times. The contracts that need it state
  that the counters are in range.
- Devices whose hosts use (T-4)*L logical pages or more of an instance, apart from the run that shows the bound tight.
- Per-block erase counters are carried but nothing is stated about them.
- That the bandit finds the best arm: the source does not claim it. Reports and log lines.
- More than one plane per LUN, and the clean_one_block variant that no build uses.
- The weak memory model between dispatcher and worker: each enqueue, walk and reclaim is one step. Interrupts, completion
  queue slots and the choice of the worker for a submission queue.
- Key-value delete, which wipes the link of a slot and cuts its chain (nvmevirt_test/kv_ftl.c:480-483), batch and iterator
  commands, the value allocators and the copying of values. Keys have a fixed length; the hash function is any function.
- Zone random write area: its write path, explicit flush and buffers. The resource counter of such zones is modelled in the
  management actions. Addresses beyond the last zone, which the source does not check, are a precondition.
- The mapping of zones to dies.
- PCI configuration, doorbells, DMA, admin commands, module parameters and proc files.
- ConvNamespace.Write: the caller says which logical pages it reckons with, and they must leave four lines of each instance
  over; the write buffer is an input.
- Zns.ZnsFtl.Write: zones with a random write area are excluded.
- Channel.ChannelModel.Request: the sum of request time and latency is not truncated to 64 bits.
- TunedFtl.TunedPartition.WritePage: the lifetime page counters must stay within 64 bits.
