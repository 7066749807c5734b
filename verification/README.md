# QEMU 2.3.0: memory, block, migration, event-loop and dump code

This project models the stateful core of QEMU 2.3.0 and proves what it promises. Each component has
its own simple specification, and the code is shown to meet it on all inputs and in all runs.

* **RAM live migration** (`Words`, `Xbzrle`, `RamWire`, `RamLoader`, `RamBitmap`, `RamCache`, `RamSearch`,
  `RamSync`, `RamSetup`, `RamMigration`, `RamRuns`). A guest writes while its pages are read, pages are marked,
  searched for, encoded against a cache, printed on a wire and loaded on the other side. In every run
  each page is at the destination as it is at the source, or is marked, or is in the dirty log; so the
  completed migration leaves equal RAM. There is one state in which the search drops a page; it is
  given exactly, the outcome is stated page by page, and a run that ends with different RAM is shown.
* **Physical dispatch** (`Radix`, `PhysPages`, `PhysCompact`, `PhysMap`, `DispatchView`,
  `DispatchSteps`, `Dispatch`). The radix tree of the memory dispatch, built from any list of
  disjoint sections and then compacted, finds for every 64-bit address just what the flat list says.
* **RAM blocks** (`RamList`). Best-fit offsets, the order of the list and the one-entry lookup cache.
* **Block layer requests** (`Alignment`, `BlockDisk`, `BlockRequests`, `BlockDevice`, `BlockRuns`).
  Under any interleaving of reads and writes that are padded to the alignment, each write changes the
  disk by its own bytes and no others, no two conflicting requests run at once, and none is stuck.
* **Write merging, commit and allocation queries** (`BlockMerge`, `BlockChain`).
* **Event loop** (`AioWakeup`, `BottomHalves`, `AioHandlers`, `AioLoop`). No wakeup is lost as long as only
  the polling thread schedules idle bottom halves; and polls that nest, with callbacks that change the lists of
  bottom halves and of handlers, never touch what is freed or start what is deleted.
* **Guest memory dumps** (`ElfHeaders`, `DumpLayout`, `DumpElf`, `KdumpBitmap`, `KdumpPages`, `KdumpDump`). A
  reader of an ELF dump finds the headers from the first bytes of the file, and they lead to bytes of the
  file that are the guest memory they name; a reader of a kdump file finds every page through the bitmap.
* **Soft TLB** (`SoftTlb`) and **GDB packets** (`GdbPackets`).

Code that changes state step by step is a class, with a method for each function of the source or for
what a coroutine or thread does between two points where others may run; invariants are predicates
whose quantifiers range over named predicates. `Prelude` and `ByteOrder` hold what is shared.

Where the source and its own comments differ, the code is followed: `bdrv_is_allocated_above` looks at
the images strictly above the base, although its comment says that the base is included; and the line
that zeroes a read past the end of a disk asks for more bytes than the vector has, so that
`qemu_iovec_memset` must clamp.

Four promises do not hold as such, and are replaced by what does hold:

* A search of the bulk stage of a migration that begins at the last page of all, when that page is
  the only one marked, takes the mark off without sending the page. `RamSearch.Origin.ComeRound` shows
  that a page is dropped in this state and in no other. `RamRuns.Migrate` says what follows for whole
  migrations: at most one search drops a page, a page that is sent again is no longer lost, and a page
  differs in the end if and only if it was dropped while it differed and not sent since.
  `RamRuns.LosingRun` gives, for every block of two or more pages, a run that is completed and loaded
  and leaves the last page different.
* `qemu_bh_schedule_idle` in a thread other than the poller's can make the next `qemu_bh_schedule` be
  lost. `AioWakeup.IdleRule` gives the exact rule for callers: no run of a context loses a wakeup if and
  only if no thread but the poller's may schedule idly. `AioWakeup.HarmLoses` gives the exact state, and
  `AioWakeup.LosingRunLoses` a run from the creation of the context.
* The class of an ELF dump is chosen so that its program headers have room for the addresses of the guest
  (`DumpElf.PlacedFits`), but a 32-bit header has not always room for the offset in the file, and cuts it
  without an error. `DumpElf.Dump.DumpGuestMemory` shows that a header says what it should if and only if
  the offset, the virtual address and the length fit, which `DumpElf.Fitting` gives in terms of the blocks and the
  mapping; without paging it is the offset alone (`DumpElf.BlockShown`). `DumpElf.Elf32Cuts` is a guest below
  4 GiB with a mapping that is said to be at the start of the file; a 64-bit dump has no such mapping
  (`DumpElf.Elf64Fits`).
* A dump of 65533 or more mappings is to tell the number of its program headers in a section header.
  `write_elf_section` writes the bytes of its pointer to the section header and what lies behind it, not the
  section header. `DumpElf.CountRule` shows that a reader gets the number, whatever these bytes are, if and
  only if there are fewer mappings than that.

## Model

| member | source | states |
|---|---|---|
| Xbzrle.UlebRoundTrip | qemu-2.3.0/util/cutils.c:504-531 | a number of at most 14 bits decodes to itself, with the length it was encoded in |
| Xbzrle.XbzrleDecodeBuffer | qemu-2.3.0/migration/xbzrle.c:128-175 | the loop decodes as the recursive definition does, and fails exactly when that fails |
| Xbzrle.XbzrleEncodeBuffer | qemu-2.3.0/migration/xbzrle.c:26-126 | the delta is the runs of equal and differing bytes, each as long as can be, and decodes against the old page to the new one; overflow if and only if these runs need more room than allowed, unchanged if and only if the pages are equal and there is room |
| Words.ZeroByteTest | qemu-2.3.0/migration/xbzrle.c:96-101 | the mask test of the run of differing bytes finds a zero byte in a word just when there is one |
| Words.WordTest | qemu-2.3.0/migration/xbzrle.c:96-101 | the mask test on the exclusive or of two words of memory holds if and only if some byte is the same in both |
| Xbzrle.EqualRun | qemu-2.3.0/migration/xbzrle.c:43-64 | the word-at-a-time search stops at the first differing byte |
| Xbzrle.DifferRun | qemu-2.3.0/migration/xbzrle.c:85-113 | the word-at-a-time search with the mask test stops at the first equal byte |
| RamWire.PrintParse | qemu-2.3.0/arch_init.c:331-345 | what save_page_header and the puts after it print is read back by the receiver as the same record, whatever follows |
| RamLoader.FindFrom | qemu-2.3.0/arch_init.c:1073-1103 | finds a block of the name that is long enough, or there is none |
| RamLoader.LoadRecord | qemu-2.3.0/arch_init.c:1180-1212 | one record, a delta going through the decoding loop, changes the one page that its header leads to, or fails for a name, an offset or a delta that is wrong |
| RamLoader.RamLoad | qemu-2.3.0/arch_init.c:1116-1234 | on any stream of bytes: reads the next section record by record, leaves the destination as its records say and the rest of the stream unread, or reports an error exactly if a record cannot be read or applied |
| RamLoader.LoadPrinted | qemu-2.3.0/arch_init.c:1116-1234 | of records that were printed just those of the first section are applied, the others are left, and it fails exactly if one of these cannot be applied |
| RamLoader.CarriesOn | qemu-2.3.0/arch_init.c:331-345 | putting a record on the wire is the same as doing to the destination what the record says |
| RamLoader.Received | qemu-2.3.0/arch_init.c:1116-1234 | what the sender put on the wire loads without an error, section by section, towards the state expected |
| RamLoader.NothingCarried | qemu-2.3.0/arch_init.c:1131-1226 | the wire is empty exactly when all records are loaded |
| RamBitmap.SyncWords | qemu-2.3.0/arch_init.c:488-503 | the loop over words marks what the log has, clears the log and counts the new marks |
| RamBitmap.SyncPages | qemu-2.3.0/arch_init.c:504-515 | so does the loop over pages |
| RamBitmap.SyncRange | qemu-2.3.0/arch_init.c:483-516 | whichever loop runs, the whole range is synced and nothing before it |
| RamBitmap.SyncCount | qemu-2.3.0/arch_init.c:483-516 | the counter grows by the number of used pages that are newly marked |
| RamBitmap.ClearDirty | qemu-2.3.0/arch_init.c:463-466 | taking a mark off lowers the number of marked pages by one |
| RamCache.IsCached | qemu-2.3.0/page_cache.c:145-158 | says whether the page is cached; a hit sets the age of that item and changes no page and no other item |
| RamCache.Insert | qemu-2.3.0/page_cache.c:160-190 | succeeds if and only if no young item of another page is in the way and an empty slot gets its memory; then just that slot holds the page, else nothing changes |
| RamCache.Resize | qemu-2.3.0/page_cache.c:192-246 | keeps pages unchanged, and of two that collide one that is at least as young |
| RamSearch.PageCount | qemu-2.3.0/arch_init.c:782-793 | the lengths of blocks that do not overlap add up to the number of their pages |
| RamSearch.Origin.NextBlock | qemu-2.3.0/arch_init.c:727-734 | leaving a block, or wrapping around, keeps the state of the search |
| RamSearch.Origin.GoOn | qemu-2.3.0/arch_init.c:735-744 | an unmodified page does not end the search, which goes on behind it |
| RamSearch.Origin.FoundNotLosing | qemu-2.3.0/arch_init.c:720-744 | a search that finds a page to send did not begin in the losing state |
| RamSearch.Origin.ComeRound | qemu-2.3.0/arch_init.c:722-726 | a search that comes round drops a page if and only if it began in the losing state; then nothing is marked |
| RamSearch.Origin.StopsInTime | qemu-2.3.0/arch_init.c:457-461 | in the bulk stage a search does not pass a marked page ahead of it |
| RamSearch.Origin.StillOk | qemu-2.3.0/arch_init.c:446-468 | more marks do no harm to the bulk stage |
| RamSync.Settle | qemu-2.3.0/arch_init.c:617-693 | sending a page that was read makes it agree or be logged, and leaves the other pages alone |
| RamSync.Refresh | qemu-2.3.0/arch_init.c:353-444 | the cache goes on mirroring the destination when a page is sent |
| RamSync.Unmark | qemu-2.3.0/arch_init.c:463-466 | a marked page that is cached is cached as the destination has it |
| RamSync.SyncedStill | qemu-2.3.0/arch_init.c:532-604 | a sync keeps every page in agreement, marked or logged |
| RamSync.AllSent | qemu-2.3.0/arch_init.c:988-1016 | when nothing is marked or logged a page is at the destination as it is here if and only if it is not one that was dropped when it differed |
| RamSetup.LoadMemSize | qemu-2.3.0/arch_init.c:1143-1179 | the loop over the names and lengths of a MEM_SIZE record, on any stream of bytes |
| RamSetup.SyncPrinted | qemu-2.3.0/arch_init.c:905-911 | what ram_save_setup prints is read back and done, entry by entry, up to the last block that is not empty |
| RamSetup.MemSizeTaken | qemu-2.3.0/arch_init.c:1143-1179 | the destination takes the record if and only if it has all of the blocks, each with its length or resizeable to it; then it has room for all pages, as the migration needs |
| RamMigration.Migration.Setup | qemu-2.3.0/arch_init.c:843-921 | all pages are marked and counted, nothing is cached, and the invariant holds |
| RamMigration.Migration.ReadPage | qemu-2.3.0/arch_init.c:628-654 | the page read is the page of the guest, or the page is in the dirty log |
| RamMigration.Migration.SaveXbzrlePage | qemu-2.3.0/arch_init.c:382-444 | the delta makes the page that was read, an unmodified page is at the destination, and the cache has what was sent |
| RamMigration.Migration.SavePage | qemu-2.3.0/arch_init.c:617-693 | the record written makes a page that was read from the guest, or none is written and the destination has it |
| RamMigration.Migration.Arrives | qemu-2.3.0/arch_init.c:1073-1103 | a header, with CONTINUE or a name, leads the receiver to the page of the sender |
| RamMigration.Migration.FindAndReset | qemu-2.3.0/arch_init.c:446-468 | takes the mark off the next marked page, in the bulk stage the next page, and counts down |
| RamMigration.Migration.SendPage | qemu-2.3.0/arch_init.c:617-693 | after a page is sent all pages agree, are marked or are logged, the cache mirrors the destination, and the page is not lost any more |
| RamMigration.Migration.SearchTurn | qemu-2.3.0/arch_init.c:720-746 | one turn of the search keeps the invariant, makes progress, and drops a page if and only if the search began in the losing state and ends with this turn |
| RamMigration.Migration.Search | qemu-2.3.0/arch_init.c:720-746 | the loop ends, having sent one marked page or with nothing marked, and drops a page if and only if it began in the losing state |
| RamMigration.Migration.FindAndSaveBlock | qemu-2.3.0/arch_init.c:708-751 | the same, and where the next search begins; the counter goes down with a page that is sent |
| RamMigration.Migration.BitmapSync | qemu-2.3.0/arch_init.c:532-604 | all logged pages are marked, the log of all pages is cleared, and the invariant holds |
| RamMigration.Migration.GuestRuns | qemu-2.3.0/arch_init.c:446-468 | writes of the guest are logged, each page written and no other, and the invariant holds |
| RamMigration.Migration.Iterate | qemu-2.3.0/arch_init.c:923-985 | keeps the invariant, and what is on the wire turns the destination into what is expected |
| RamMigration.Migration.BeginLast | qemu-2.3.0/arch_init.c:988-992 | the last sync: the search that follows is losing if and only if, in the bulk stage, the page sent last was the only one marked or logged |
| RamMigration.Migration.FlushAll | qemu-2.3.0/arch_init.c:998-1007 | the loop ends with nothing marked, and only its first search can drop a page |
| RamMigration.Migration.Complete | qemu-2.3.0/arch_init.c:988-1016 | ends, and what is on the wire leaves a page at the destination as the guest left it if and only if it is not one that was dropped when it differed; which page that is, and that there is one, can be told from the marks and the log before the call |
| RamMigration.Migration.Receive | qemu-2.3.0/arch_init.c:1116-1234 | loading a section never fails and keeps the invariant |
| RamMigration.Migration.ResizeCache | qemu-2.3.0/page_cache.c:192-246 | the cache still mirrors the destination |
| RamRuns.Happen | qemu-2.3.0/arch_init.c:923-1033 | every event before completion keeps the invariant |
| RamRuns.Finish | qemu-2.3.0/arch_init.c:988-1016 | completion and loading: the wire is empty, and every page is as Complete says |
| RamRuns.Migrate | qemu-2.3.0/arch_init.c:843-1016 | after any events, completion and loading, a page differs between source and destination if and only if it was dropped while it differed and not sent since; there is at most one such page, and none unless a search began in the losing state |
| RamRuns.LosingRun | qemu-2.3.0/arch_init.c:708-751 | for every block of two or more pages a completed run, with everything loaded, after which the last page of the destination is not that of the guest |
| PhysMap.PhysPageMap.PhysMapNodeReserve | qemu-2.3.0/exec.c:167-174 | as many nodes as asked for are free |
| PhysMap.PhysPageMap.NodeBelow | qemu-2.3.0/exec.c:176-204 | an entry gets a node below it, and no lookup changes |
| PhysMap.PhysPageMap.PhysPageSetLevel | qemu-2.3.0/exec.c:191-224 | fills what lies below an entry, advances index and count by that, and stays within its share of nodes |
| PhysMap.PhysPageMap.PhysPageSet | qemu-2.3.0/exec.c:226-234 | lookup changes exactly on the range, with fewer than twice as many new nodes as there are levels |
| PhysMap.PhysPageMap.PhysPageCompact | qemu-2.3.0/exec.c:239-287 | a compacted subtree finds what the plain one finds, or a section that lies elsewhere below it, and has no entry left that could be joined with its only child |
| PhysMap.PhysPageMap.PhysPageCompactAll | qemu-2.3.0/exec.c:289-296 | the same for the whole map |
| PhysMap.PhysPageMap.Descend | qemu-2.3.0/exec.c:298-311 | the loop with skips finds what the walk finds |
| PhysCompact.StandsJoined | qemu-2.3.0/exec.c:263-286 | joining an entry with its only child keeps what is found |
| PhysCompact.DenseJoined | qemu-2.3.0/exec.c:263-286 | joining with a child below which nothing can be joined leaves nothing to join |
| DispatchView.LookupCorrect | qemu-2.3.0/exec.c:298-342 | in a consistent table every address finds the one section that contains it, through its subpage if need be, else the unassigned one |
| DispatchView.CompactionKeepsLookup | qemu-2.3.0/exec.c:313-319 | the check of the range of the section makes up for compaction |
| DispatchSteps.AddHolder | qemu-2.3.0/exec.c:2043-2061 | a new subpage table on a free page keeps the table consistent |
| DispatchSteps.AddFine | qemu-2.3.0/exec.c:2023-2041 | so does filling a part of a subpage |
| DispatchSteps.AddWhole | qemu-2.3.0/exec.c:1022-1032 | so does giving whole pages to a section |
| Dispatch.AddressSpaceDispatch.MemBegin | qemu-2.3.0/exec.c:2097-2115 | the new table has the four fixed sections and serves nothing |
| Dispatch.AddressSpaceDispatch.PhysSectionAdd | qemu-2.3.0/exec.c:951-968 | appends a section, unless there are as many as a page has bytes |
| Dispatch.AddressSpaceDispatch.PhysPageFind | qemu-2.3.0/exec.c:298-320 | the section found on a plain or compacted map |
| Dispatch.AddressSpaceDispatch.LookupRegion | qemu-2.3.0/exec.c:329-342 | resolves subpages |
| Dispatch.AddressSpaceDispatch.RegisterSubpage | qemu-2.3.0/exec.c:991-1019 | a piece within a page is registered, next to those already there; fails if and only if it, or it and a table for its page, are too many sections |
| Dispatch.AddressSpaceDispatch.SubpageRegister | qemu-2.3.0/exec.c:2023-2041 | the subpage table maps just the range to the section |
| Dispatch.AddressSpaceDispatch.RegisterMultipage | qemu-2.3.0/exec.c:1022-1032 | a piece of whole pages is registered; fails if and only if it is one section too many |
| Dispatch.AddressSpaceDispatch.MemAdd | qemu-2.3.0/exec.c:1034-1065 | a section is registered in pieces that tile it, first to last: the part of its first page, whole pages, what is left; fails if and only if they need too many sections |
| Dispatch.AddressSpaceDispatch.MemCommit | qemu-2.3.0/exec.c:2123-2135 | after compaction every 64-bit address still finds its piece, or the unassigned section |
| Dispatch.TableNeeded | qemu-2.3.0/exec.c:991-1019 | a page has a subpage table if and only if some piece is a proper part of it |
| Dispatch.Rebuild | qemu-2.3.0/exec.c:1034-1065 | mem_begin, mem_add of any disjoint sections and mem_commit: every 64-bit address is served as the flat list says; fails if and only if the four fixed sections, the pieces and the pages that are cut are together more than a page has bytes |
| RamList.FindRamOffset | qemu-2.3.0/exec.c:1203-1237 | the start of the smallest sufficient gap that follows a block; it fails only if there is none |
| RamList.FitsGap | qemu-2.3.0/exec.c:1203-1237 | a block put there overlaps no other and does not wrap around |
| RamList.List.Add | qemu-2.3.0/exec.c:1385-1463 | blocks stay apart and ordered by decreasing length, and the new one is at the best-fitting offset; refused if and only if there is no gap or no memory |
| RamList.List.Free | qemu-2.3.0/exec.c:1606-1623 | removes just the block at the address and forgets the cached one |
| RamList.List.Get | qemu-2.3.0/exec.c:817-853 | with or without the cache the answer is the one block that holds the address |
| RamList.HitIsContains | qemu-2.3.0/exec.c:822-827 | the wrapping subtraction finds just the addresses of the block |
| BlockDisk.AlignedRead | qemu-2.3.0/block.c:3076-3115 | whatever the driver does past the end of the disk, the result is what the disk shows, with zeros past its end |
| BlockDisk.PaddedSplice | qemu-2.3.0/block.c:3439-3483 | writing data padded with what the disk has is writing the data |
| BlockRequests.Covers | qemu-2.3.0/block.c:2409-2422 | a serialising request tracks its range rounded to the alignment |
| BlockRequests.WriteSplices | qemu-2.3.0/block.c:3336-3376 | the padded write changes the disk like the data alone and stays within the tracked range, as the asserts say |
| BlockRequests.StillPadded | qemu-2.3.0/block.c:2458-2470 | a write outside of the tracked range leaves the padding valid |
| BlockRequests.OthersStillPadded | qemu-2.3.0/block.c:3321-3376 | a driver write leaves the padding of all other requests valid |
| BlockDevice.Pad | qemu-2.3.0/block.c:3169-3192 | a read is widened to its rounding |
| BlockDevice.NewRead | qemu-2.3.0/block.c:3051-3060 | a read tracks all that it reads, and the clusters if it is copy on read |
| BlockDevice.Device.Scan | qemu-2.3.0/block.c:2472-2514 | finds a conflicting request that does not wait, or all conflicting ones wait |
| BlockDevice.Device.Wait | qemu-2.3.0/block.c:2472-2514 | afterwards of any two conflicting requests one waits, and who waits, waits for one that runs or has been woken |
| BlockDevice.Device.CheckByteRequest | qemu-2.3.0/block.c:2685-2701 | which requests are refused, and the error, in the order of the tests |
| BlockDevice.Device.BeginWrite | qemu-2.3.0/block.c:3381-3422 | a write is refused with the error of the first test that fails, from the driver to the offset, or else tracked; the invariant holds and other requests are as they were |
| BlockDevice.Device.BeginRead | qemu-2.3.0/block.c:3137-3207 | the same for a read |
| BlockDevice.Device.Resume | qemu-2.3.0/block.c:2501-2511 | a woken request looks again |
| BlockDevice.Device.WaitAgain | qemu-2.3.0/block.c:3336-3337 | a request that runs never has to wait again, as the asserts of the source say |
| BlockDevice.Device.FinishHead | qemu-2.3.0/block.c:3417-3446 | the head that was read is what the disk has until the write is done |
| BlockDevice.Device.FinishTail | qemu-2.3.0/block.c:3448-3483 | the same for the tail |
| BlockDevice.Device.FinishWrite | qemu-2.3.0/block.c:3321-3376 | the disk changes by the data of the request and by nothing else |
| BlockDevice.Device.FinishRead | qemu-2.3.0/block.c:3036-3119 | a read returns what the disk shows |
| BlockDevice.Device.End | qemu-2.3.0/block.c:2375-2383 | whoever waits for the request is woken, and the count of serialising requests is right |
| BlockDevice.NoDeadlock | qemu-2.3.0/block.c:2498-2508 | while requests are tracked one of them can run |
| BlockDevice.SerialisedAgain | qemu-2.3.0/block.c:3454-3456 | marking the request again for its tail changes nothing |
| BlockRuns.Call | qemu-2.3.0/block.c:3321-3376 | a driver call ends, in success or failure: only a write that succeeds writes, its own data, and the request is nearer to its end |
| BlockRuns.Step | qemu-2.3.0/block.c:3137-3503 | any step of any request that can run makes progress, even if the driver fails |
| BlockRuns.Drain | qemu-2.3.0/block.c:2375-2514 | in whatever order requests run, all end; each write is done once, with its own data, or a driver call for it failed; and the disk is what these writes, in their order, make of it |
| BlockMerge.Concat | qemu-2.3.0/util/iov.c:298-322 | appends the part of a vector that was asked for; the assertion at its end holds if and only if the offset is not beyond the end |
| BlockMerge.Join | qemu-2.3.0/block.c:4620-4640 | the three parts make the overlay, within the limit on buffers, and the assertion holds each time |
| BlockMerge.PartBytes | qemu-2.3.0/util/iov.c:298-322 | these are the right bytes |
| BlockMerge.PartsCount | qemu-2.3.0/block.c:4611-4613 | two parts of a vector split one buffer at most, so that the limit on their number holds |
| BlockMerge.Merge | qemu-2.3.0/block.c:4620-4646 | the merged request holds the first one overlaid by the second |
| BlockMerge.MergedWrites | qemu-2.3.0/block.c:4620-4646 | it writes what the two write one after the other |
| BlockMerge.MergeNext | qemu-2.3.0/block.c:4602-4654 | one turn of the loop: the array goes on holding requests with the effect of those so far, followed by those to come |
| BlockMerge.MultiwriteMerge | qemu-2.3.0/block.c:4591-4658 | the requests left in the array have the effect of all of them, merged ones respect the limits on buffers and length, and unless a limit is in the way no two that are left touch |
| BlockMerge.SameEffectSameDisk | qemu-2.3.0/block.c:4591-4658 | equal effect means that every disk is left alike |
| BlockChain.IsAllocated | qemu-2.3.0/block.c:4058-4196 | a run of sectors that are alike, empty past the end of the image; an error if and only if the driver is asked and fails |
| BlockChain.IsAllocatedAbove | qemu-2.3.0/block.c:4210-4247 | all sectors of the run are allocated in some image above the base, or none is in any, also where images are shorter than the top; an error if and only if a driver fails before an image that has the sector is found |
| BlockChain.Chain.Commit | qemu-2.3.0/block.c:2243-2348 | a guest sees the same sectors whether it succeeds or fails half way; when it succeeds they are in the backing image; all errors that come before any copying, and success if nothing fails |
| BlockChain.Chain.CopyDown | qemu-2.3.0/block.c:2304-2320 | all allocated sectors are copied, and nothing visible changes |
| AioWakeup.InvStep | qemu-2.3.0/aio-posix.c:189-254 | a step of any thread keeps the invariant - a live scheduled bottom half is still to be looked at, or the poller will be woken - if and only if it is not a harmful idle scheduling by another thread |
| AioWakeup.HarmlessRun | qemu-2.3.0/async.c:119-180 | a run without harmful steps never ends with the poller blocked for ever, a live bottom half scheduled and nobody to wake it |
| AioWakeup.NoLostWakeup | qemu-2.3.0/async.c:119-180 | nor does any run in which only the polling thread schedules idly |
| AioWakeup.Wakes | qemu-2.3.0/async.c:270-277 | a scheduler between its exchange and its notify does wake a poller that blocks |
| AioWakeup.HarmLoses | qemu-2.3.0/async.c:110-134 | while the poller waits without a timeout, an idle scheduling makes the next real one be lost if and only if it is harmful |
| AioWakeup.ForeignIdleLoses | qemu-2.3.0/async.c:110-134 | in whatever state the poller blocks, idle scheduling by another thread makes the next real one be lost |
| AioWakeup.PollerBlocks | qemu-2.3.0/async.c:153-180 | from any initial state with one bottom half that is not scheduled the poller comes to block |
| AioWakeup.LosingRunLoses | qemu-2.3.0/async.c:44-180 | a run from the creation of a context that loses a wakeup, for any other thread |
| AioWakeup.IdleRule | qemu-2.3.0/async.c:110-180 | no run of a context loses a wakeup if and only if no thread other than the poller's may schedule idly |
| BottomHalves.Context.BhNew | qemu-2.3.0/async.c:44-60 | the new bottom half is at the head of the list |
| BottomHalves.Context.BhSchedule | qemu-2.3.0/async.c:110-134 | it is scheduled, and counted once until it is started |
| BottomHalves.Context.BhDelete | qemu-2.3.0/async.c:147-151 | it is deleted for good |
| BottomHalves.Context.Start | qemu-2.3.0/async.c:74-85 | a bottom half that is due is started once for having been scheduled, and nothing else is lost |
| AioLoop.AioContext.VisitBh | qemu-2.3.0/async.c:71-87 | starts a bottom half if and only if it is live and scheduled; whatever its callback does to bottom halves and handlers, nothing that is being walked is freed, and the lists only grow at their heads; progress if and only if it was started and not idle |
| AioLoop.AioContext.BhPoll | qemu-2.3.0/async.c:63-108 | each bottom half that was due is started, cancelled or deleted; progress if and only if this poll started one that was not idle; a nested poll frees nothing, the outermost one leaves no deleted bottom half; none is started after it was deleted, or more often than it was scheduled |
| BottomHalves.Context.Sweep | qemu-2.3.0/async.c:92-105 | frees just the deleted ones and keeps the order |
| BottomHalves.LiveMembers | qemu-2.3.0/async.c:92-105 | the members that are left are the live ones, each once |
| AioHandlers.Handlers.Find | qemu-2.3.0/aio-posix.c:32-43 | the live handler of a descriptor, or there is none |
| AioHandlers.Handlers.SetFdHandler | qemu-2.3.0/aio-posix.c:45-93 | the descriptor has one live handler with the given callbacks, or none; handlers of other descriptors are as they were; nothing is freed during a walk |
| AioLoop.AioContext.CallHandler | qemu-2.3.0/aio-posix.c:153-169 | a callback is started if and only if poll reported something for it, it is set and the node is not deleted then; walks under way start nothing meanwhile |
| AioLoop.AioContext.TakeTurn | qemu-2.3.0/aio-posix.c:148-180 | the callbacks of a turn are just the read callback, if due, and then the write callback, if due as the read callback has left the node; the next node is the one that followed, whatever callbacks did; only the outermost walk frees, when the turn is over |
| AioLoop.AioContext.Walk | qemu-2.3.0/aio-posix.c:142-181 | each node that was there when the walk began gets one turn, in order, and no other; progress if and only if a callback was started that is not the read callback of the notifier |
| AioLoop.AioContext.Dispatch | qemu-2.3.0/aio-posix.c:127-187 | bottom halves, handlers and timers, with callbacks that may do anything to either list and poll again: what was due is done, walks under way keep their lists, and progress is exact |
| AioLoop.AioContext.AioPoll | qemu-2.3.0/aio-posix.c:220-253 | a poll, nested or not, keeps both lists as the walks under way need them |
| DumpLayout.GetOffsetRange | qemu-2.3.0/dump.c:369-428 | the place in the file of the part of a mapping that is dumped, all that the block has of it and at most as long as the mapping; none exactly if no dumped block has the address |
| DumpLayout.PlaceShows | qemu-2.3.0/dump.c:369-428 | the bytes of the file at the place of a mapping are the guest memory at its physical address |
| DumpLayout.CpuGetDumpInfo | qemu-2.3.0/target-i386/arch_dump.c:385-417 | the class and the byte order; 32 bits if and only if the guest is x86 outside of long mode and no block ends above 4 GiB |
| DumpLayout.GetGuestSimpleMemoryMapping | qemu-2.3.0/memory_mapping.c:316-325 | one mapping for each block, in order |
| DumpLayout.Clip | qemu-2.3.0/memory_mapping.c:327-352 | a mapping cut to the filter has just the addresses of it that are in the filter, or is dropped |
| DumpLayout.MemoryMappingFilter | qemu-2.3.0/memory_mapping.c:327-352 | the list of these, in order |
| DumpLayout.SimpleFiltered | qemu-2.3.0/memory_mapping.c:316-352 | without paging the mappings are what is dumped of the blocks, each block that is dumped and no other |
| ElfHeaders.HeaderRoundTrip | qemu-2.3.0/dump.c:165-279 | the fields of a program header come back from its bytes, in either class and byte order, if and only if all of them fit |
| ElfHeaders.EhdrRoundTrip | qemu-2.3.0/dump.c:103-163 | a reader gets the class, the byte order and where the program headers are from the first bytes of the file, and where the section header is if and only if that fits |
| DumpElf.LoadAgrees | qemu-2.3.0/dump.c:430-465 | a header read from the file tells its mapping and a part of the file that is the guest memory there, if and only if the offset, the virtual address and the length fit |
| DumpElf.PlacedFits | qemu-2.3.0/dump.c:165-209 | the class that is chosen has room for the physical address and the size in the file of every mapping that is in the file |
| DumpElf.FitsAll | qemu-2.3.0/dump.c:430-465 | whether a header has room can be told from the blocks and the mapping beforehand |
| DumpElf.BlockShown | qemu-2.3.0/dump.c:430-465 | without paging all that is dumped of a block is in the file, and its header is right if and only if its offset has room |
| DumpElf.Elf64Fits | qemu-2.3.0/dump.c:165-186 | 64-bit headers have room for all that has 64 bits |
| DumpElf.Elf32Cuts | qemu-2.3.0/dump.c:188-209 | a guest below 4 GiB, which gets a 32-bit file, with a mapping that its header says to be at offset 0 |
| DumpElf.CountRule | qemu-2.3.0/dump.c:306-330 | with the bytes that write_elf_section writes a reader can tell the number of program headers, whatever they are, if and only if there are fewer than 65533 mappings |
| DumpElf.Dump.Init | qemu-2.3.0/dump.c:1475-1589 | the class, the mappings, the counts of program headers, with and without a section header, and memory_offset, for any number of mappings; fails if and only if nothing is to be dumped, the architecture is unknown or the page tables cannot be read |
| DumpElf.Dump.WriteElfLoads | qemu-2.3.0/dump.c:430-465 | as many headers as were counted, one after the other, each for its mapping; none is left out before the limit |
| DumpElf.Dump.DumpBegin | qemu-2.3.0/dump.c:468-567 | the ELF header, the header of the notes, those of the mappings, the section header and the notes are memory_offset bytes, each in its place |
| DumpElf.Dump.CreateVmcore | qemu-2.3.0/dump.c:630-641 | whatever the filter, the blocks and the mappings: the file holds the whole image, a reader of its bytes gets the ELF header and the notes, and each program header in it shows its mapping if and only if it fits |
| DumpElf.Dump.DumpGuestMemory | qemu-2.3.0/dump.c:1663-1680 | the same from the start, with the class that the guest gets, or an error and nothing is written |
| DumpElf.Dump.GetStartBlock | qemu-2.3.0/dump.c:1399-1425 | the first block with something to dump, and where in it to begin |
| DumpElf.Dump.GetNextBlock | qemu-2.3.0/dump.c:575-600 | the next one |
| DumpElf.Dump.WriteMemory | qemu-2.3.0/dump.c:343-366 | page by page all of the range is written |
| DumpElf.Dump.Iterate | qemu-2.3.0/dump.c:603-628 | the file gets the whole image behind what it has, in the order and with the offsets that the headers assume |
| KdumpBitmap.GetNextPage | qemu-2.3.0/dump.c:999-1043 | goes through all pages of the guest in ascending order, each once |
| KdumpBitmap.PutBit | qemu-2.3.0/dump.c:981-988 | setting or clearing a bit in its byte leaves all other bits of the buffer |
| KdumpBitmap.BitmapWriter.SetDumpBitmap | qemu-2.3.0/dump.c:942-991 | writes the chunks left behind, each once, and of the bits in the buffer sets or clears just the one |
| KdumpBitmap.BitmapWriter.WriteDumpBitmap | qemu-2.3.0/dump.c:1045-1093 | both bitmaps, byte by byte, have a bit set if and only if its page is in the guest; they have all chunks, and the pages are counted |
| KdumpBitmap.LenIsEnough | qemu-2.3.0/dump.c:1511-1515 | the length reserved for a bitmap is that of its chunks |
| KdumpPages.WriteCache | qemu-2.3.0/dump.c:1105-1135 | file and cache together show what was written, and nothing else changes |
| KdumpPages.AgreesOn | qemu-2.3.0/dump.c:1105-1135 | with two caches that lie apart this is what a direct write would show |
| KdumpPages.EncodedFields | qemu-2.3.0/dump.c:1208-1211 | the fields of a descriptor come back from its bytes, in either byte order, if they fit |
| KdumpPages.StoredReadable | qemu-2.3.0/dump.c:1172-1337 | the descriptors written do fit, so that a reader gets from the bytes of the file to the data of the page |
| KdumpPages.PageWriter.WritePage | qemu-2.3.0/dump.c:1226-1314 | the next page gets a descriptor that leads to data which restore it: shared zeros, compressed or plain; and takes no more data than that |
| KdumpPages.PageWriter.Sync | qemu-2.3.0/dump.c:1317-1326 | then the file shows what direct writes would have left |
| KdumpPages.PageWriter.WriteDumpPages | qemu-2.3.0/dump.c:1172-1337 | a reader that decodes the bytes of the k-th descriptor is led to data in the file which restore the k-th page of the guest, for all pages in order, and the caches make no difference |
| KdumpDump.CountIs | qemu-2.3.0/dump.c:1339-1392 | the bits set before the bit of a page are as many as there are pages before it |
| KdumpDump.CreateKdumpVmcore | qemu-2.3.0/dump.c:1339-1392 | for every page of the guest its bit is set, and the descriptor whose number is that of the bits set before it leads to data which restore the page; no other bit is set |
| SoftTlb.AddLargePage | qemu-2.3.0/cputlb.c:224-243 | the loop ends with the smallest region that covers the old region and the new page |
| SoftTlb.Tlb.Flush | qemu-2.3.0/cputlb.c:51-70 | no entry is left |
| SoftTlb.FlushEntry | qemu-2.3.0/cputlb.c:72-82 | the entry no longer matches the page, and is kept if it did not |
| SoftTlb.Tlb.FlushPage | qemu-2.3.0/cputlb.c:84-122 | no entry for the page is left in either table and any mode, and entries of other pages stay; none at all is left if the address lies in a large page entered since the last full flush |
| SoftTlb.Tlb.SetPage | qemu-2.3.0/cputlb.c:252-332 | the new entry is in its slot, the one in the way goes to the next slot of the victim table, all others stay, and large pages are remembered |
| GdbPackets.MemToHex | qemu-2.3.0/gdbstub.c:428-439 | two hex digits for each byte |
| GdbPackets.HexToMem | qemu-2.3.0/gdbstub.c:441-449 | undoes it |
| GdbPackets.PutPacketBinary | qemu-2.3.0/gdbstub.c:452-484 | the frame of a packet, which fits into last_packet |
| GdbPackets.NoOverflow | qemu-2.3.0/gdbstub.c:1396-1403 | whatever comes in, the line buffer does not overflow |
| GdbPackets.Framing | qemu-2.3.0/gdbstub.c:1388-1425 | a packet is delivered unchanged if and only if its two checksum characters stand for the sum of its bytes |
| GdbPackets.RoundTrip | qemu-2.3.0/gdbstub.c:452-484 | what put_packet_binary prints is delivered as it was |
| GdbPackets.Gdb.ReadByte | qemu-2.3.0/gdbstub.c:1356-1430 | a byte is an answer to the last packet, or stops the guest, or goes through the parser |
| GdbPackets.Gdb.ReceivePacket | qemu-2.3.0/gdbstub.c:1356-1430 | a packet is acknowledged and delivered, or refused and not delivered |

## Left out

- RDMA hooks, throttling and statistics of the migration, and changes of the block list while it runs.
- RamLoader.RamLoad: MEM_SIZE and HOOK records are load errors here; RamSetup has the MEM_SIZE record on a
  stream of its own.
- RamMigration.Migration.Setup: puts no MEM_SIZE record on its wire; that the destination has room is what
  RamSetup.MemSizeTaken shows of a destination that took it.
- RamSetup.SyncPrinted: names have no NUL in them.
- RamMigration.Migration.SavePage: returns the record, which the caller puts on the wire; a page put
  asynchronously is taken to be read when it is put, not when the buffer is flushed.
- The number of a page is not truncated to an int as it is in migration_bitmap_set_dirty.
- RamMigration.Migration.Iterate: the clock and the rate limit are a bound on the number of pages.
- RamRuns.Migrate: requires at least one page of RAM, as without one ram_find_and_save_block does not end.
- RamCache.Resize: takes any number of slots, where the source rounds down to a power of two.
- Words.WordTest: words have 64 bits and are loaded in little-endian order; which order makes no difference.
- Lengths that address_space_translate returns, and accesses across regions.
- Reference counting of memory regions, RCU, the host memory behind RAM blocks and the dirty bitmap of the list.
- Driver calls are one step that succeeds or fails; a write that fails is taken to have changed nothing.
- BlockDevice.Device.BeginRead: copy on read serialises the request, but the copying is not modelled.
- Throttling, write notifiers, detection of zeroes, write_zeroes and discard.
- BlockMerge.MultiwriteMerge: takes requests that are sorted; flags and qsort are not modelled.
- BlockChain.IsAllocated: drivers that pass the question on to another image.
- BlockChain.Chain.Commit: the backing image is what a guest would see of it, with a truncate that adds zeros.
- The glib main loop, timers beyond their effect on the timeout, and several threads that poll one context.
- AioWakeup.InvStep: memory is sequentially consistent, as the barriers of the source are meant to ensure.
- AioLoop.AioContext.Dispatch: what callbacks do is a finite script, without coroutines; a timer is a callback.
- Errors when a dump is written.
- DumpElf.Dump.DumpBegin: the notes are any bytes of the size that was computed for them.
- DumpElf.Dump.Init: what page tables map is any list of mappings.
- KdumpBitmap.BitmapWriter.SetDumpBitmap: writing does not fail; a bitmap is the list of its chunks, which are written
  one behind the other.
- KdumpDump.CreateKdumpVmcore: the headers of the file, and the bytes of the bitmaps in the file.
- KdumpPages.PageWriter.WriteDumpPages: compression is any function that can be undone, and the file ends
  below 2^64.
- SoftTlb.Tlb.SetPage: the flag bits kept in the low bits of an address, and the I/O side of an entry.
- GdbPackets.Gdb.ReadByte: what gdb_handle_packet does, apart from its answer.
