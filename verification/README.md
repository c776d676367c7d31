# OS/161 address spaces, TLB-miss handling and file-descriptor tables in Dafny

This project models three pieces of an OS/161 kernel (MIPS, 4 KiB pages, a
software-managed TLB) and proves properties of them:

* **Address spaces** (`asst3-master/kern/vm/addrspace.c`, module `AddrSpaces`).
  An address space is an insertion-ordered list of regions plus a two-level
  page table. Each region has a base, a page count, a writeable flag `w` and
  its saved copy `w_reserve`. The top-level table has `PAGE_TABLE_SIZE` slots,
  each NULL or a second-level table of 32-bit entries, where 0 means "no
  translation". The module covers creation, region definition (with page
  alignment), the stack region, and the prepare/complete-load flag dance. It
  also covers the deep copy with its ENOMEM paths, destruction, and the TLB
  flush done by activate and deactivate.
* **Page-table helpers and the TLB-miss handler** (`asst3-master/kern/vm/vm.c`,
  module `Vm`). `vm_create_l1_pte` allocates a zeroed second-level table.
  `vm_create_l2_pte` takes a frame and stores `frame | dirty | VALID`.
  `vm_fault` dispatches on the fault kind and splits `KVADDR_TO_PADDR(faultaddress)`
  10/10/12. It then lazily fills the page table from the first region that
  contains the address, and loads the TLB.
* **The per-thread file table** (`asst2-master/kern/syscall/file.c`, module
  `FileTables`). This is an `OPEN_MAX` array of pointers to shared open-file
  records; each record has a mode, a vnode, an offset and a reference count.
  The module covers `insert_file`, `search_filetable`, `open_file`,
  `initialize_filetable` and `destroy_filetable`. It also covers `sys_close`,
  `sys_dup2` and `sys_lseek`, and the checks and offset updates of
  `sys_read` and `sys_write`.

Two supporting modules hold what the three share:

* `Kern` has 32-bit words, the MIPS constants, error numbers and the kseg0
  address conversions.
* `Machine` has the physical frame pool of `alloc_kpages`/`free_kpages`,
  page contents, the `kmalloc` heap and the TLB. A page-sized `kmalloc`, as
  for a second-level table, is `alloc_kpages(1)` in OS/161, and its `kfree` is
  `free_kpages`, so such a table takes a frame of the same pool.

A third module, `PageTables`, gives the page table a value-level reading.
It defines the index split, the entry format, the set of frames a table
maps (`Frames`), and what it means for one table to copy another
(`CopiedTable`). The imperative methods are specified in these terms.

The code that changes state is modelled as imperative Dafny:
* The page table is an `array<Option<array<Word>>>`. The class `AddrSpace`
  keeps a ghost snapshot `PT` of it in its invariant `Valid()`.
* The file table is an `array<OpenFile?>` of shared `OpenFile` objects. Its
  reference-count invariant is `FileTable.RefcountsMatch()`: every record's
  count equals the number of slots pointing at it.
* The TLB is an `array<TlbEntry>`.

Allocation failure is a nondeterministic choice inside the allocator methods.
Every result the VFS or the hardware decides is a parameter of the operation:
* `vfs_open`;
* `VOP_READ`, `VOP_WRITE`, `VOP_STAT` and `VOP_ISSEEKABLE`;
* the current process and its address space.

`tlb_random`'s slot choice is the one exception: it is a nondeterministic
choice inside `Tlb.Random`.

32-bit arithmetic is written out: a word is an integer in `[0, 2^32)`, and
`Wrap` reduces a sum modulo `2^32`. The masks and shifts by page constants
are the divisions and remainders they amount to (`PageBase`, `L1Index`,
`L2Index`, `HasBit`).

## Model

| member | source | states |
|---|---|---|
| Kern.KvaddrRoundTrip | asst3-master/kern/vm/addrspace.c:150-152 | KVADDR_TO_PADDR and PADDR_TO_KVADDR are mutually inverse on every 32-bit word |
| Kern.KvaddrToPaddrCases | asst3-master/kern/vm/vm.c:94 | KVADDR_TO_PADDR subtracts the kseg0 base with 32-bit wrap-around, and keeps the page offset |
| Kern.PaddrToKvaddrCases | asst3-master/kern/vm/addrspace.c:150 | PADDR_TO_KVADDR adds the kseg0 base with 32-bit wrap-around, and keeps the page offset |
| Machine.AlignedAlias | asst3-master/kern/vm/addrspace.c:194 | the kseg0 alias of an aligned frame is aligned, and converts back to the same frame |
| Machine.Ram.AllocKpage | asst3-master/kern/vm/vm.c:41-43 | alloc_kpages(1) returns 0 and takes nothing, or the aligned kseg0 address of a frame that it removes from the free pool |
| Machine.Ram.FreeKpage | asst3-master/kern/vm/addrspace.c:194 | free_kpages returns the frame holding the given kseg0 address to the pool |
| Machine.Ram.CopyPage | asst3-master/kern/vm/addrspace.c:150 | memmove of a page: the destination frame now holds the source frame's old contents; no other frame changes |
| Machine.Ram.KmallocTable | asst3-master/kern/vm/addrspace.c:134-138 | kmalloc of a second-level table, which is alloc_kpages(1): nothing, with the pool unchanged; or a fresh PAGE_TABLE_SIZE array with unspecified contents, added to the heap, whose frame was free, leaves the pool and is recorded as the block's frame |
| Machine.Ram.Kfree | asst3-master/kern/vm/addrspace.c:65 | kfree of a small object removes exactly that object from the heap and leaves frames and memory alone |
| Machine.Ram.KfreeTable | asst3-master/kern/vm/vm.c:128-130 | kfree of a second-level table, which is free_kpages: the table leaves the heap and the frame under it returns to the pool |
| Machine.TlbhiInvalid | asst3-master/kern/vm/addrspace.c:224 | TLBHI_INVALID(i) is a page-aligned address in kseg0 |
| Machine.Tlb.Write | asst3-master/kern/vm/addrspace.c:224 | tlb_write changes exactly slot i to the given pair |
| Machine.Tlb.Random | asst3-master/kern/vm/vm.c:149 | tlb_random overwrites exactly one slot, of the hardware's choosing, with the given pair |
| PageTables.L1Index | asst3-master/kern/vm/vm.c:95 | paddr >> 22 is a valid top-level index |
| PageTables.L2Index | asst3-master/kern/vm/vm.c:96 | (paddr << 10) >> 22 is a valid second-level index |
| PageTables.IndexSplitRecombines | asst3-master/kern/vm/vm.c:92-96 | the two indices together are the page number: pt1 * 1024 + pt2 == p / PAGE_SIZE |
| PageTables.SameIndicesIffSamePage | asst3-master/kern/vm/vm.c:92-96 | two physical addresses get the same index pair if and only if they lie in the same page |
| PageTables.Kseg0PageNumber | asst3-master/kern/vm/vm.c:94 | KVADDR_TO_PADDR moves the page number by 0x80000, wrapping within 2^20 pages |
| PageTables.SameEntryIffSamePage | asst3-master/kern/vm/vm.c:94-96 | two fault addresses select the same entry if and only if they lie in the same virtual page |
| PageTables.DirtyBits | asst3-master/kern/vm/addrspace.c:151 | e & TLBLO_DIRTY keeps bit 10 of the entry and clears the rest: e mod 2^11 less e mod 2^10 |
| PageTables.MaskOneBit | asst3-master/kern/vm/addrspace.c:151 | keeping only bit 10 of a word gives TLBLO_DIRTY when that bit is set and 0 when it is clear |
| PageTables.MakePte | asst3-master/kern/vm/vm.c:45 | (paddr & PAGE_FRAME) \| dirty \| TLBLO_VALID is nonzero, names paddr's frame, carries exactly the given dirty bit and has the valid bit |
| PageTables.PteBits | asst3-master/kern/vm/vm.c:45 | frame + dirty + valid, the sum that stands for the OR of disjoint bits, fits in a word, and the frame, the dirty bit and the valid bit each read back from it |
| PageTables.LowBits | asst3-master/kern/vm/vm.c:45 | the flag bits below the page frame are read independently of the frame number |
| PageTables.RowFramesMember | asst3-master/kern/vm/addrspace.c:191-195 | a frame is in RowFrames exactly when some nonzero entry among the first n names it |
| PageTables.TableFramesMember | asst3-master/kern/vm/addrspace.c:188-198 | a frame is in TableFrames exactly when a nonzero entry in one of the first n slots names it |
| PageTables.FramesMember | asst3-master/kern/vm/addrspace.c:188-198 | Frames(pt) is exactly the set of frames that nonzero entries of the table name |
| PageTables.TableFramesPrefix | asst3-master/kern/vm/addrspace.c:188-198 | tables that agree on their first n slots map the same frames there |
| PageTables.RowFramesPrefix | asst3-master/kern/vm/addrspace.c:191-195 | rows that agree on their first n entries map the same frames there |
| PageTables.RowFramesGrow | asst3-master/kern/vm/addrspace.c:191-195 | the frames of a row prefix grow with the prefix |
| PageTables.TableFramesGrow | asst3-master/kern/vm/addrspace.c:188-198 | the frames of a table prefix grow with the prefix |
| PageTables.RowFramesInFrames | asst3-master/kern/vm/addrspace.c:188-198 | the frames of one present slot are among the frames of the table |
| PageTables.FramesAfterInstall | asst3-master/kern/vm/vm.c:45 | installing a nonzero entry where there was 0, changing no other entry, adds exactly that entry's frame to the mapped frames |
| PageTables.FramesOfSameEntries | asst3-master/kern/vm/vm.c:27-30 | tables with the same entries everywhere map the same frames, whichever slots are present |
| PageTables.CopiedUpToStep | asst3-master/kern/vm/addrspace.c:131-162 | copying slot i extends a copy of the first i slots to i + 1, when the earlier slots are untouched and frames are only taken from the free pool |
| PageTables.CopyProgressStep | asst3-master/kern/vm/addrspace.c:131-162 | one round of the pt1 loop keeps the copy invariant: slots copied so far, no frame shared by two entries, one second-level-table frame per present source slot so far, apart from the entries' frames, the free pool equal to the starting pool less both, later slots absent, memory changed only in pool frames |
| PageTables.CopiedRowFrames | asst3-master/kern/vm/addrspace.c:142-150 | every frame a copied row names came from the pool |
| PageTables.DistinctFramesEntries | asst3-master/kern/vm/addrspace.c:142-150 | in a table with distinct frames, two different nonzero entries name two different frames |
| PageTables.DistinctRowStep | asst3-master/kern/vm/addrspace.c:142-150 | giving entry j a frame that is still free, when none of the earlier entries' frames is free, keeps the row's frames distinct |
| PageTables.DistinctFramesStep | asst3-master/kern/vm/addrspace.c:131-162 | adding a distinct row of free frames, when none of the earlier slots' frames is free, keeps the table's frames distinct |
| PageTables.RowFramesHas | asst3-master/kern/vm/addrspace.c:191-195 | a nonzero entry's frame is one of its row's frames |
| PageTables.TableFramesStep | asst3-master/kern/vm/addrspace.c:131-162 | the frames of the first i + 1 slots are those of the first i plus those of slot i |
| PageTables.TableFramesTaken | asst3-master/kern/vm/addrspace.c:131-162 | the free pool stays the starting pool less the frames of the slots copied so far and less the frames under their second-level tables, and the two sets stay apart |
| PageTables.TableFramesReturned | asst3-master/kern/vm/addrspace.c:158-168 | when the copy stops early, every frame of the starting pool is free, mapped by the partial copy, or under one of its second-level tables |
| PageTables.CopiedRowStep | asst3-master/kern/vm/addrspace.c:140-157 | copying entry j extends a copy of the first j entries to j + 1 |
| AddrSpaces.CopyRowStep | asst3-master/kern/vm/addrspace.c:140-157 | one round of the pt2 loop keeps its invariant: the first j + 1 entries are a copy with distinct frames, and the free frames are the pool less theirs |
| PageTables.CopiedRowStable | asst3-master/kern/vm/addrspace.c:140-157 | a copied row stays a copy while frames are only taken from the pool and memory changes only in free frames |
| PageTables.CopiedRowRebase | asst3-master/kern/vm/addrspace.c:140-157 | a row copied from one starting state is a copy relative to the copy's first state |
| PageTables.CopiedTableWiden | asst3-master/kern/vm/addrspace.c:131-162 | a copy taking frames from a pool also takes them from any larger pool |
| PageTables.CopiedTableFrames | asst3-master/kern/vm/addrspace.c:131-162 | a copy's frames all came from the pool and none of them is free any more |
| AddrSpaces.AlignedRegionCovers | asst3-master/kern/vm/addrspace.c:276-294 | absent 32-bit overflow, the defined region starts at a page boundary within a page below vaddr, ends at the first page boundary at or after vaddr + memsize, contains every address of the segment, and has w == w_reserve == writeable |
| AddrSpaces.ZeroPageRegion | asst3-master/kern/vm/addrspace.c:277-282 | memsize 0 at an aligned vaddr gives a region of zero pages that contains no address |
| AddrSpaces.StackRegion | asst3-master/kern/vm/addrspace.c:351 | the stack region is the region as_define_region makes for [USERSTACK - USERSTACKSIZE, USERSTACK): 16 pages ending at USERSTACK |
| AddrSpaces.LoadRestoresFlags | asst3-master/kern/vm/addrspace.c:316-345 | prepare-load makes every region writeable and changes nothing else; complete-load after it gives back exactly the original regions |
| AddrSpaces.FlushedMatchesNoUserPage | asst3-master/kern/vm/addrspace.c:221-226 | after the flush every slot is invalid, no slot's EntryHi is a user page, and no two slots share an EntryHi |
| AddrSpaces.FlushTlb | asst3-master/kern/vm/addrspace.c:222-226 | every slot i holds (TLBHI_INVALID(i), TLBLO_INVALID()) |
| AddrSpaces.FreedFrameOfEntry | asst3-master/kern/vm/addrspace.c:194 | free_kpages(PADDR_TO_KVADDR(e & PAGE_FRAME)) returns exactly the frame that entry e names |
| AddrSpaces.PageBaseIsAligned | asst3-master/kern/vm/addrspace.c:194 | masking with PAGE_FRAME gives an aligned address and is idempotent |
| AddrSpaces.RowFramesAligned | asst3-master/kern/vm/addrspace.c:191-195 | every frame a row names is page-aligned |
| AddrSpaces.TableFramesAligned | asst3-master/kern/vm/addrspace.c:188-198 | every frame a table names is page-aligned |
| AddrSpaces.AsCreate | asst3-master/kern/vm/addrspace.c:51-78 | NULL with the pool and heap unchanged; or a new address space with no regions and every top-level slot NULL, whose top-level table is a frame taken from the pool |
| AddrSpaces.AsDestroy | asst3-master/kern/vm/addrspace.c:175-205 | exactly the frames named by nonzero entries, plus the top-level table's frame, return to the pool, and each entry's frame is page-aligned; the struct leaves the heap |
| AddrSpaces.AsDefineRegion | asst3-master/kern/vm/addrspace.c:261-313 | ENOSYS for NULL; ENOMEM with the list unchanged; or the aligned region appended at the tail with earlier regions and the page table unchanged |
| AddrSpaces.AsDefineStack | asst3-master/kern/vm/addrspace.c:347-360 | on success the stack region is appended and the stack pointer is USERSTACK; an error is passed on with the list unchanged and no stack pointer |
| AddrSpaces.AsPrepareLoad | asst3-master/kern/vm/addrspace.c:316-326 | the regions become Prepared(old regions): every w is 1, order and the other fields kept |
| AddrSpaces.AsCompleteLoad | asst3-master/kern/vm/addrspace.c:329-345 | the regions become Completed(old regions), every w restored from w_reserve, and the TLB is flushed |
| AddrSpaces.AsActivate | asst3-master/kern/vm/addrspace.c:207-227 | no change without a current address space; otherwise every TLB slot is invalidated |
| AddrSpaces.AsDeactivate | asst3-master/kern/vm/addrspace.c:229-249 | no change without a current address space; otherwise every TLB slot is invalidated |
| AddrSpaces.CopyEntry | asst3-master/kern/vm/addrspace.c:142-155 | a zero entry is copied as 0; a nonzero entry gets a frame that was free and is no longer, holding the source page, with the same dirty bit and the valid bit set; or the allocation fails with nothing taken |
| AddrSpaces.CopyRow | asst3-master/kern/vm/addrspace.c:140-157 | on success the new row copies the source row, no two of its entries share a frame, and the pool lost exactly its frames; on failure no frame of the pool is lost |
| AddrSpaces.FillSlot | asst3-master/kern/vm/addrspace.c:133-161 | a present source slot gets a new row on a frame taken from the pool and recorded as the block's frame; on success the row copies the source row with distinct frames and the pool lost exactly that frame and the row's frames; on failure every pool frame is free, mapped by the partial row or under it, and a failed kmalloc takes nothing; other slots are unchanged |
| AddrSpaces.LinkTable | asst3-master/kern/vm/addrspace.c:134 | a table no slot holds becomes slot i's, and no other slot changes |
| AddrSpaces.CopySlot | asst3-master/kern/vm/addrspace.c:131-162 | one round of the pt1 loop advances the copy invariant, table frames included, from i slots to i + 1, or fails with every pool frame free, mapped by the partial copy or under one of its second-level tables |
| AddrSpaces.CopyTable | asst3-master/kern/vm/addrspace.c:131-162 | on success the new table copies the source's (same slots present, same entries nonzero, dirty bits kept, frames taken from the pool with the same contents), no two entries share a frame, and the pool lost exactly its frames plus one frame per present source slot for the second-level tables, apart from them; on failure every frame that was free is free again, mapped by the partial copy or under one of its tables |
| AddrSpaces.CopyRegions | asst3-master/kern/vm/addrspace.c:94-127 | the new list holds the source regions in the same order, or, after a failed kmalloc, a proper prefix of them; the page table is untouched |
| AddrSpaces.AsCopy | asst3-master/kern/vm/addrspace.c:80-173 | the copy has the same regions in order and a CopiedTable page table in which no two entries share a frame and no frame is still free; the pool lost exactly those frames, the top-level table's frame and one frame per present source slot under the second-level tables; neither the source nor any frame that was not free changes; any allocation failure gives ENOMEM after destroying the partial copy, and every frame that was free is free again except the frames under the partial copy's second-level tables, which as_destroy does not free |
| Vm.FirstContaining | asst3-master/kern/vm/vm.c:111-124 | the index of the first region in list order whose [vbase, vbase + npages * PAGE_SIZE) contains the address; none exactly when no region does |
| Vm.FindRegion | asst3-master/kern/vm/vm.c:110-124 | the region loop finds FirstContaining |
| Vm.VmCreateL1Pte | asst3-master/kern/vm/vm.c:16-33 | from an absent slot: ENOMEM with the table, heap and pool unchanged; or the slot holds a new all-zero table added to the heap, on a frame that leaves the pool and is recorded as the block's frame; no other slot changes |
| Vm.VmCreateL2Pte | asst3-master/kern/vm/vm.c:36-48 | from a zero entry: ENOMEM with the table unchanged, or exactly that entry becomes nonzero with the given dirty bit, the valid bit, and a frame taken from the pool |
| Vm.InstallChangesOneEntry | asst3-master/kern/vm/vm.c:45 | storing one entry changes that entry and no other |
| Vm.ZeroRowChangesNoEntry | asst3-master/kern/vm/vm.c:22-30 | filling an absent slot with a zeroed table changes no entry and no mapped frame |
| Vm.FaultEntryPerPage | asst3-master/kern/vm/vm.c:92-109 | all addresses of a page consult the same entry, so a second fault on a mapped page finds it nonzero |
| Vm.MapZeroEntry | asst3-master/kern/vm/vm.c:108-142 | for a zero entry in a present slot: EFAULT exactly when no region contains the address, ENOMEM otherwise on failure, both with table and pool unchanged; or the entry gets the first containing region's dirty bit, the valid bit and a frame taken from the pool, and no other entry changes |
| Vm.MapFaultPage | asst3-master/kern/vm/vm.c:92-142 | a nonzero entry leaves the table, pool and heap unchanged; an absent slot whose table cannot be allocated gives ENOMEM; a zero entry with no region containing the address gives EFAULT whether or not the slot was present; ENOMEM needs a containing region, or an absent slot whose table could not be allocated; on success after a miss the first containing region's dirty bit goes into a new entry with a frame from the pool, the pool also losing the new table's frame if one was made, and no other entry changes; any error leaves entries and the pool as they were, possibly with a dangling zeroed slot whose frame is free again |
| Vm.VmFault | asst3-master/kern/vm/vm.c:60-153 | READONLY gives EFAULT, an unknown kind EINVAL, no process or address space EFAULT, all without change; success loads (faultaddress & PAGE_FRAME, the nonzero entry) into one TLB slot; an error leaves the TLB and the pool as they were |
| FileTables.Vfs.Close | asst2-master/kern/syscall/file.c:233 | vfs_close is recorded, in call order |
| FileTables.OpenFile.constructor | asst2-master/kern/syscall/file.c:329-333 | the record open_file fills in: the vnode, offset 0, the mode flag, reference count 1 |
| FileTables.LowestFree | asst2-master/kern/syscall/file.c:364-373 | the lowest empty slot: it is empty and every earlier slot is full; none exactly when every slot is full |
| FileTables.LowestFreeAfterFill | asst2-master/kern/syscall/file.c:364-373 | after filling the lowest empty slot, the next one handed out is higher |
| FileTables.CountUpdate | asst2-master/kern/syscall/file.c:283-286 | storing a record in a slot moves one reference from the old occupant to the new one |
| FileTables.CountAbsent | asst2-master/kern/syscall/file.c:344 | a record no slot points at has no references |
| FileTables.CountPresent | asst2-master/kern/syscall/file.c:226-227 | a record held in some slot has at least one reference |
| FileTables.MatchedRefcountPositive | asst2-master/kern/syscall/file.c:226-227 | when reference counts match the slots, an open slot's record has a positive count, as sys_close and sys_dup2 assert |
| FileTables.CountSuffix | asst2-master/kern/syscall/file.c:448-452 | the references from slot i on are slot i's plus those after it |
| FileTables.InsertFile | asst2-master/kern/syscall/file.c:364-373 | the file goes into LowestFree and that index is returned; with no empty slot, EMFILE and the table unchanged |
| FileTables.SearchFiletable | asst2-master/kern/syscall/file.c:431-441 | the slot's record exactly when fd is in [0, OPEN_MAX) and the slot is not NULL, otherwise EBADF; nothing changes |
| FileTables.SysRead | asst2-master/kern/syscall/file.c:38-89 | EBADF for an empty slot or a mode other than O_RDONLY/O_RDWR; VOP_READ's error; or buflen less the residue; the offset never changes |
| FileTables.SysWrite | asst2-master/kern/syscall/file.c:92-135 | EBADF from search_filetable or for O_RDONLY; VOP_WRITE's error with the offset unchanged; or size less the residue, with the offset advanced by exactly size |
| FileTables.SysLseek | asst2-master/kern/syscall/file.c:139-208 | EBADF for an empty slot, ESPIPE if not seekable; SEEK_SET moves to pos, SEEK_CUR to the old offset plus pos, SEEK_END to the size plus pos or gives VOP_STAT's error, any other whence gives EINVAL; a negative target gives EINVAL; a new offset is returned and every error keeps the old one |
| FileTables.SeekSetThenTell | asst2-master/kern/syscall/file.c:166-201 | a SEEK_SET to p followed by a SEEK_CUR of 0 reports p, and a further SEEK_CUR by d lands on p + d or fails with EINVAL when p + d is negative |
| FileTables.SysClose | asst2-master/kern/syscall/file.c:211-245 | EBADF for an empty slot; otherwise the slot is emptied, the count drops by one, and the vnode is closed and the record freed exactly when it reaches 0; matching reference counts are preserved |
| FileTables.SysDup2 | asst2-master/kern/syscall/file.c:250-294 | EBADF for a range error or empty oldfd; oldfd == newfd returns oldfd unchanged; otherwise a record in newfd is closed, newfd shares oldfd's record whose count rises by one, newfd is returned, and matching reference counts are preserved |
| FileTables.OpenFileOp | asst2-master/kern/syscall/file.c:300-357 | on success a fresh record (offset 0, count 1, mode flag) is in the slot insert_file chooses; on ENOMEM, vfs_open's error or EMFILE the table and heap are as before; a failed name kmalloc gives ENOMEM before vfs_open, a failed vfs_open its own error with nothing closed, and every later failure closes the opened vnode exactly once; a full table never succeeds; matching reference counts are preserved |
| FileTables.EmptyFiletable | asst2-master/kern/syscall/file.c:387-389 | a new table with every slot NULL |
| FileTables.NewFiletable | asst2-master/kern/syscall/file.c:383-399 | a new table whose slots 0-2 hold three distinct new records and whose other slots are NULL; the table and the records are added to the heap |
| FileTables.InitializeFiletable | asst2-master/kern/syscall/file.c:380-429 | ENOMEM with no table, or a new table with records in slots 0-2; stdin, stdout and stderr get vnode, mode and offset 0 in order until a vfs_open fails, which gives EINVAL; reference counts are never set |
| FileTables.CloseSlotOf | asst2-master/kern/syscall/file.c:449-452 | when slot i of ft is open, slot i of the current table is closed; the counts of later slots keep covering their references |
| FileTables.DestroyFiletable | asst2-master/kern/syscall/file.c:444-458 | every slot of the current table whose index is open in ft is emptied, the others are kept, and ft leaves the heap |

## Left out

- Region list nodes are values in a `seq<Region>`. Their `kmalloc`/`kfree` in as_define_region, as_copy and as_destroy is a failure choice only, and the heap does not track them.
- Locks (`lock_create`, `lock_acquire`, `lock_release`, `lock_destroy`) and interrupt masking (`splhigh`/`splx`) are left out. Each operation is one atomic step; a failing `lock_create` is a failure choice.
- VFS and user memory are left out: `vfs_open`, `VOP_READ`, `VOP_WRITE`, `VOP_STAT` and `VOP_ISSEEKABLE` are parameters holding their results. `vfs_close` is only logged. `copyin`, `copyinstr`, `copyout` and `uio_kinit` move no bytes here, and the kernel buffers of sys_read, sys_write and open_file are not tracked.
- sys_open's own code is not modelled: it copies the path in with `copyinstr` and returns its error (asst2-master/kern/syscall/file.c:28-32) before calling open_file, and that failure return is left out with user memory. `OpenFileOp` models open_file.
- `curthread`, `curproc` and `proc_getas()` are parameters: the table, the `hasProc` flag and the address space passed in.
- vm_bootstrap is empty and vm_tlbshootdown only panics, so neither is modelled.
- `tlb_random` writes a slot the hardware chooses, so the model promises only that exactly one slot changes.
- `PAGE_SIZE`, the TLB bits, `NUM_TLB`, `USERSTACK`, `OPEN_MAX`, `VM_FAULT_*`, `O_*` and `SEEK_*` are OS/161's values. `PAGE_TABLE_SIZE` and `USERSTACKSIZE` are this code's own definitions, and the model takes them from how the code uses them. `PAGE_TABLE_SIZE` is 1024, from the 10-bit index split at asst3-master/kern/vm/vm.c:92-95. `USERSTACKSIZE` is 16 pages, as asst3-master/kern/vm/addrspace.c:350 says. The headers that define these constants are not part of this model.
- `off_t` offsets are unbounded integers, so 64-bit overflow is not modelled.
- SysRead: returns `buflen - resid` as an unbounded integer, so truncation to a C `int` is not modelled. It requires the residue to be at most buflen.
- SysWrite: returns `size - resid` as an unbounded integer, so truncation to a C `int` is not modelled. It requires the residue to be at most size.
- SysRead, SysLseek and SysClose require `0 <= fd < OPEN_MAX`, because the source indexes `files[fd]` before its range check.
- SysClose requires the closed record's reference count to be positive, which the source asserts. SysDup2 requires it of newfd's record only when both descriptors are in range, different and open, the one case in which it calls sys_close. `MatchedRefcountPositive` shows that a table whose counts match its slots meets this.
- InitializeFiletable: assumes the three `kmalloc` calls for the standard streams succeed; a failure there would be a NULL dereference in the source. The stream records' reference count is left as `kmalloc` returned it; their lock, which lock_create sets, is left out with locks.
- DestroyFiletable: states which slots of the current table are emptied and that ft leaves the heap. It does not state which records are freed or how their reference counts change; `SysClose` states that for each slot.
- DestroyFiletable requires that every slot open in ft is open in the current table. destroy_filetable closes slot i through sys_close, which works on the current thread's table, and the `KASSERT(sys_close(...) == 0)` at asst2-master/kern/syscall/file.c:451 holds only when that slot is open there.
- DestroyFiletable also requires reference counts that cover the current table's references. This protects `KASSERT(file->f_refcount > 0)` at asst2-master/kern/syscall/file.c:227, and it rules out a close that reaches a record an earlier close already freed.
- AsCopy: requires that the source's frames are not in the free pool. `AsCreate` establishes this (no entries), `VmFault` keeps it, and a successful `AsCopy` gives it to the copy (`Frames(n.PT) !! ram.free`). A failed `AsCopy` does not: as_destroy of the partial copy can free frames that garbage entries appear to name (see below).
- AsCopy: on failure it promises only that every frame that was free is free again or under one of the partial copy's second-level tables. It no longer promises that no free frame is lost, which the source does not keep: as_destroy leaks those tables' frames.
- MapFaultPage: on success after a miss, it states the frame of a newly allocated second-level table but not the heap growth. The page-table effect is stated through the entries.
- VmFault: does not state the heap effect of a successful fault. `MapFaultPage` states the page-table side.
- The kfree of the page-sized top-level table in as_destroy is modelled as returning its frame to the page allocator: in OS/161, kfree of a page-sized block calls free_kpages.
- KmallocTable: a second-level table's contents live in its array, not in `mem` at its frame. When a failed fault frees a new table while its slot still points at it, the model returns the frame to the pool, but a later reuse of that frame does not show through the dangling slot.

## Behaviour kept as the code has it

The model reproduces these behaviours of the code rather than correcting them.

- **Dangling slot after a failed fault.**
  - If vm_fault created a second-level table and then fails (EFAULT for no region, or ENOMEM from vm_create_l2_pte), it calls `kfree` on the table but leaves `page_table[pt1]` pointing at it (asst3-master/kern/vm/vm.c:128-129, 137-138).
  - `MapFaultPage`'s error contract therefore allows a slot that is present, all zero and no longer in the heap, whose frame is back in the pool.
- **as_destroy never frees the second-level tables** (asst3-master/kern/vm/addrspace.c:188-201).
  - `AsDestroy` removes only the struct from the heap, and the frames under the tables never return to the pool.
- **Garbage entries after a failed as_copy.**
  - The second-level table from kmalloc (asst3-master/kern/vm/addrspace.c:134) is not zeroed.
  - When a frame allocation fails partway (asst3-master/kern/vm/addrspace.c:144-147), later entries hold whatever kmalloc returned, and as_destroy frees the frames they appear to name.
  - `KmallocTable` leaves the contents unspecified, so `AsCopy` cannot promise on failure that the pool comes back exactly: as_destroy may add frames the garbage names, and it loses the tables' frames.
- **A zero-page region.**
  - With `memsize == 0` and an aligned `vaddr`, as_define_region records a region of zero pages (`ZeroPageRegion`).
- **Index source.**
  - vm_fault indexes the table with `KVADDR_TO_PADDR(faultaddress)`, not the address itself (asst3-master/kern/vm/vm.c:94).
  - `KVADDR_TO_PADDR` wraps modulo 2^32; `SameEntryIffSamePage` shows that the mapping is still one entry per page.
- **`w` is stored as given.** Any non-zero `writeable` makes the page dirty-capable; as_prepare_load stores 1.
- **sys_read never advances the offset, and sys_write advances it by `size`** rather than by the bytes written (asst2-master/kern/syscall/file.c:127, 132).
- **The standard streams' reference counts are never set** by initialize_filetable (asst2-master/kern/syscall/file.c:397-426).
- **destroy_filetable closes descriptors of the current thread's table** (through sys_close), not of the table it was given, and then frees the given table (asst2-master/kern/syscall/file.c:448-456).
