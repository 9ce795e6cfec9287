# osdev kernel core, modelled in Dafny

This project models the core of a small 32-bit x86 hobby kernel. There are two
generations of it, an older kernel at the top of the repository and a newer one
under `kernel/`. The model covers these parts:

- **Physical frame bitmap** (`kernel/pmm.c`, and the identical `pmm.c`). There is
  one bit per 4 KiB frame, and a set bit means the frame is free. The allocator
  scans for the lowest free frame, byte by byte and then bit by bit.
- **Newer virtual memory manager** (`kernel/vmm.c`). It uses a two-level x86 page
  directory whose page tables are reached through a self-mapped window at
  `0xFFC00000`. It provides translation, flags lookup, map, unmap,
  change-permission and the user-pointer checks. It also keeps `vm_map`, a sorted
  directory of address-space regions that supports placement with a hint and a
  best-fit retry, removal, and containment search. Finally it has the page-fault
  handler, which backs a faulting page with a fresh frame that is zero-filled or
  read from a file.
- **Older virtual memory manager** (`vmm.c`). Its window sits at `0xB0000000`. It
  has map and unmap, and the kernel break `get_kbrk` / `set_kbrk`, which grows by
  mapping pages and shrinks by unmapping them and freeing their frames.
- **Byte and search utilities** (`kernel/stdlib.c`, `stdlib.c`): `memcpy`, `memset`
  with the page checks of the newer kernel, `bsearch_s` and `min`.
- **Block devices** (`bdev.c`): the table of eight block devices, with registration
  and dispatch of reads and writes.
- **Partitions** (`kernel/mbr.c`): the MBR partition scanner and the partition
  devices it registers.
- **FAT** (`fat.c`): validation of a FAT16/FAT32 boot sector and listing of the
  root directory.
- **Console and boot code** (`kernel/kernel.c`, `kernel.c`): `kprintf`, `itoa` and
  the VGA text console `put`. The newer kernel's `kmain` also has the ELF
  identification check and loads the PT_LOAD segments into `vm_map`.
- **Descriptor tables and interrupts** (`gdt.c`, `kernel/interrupt.c`,
  `interrupt.c`): the GDT and IDT gate encoders, the interrupt dispatcher, the
  handler registry with its PIC mask updates, and the 8259 end-of-interrupt rules.

Code that transforms values is modelled as functions on datatypes and sequences.
Code that updates globals in place is modelled as classes:

- bitmap: `FrameBitmap.Bitmap`
- directory and window: `PageTables.AddressSpace`, `OldPaging.KernelSpace`
- `vm_map`: `Regions.RegionMap`
- device table: `BlockDevices.Registry`
- screen: `Terminal.Console`
- descriptor tables: `Gdt.GlobalDescriptorTable`, `Interrupts.InterruptController`,
  `OldInterrupts.OldInterruptController`

Each such class has fields, `modifies` frames, and methods whose loops carry
invariants. A method states its new state outright. Where one update is easy to
write down, the method ties the new state to a function of the old one; for
example `OldPaging.KernelSpace.AllocRange` ends in `OldPaging.AllocRangeSpec` of
the state it started in. Where the update is spread over the page tables, the
bitmap and the frames' bytes (`ram`, which leaves out the page tables' own
words), a predicate relates the old state to the new one, as
`FaultHandler.Resolves` does for the page-fault handler. The properties the
kernel relies on are proved as lemmas about those functions and predicates.

32-bit arithmetic is modelled explicitly. `Words.Wrap` stands for `uint32_t`
wrap-around. Page tables are `u32` words.

Disk reads, file reads and the system-call result are parameters of the
operations that use them:

- a sector read is a `map` from sector numbers to 512-byte sectors;
- a file read is a function from (file, position, count) to bytes;
- the system-call result is an integer.

Printing is outside the model, except where `kprintf` and `put` are themselves
the subject.

## Model

| member | source | states |
|---|---|---|
| FrameBitmap.WithUsedExact | kernel/pmm.c:17-23 | marking frame f used makes f not free and leaves every other frame's status as it was |
| FrameBitmap.WithFreeExact | kernel/pmm.c:25-31 | marking frame f free makes f free and leaves every other frame's status as it was |
| FrameBitmap.FreeSetWithUsed | pmm.c:15-21 | the set of free frames loses exactly f when f is marked used |
| FrameBitmap.FreeSetWithFree | pmm.c:23-29 | the set of free frames gains exactly f when f is marked free |
| FrameBitmap.FirstFree | kernel/pmm.c:41-54 | the scan's answer from `from` is free, and no frame between `from` and it is free; the answer is one past the last frame when none is free |
| FrameBitmap.FirstFreeUnique | pmm.c:39-52 | any free frame with no free frame below it is the scan's answer: the allocator returns the lowest free frame |
| FrameBitmap.ByteAndBit | kernel/pmm.c:45-48 | frame `8 * index + j` is bit j of byte index, so the byte-then-bit scan visits frames in increasing order |
| FrameBitmap.FirstFreeNone | kernel/pmm.c:41-54 | with no free frame the scan runs to the end of the bitmap |
| FrameBitmap.FreePageAddress | kernel/pmm.c:41-54 | the reported address is page-aligned and, when non-zero, is the lowest free frame times 4096 and lies inside the memory the bitmap covers |
| FrameBitmap.NextFreeAfterUse | kernel/pmm.c:17-54 | after the reported frame is marked used, the next scan reports a strictly higher frame, so one frame is never handed out twice |
| FrameBitmap.SamePageSameFrame | kernel/pmm.c:33-39 | two addresses in one 4 KiB page name the same frame, so they share a status |
| FrameBitmap.Bitmap.constructor | kernel/pmm.c:5-8 | the zero-initialised bitmap has no free frame |
| FrameBitmap.Bitmap.Clear | kernel/pmm.c:13-15 | after `bitmap_clear` every frame is used |
| FrameBitmap.Bitmap.MarkUsed | kernel/pmm.c:17-23 | clears exactly the bit of p's frame; the free set loses that frame |
| FrameBitmap.Bitmap.MarkFree | kernel/pmm.c:25-31 | sets exactly the bit of p's frame; the free set gains that frame |
| FrameBitmap.Bitmap.Status | kernel/pmm.c:33-39 | 1 exactly when p's frame is used, 0 exactly when it is free |
| FrameBitmap.Bitmap.FindFreePage | kernel/pmm.c:41-54 | returns the address of the lowest free frame, or 0 when there is none, without changing the bitmap |
| StdLib.CopiedFaithful | stdlib.c:3-10 | the ascending copy writes only the destination range, and when the destination does not start inside the source the destination ends up with the old source bytes |
| StdLib.Copy | stdlib.c:3-10 | the array after the copy loop is the copy specification applied to the old array |
| StdLib.Filled | stdlib.c:13-19 | after a fill, every cell in the range holds the value and every other cell is unchanged |
| StdLib.Fill | stdlib.c:13-19 | the array after the fill loop is the fill specification applied to the old array |
| StdLib.LowByte | kernel/stdlib.c:22-33 | the byte stored is the value of chr modulo 256, negative values included |
| StdLib.Memcpy | kernel/stdlib.c:7-19 | when the guard is on and a page check fails, returns 0 and writes nothing; otherwise copies `size` bytes ascending and returns dst |
| StdLib.Memset | kernel/stdlib.c:22-33 | when the guard is on and the page check fails, returns 0 and writes nothing; otherwise fills `size` bytes with the low byte of chr and returns dst |
| StdLib.BSearch | kernel/stdlib.c:36-56 | a found index holds an element equal to the key; on ordered input, not found means no element equals the key |
| StdLib.BSearchAsWritten | stdlib.c:22-42 | with the unsigned bounds as written, an empty array, or a key below every element, ends in a read past the array |
| StdLib.Min | stdlib.c:44-49 | the result is one of the two arguments and no larger than either |
| PageTables.PdIndex | kernel/vmm.c:16 | the directory index is below 1024 |
| PageTables.PtIndex | kernel/vmm.c:17 | the table index is below 1024 |
| PageTables.LeafIndex | kernel/vmm.c:53-75 | an address's leaf is entry PtIndex of table PdIndex in the window |
| PageTables.Window | kernel/vmm.c:15 | the window page of table i lies in directory slot 1023 at table index i, page-aligned |
| PageTables.WindowLeaf | kernel/vmm.c:15 | the entry mapping table i's window page is entry i of table 1023 |
| PageTables.LeafEntry | kernel/vmm.c:134 | the leaf written is present, names phys's page, and carries the low 12 bits of flags with PRESENT set |
| PageTables.LinkEntry | kernel/vmm.c:109-126 | a new directory entry is present and read-write, names the new frame, and is user-accessible exactly when the leaf flags are |
| PageTables.AlignedPlus | kernel/vmm.c:53-75 | adding an in-page offset to a page base keeps the page and yields that offset as the low bits |
| PageTables.FlagsOf | kernel/vmm.c:77-99 | the flags are below 4096 and odd exactly when both the directory slot and the leaf are present |
| PageTables.Installed | kernel/vmm.c:109-126 | installing a table leaves the window the same size |
| PageTables.InstallKeepsCoherent | kernel/vmm.c:109-126 | linking a new table in an absent slot keeps every directory slot in step with its window entry |
| PageTables.LeafKeepsCoherent | kernel/vmm.c:134 | writing a leaf outside the window's own table keeps directory and window in step |
| PageTables.MappedTranslates | kernel/vmm.c:53-99 | after a leaf is written under a present slot, every address of that page translates to the leaf's frame plus its offset, with the leaf's flags |
| PageTables.PageBaseIsLeaf | kernel/vmm.c:16-18 | the start of an address's page is its leaf index times 4096 |
| PageTables.ScanTableEmpty | kernel/vmm.c:170-183 | the scan reports empty exactly when all 1024 entries of the table are zero |
| PageTables.AddressSpace.constructor | kernel/vmm.c:187-219 | a valid address space where only the window is mounted and no slot below 1023 is present |
| PageTables.AddressSpace.GetPhysaddr | kernel/vmm.c:53-75 | 0 when the slot or the leaf is absent; otherwise the leaf's frame with the address's in-page offset |
| PageTables.AddressSpace.GetFlags | kernel/vmm.c:77-99 | 0 when the slot or the leaf is absent; otherwise the leaf's low 12 bits, which are odd |
| PageTables.AddressSpace.MapPage | kernel/vmm.c:101-137 | returns 2 and changes nothing when the leaf is present; returns 1 and changes nothing when a table is needed and no frame is free; otherwise uses the lowest free frame for the table if needed, returns 0, and every address of the page then translates to phys with the given flags |
| PageTables.MapOutcome | kernel/vmm.c:101-137 | map_page returns 2 exactly when v's slot and leaf are both present, 1 exactly when the slot is absent and no frame is free for a table, and 0 otherwise |
| PageTables.LeafKeepsOthers | kernel/vmm.c:131-136 | writing v's leaf leaves every address on another page translating to the same frame with the same flags |
| PageTables.InstallKeepsOthers | kernel/vmm.c:107-136 | installing a table for v's absent slot and writing v's leaf leaves every address outside the window and off v's page translating as before |
| PageTables.AddressSpace.MapIntoNewTable | kernel/vmm.c:109-134 | the absent-slot branch: fails with 1 when no frame is free, otherwise links the lowest free frame as the table and writes the leaf |
| PageTables.AddressSpace.WriteLeaf | kernel/vmm.c:134 | writes exactly v's leaf, after which v's page translates to phys with the given flags |
| PageTables.AddressSpace.InstallTable | kernel/vmm.c:109-126 | succeeds exactly when a frame is free; marks the lowest free frame used, links it in the slot and zero-fills the new table |
| PageTables.AddressSpace.MapChangePermission | kernel/vmm.c:139-160 | 0 with nothing changed for an absent slot; 2 with nothing changed for an absent leaf; otherwise keeps the frame, installs the new flags and returns 0; no translation changes |
| PageTables.AddressSpace.UnmapPage | kernel/vmm.c:163-184 | zeroes v's leaf; when its table is then empty, also clears the slot and the table's window entry; v no longer translates |
| PageTables.AddressSpace.CheckRange | kernel/vmm.c:391-419 | returns 0 exactly when every page start probed from ptr below the 32-bit end passes the check; a range whose end wraps is accepted unchecked |
| PageTables.AddressSpace.CheckRangeNoWrap | kernel/vmm.c:391-419 | a range passing 2^32 is rejected; any other range is accepted exactly when every probed page passes the check |
| PageTables.ProbeStep | kernel/vmm.c:391-399 | the probes advance one page at a time, with no probe between two consecutive ones |
| Regions.Compare | kernel/vmm.c:34-44 | the comparison is 0 exactly when the key lies in [base, base + size) |
| Regions.OrderedSortedFor | kernel/vmm.c:34-44 | ordered regions are sorted for every key, as bsearch_s requires |
| Regions.OrderedContainsOnce | kernel/vmm.c:34-44 | in an ordered directory at most one region contains an address |
| Regions.StartIsContainer | kernel/vmm.c:292-301 | the region found by search is the only non-empty region starting at that base |
| Regions.FirstFitFrom | kernel/vmm.c:252-258 | the first index where the hint test passes, with no earlier passing index; None when none passes |
| Regions.BestUpToBelow | kernel/vmm.c:276-283 | the best-fit leftover is at most that of every qualifying gap |
| Regions.BestUpToStable | kernel/vmm.c:276-283 | a best-fit fold started at or below every leftover keeps its start |
| Regions.RetryRepeats | kernel/vmm.c:286-287 | every pass after the first retries with the same hint |
| Regions.BestIsEarliestLeast | kernel/vmm.c:276-283 | the chosen gap qualifies, leaves the least space, and is the earliest among those leaving that least |
| Regions.Insert | kernel/vmm.c:259-273 | inserting at i puts e at i and shifts the entries from i up by one |
| Regions.InsertKeepsOrdered | kernel/vmm.c:252-273 | placing a region where the hint test passes keeps the directory ordered, as long as the hint's end does not wrap |
| Regions.WrappedHintBreaksOrder | kernel/vmm.c:252-255 | a hint whose end wraps past 2^32 passes the test at index 0 and breaks the order |
| Regions.RetryFitsWithSlack | kernel/vmm.c:276-287 | when the best gap leaves space over, the retried hint passes the hint test |
| Regions.ExactFitNeverPlaced | kernel/vmm.c:258 | a gap that fits exactly is chosen by best fit but refused by the hint test, so the retry finds no place |
| Regions.InclusiveRetryAlwaysFits | kernel/vmm.c:276-287 | with an inclusive hint test, the best-fit hint always passes at some gap, so the retry ends |
| Regions.SpliceIndexAsWritten | kernel/vmm.c:294 | the index computed is 0 for the first region |
| Regions.SpliceIndexOutOfRange | kernel/vmm.c:294 | for every later region the computed index is far beyond the 1024-entry array |
| Regions.SpliceDown | kernel/vmm.c:315-316 | copying the tail down by one removes exactly the entry at the index |
| Regions.RegionMap.constructor | kernel/vmm.c:213-215 | the directory holds only the sentinel region |
| Regions.RegionMap.Scan | kernel/vmm.c:252-283 | one pass finds the first index where the hint fits, and otherwise yields the best-fit state over all gaps |
| Regions.RegionMap.InsertAt | kernel/vmm.c:259-273 | the directory becomes the old one with e inserted at i and grows by one |
| Regions.RegionMap.ShiftUp | kernel/vmm.c:259-270 | entries from i up move one place up; the rest stay |
| Regions.RegionMap.AddVmEntry | kernel/vmm.c:221-290 | refused flags return 0 with nothing changed; otherwise the region goes at the first place the rounded hint fits, then at the best-fit hint, and if neither fits the call never returns |
| Regions.RegionMap.RmVmEntry | kernel/vmm.c:292-318 | a base no region starts at, or at which only empty regions start (the size-0 region left at base 0, which the search never finds), changes nothing; the non-empty region starting at the base is removed, except that the region at base 0 is kept with size 0 |
| Regions.RegionMap.RemoveAt | kernel/vmm.c:315-316 | the directory loses exactly the entry at the index |
| FaultHandler.FaultFlags | kernel/vmm.c:356-362 | faulted pages are always writable and never pre-marked present, and are user-accessible exactly when the region is a USER region |
| FaultHandler.ReadLength | kernel/vmm.c:374-379 | the read is positive, at most one page, and at most what remains of the region's disk size |
| FaultHandler.PageImage | kernel/vmm.c:373-379 | a page holds the bytes read, then zeros |
| FaultHandler.Contents | kernel/vmm.c:373-379 | a page not backed by the file is all zeros |
| FaultHandler.LoadPage | kernel/vmm.c:373-379 | the frame's 4096 bytes become the page's contents and no other byte of `ram` changes |
| FaultHandler.MapFreshFrame | kernel/vmm.c:348-371 | phys is the lowest free frame, or 0 when none is free, and then nothing changes. Otherwise r is map_page's result for the bitmap with that frame marked used. When r is not 0, only the frame's bit changes. When r is 0, the bitmap also loses the table's frame if the slot was absent, every address of addr's page translates onto phys with the flags, and every other page outside the window translates as before |
| FaultHandler.Resolve | kernel/vmm.c:348-381 | Resolves holds. OutOfMemory exactly when no frame is free, with nothing changed. MapFailed exactly when map_page refuses the page, with only the frame marked used. Otherwise Resolved with the lowest free frame: addr's page translates onto it with the fault flags, the frame holds the region's contents, no other byte of `ram` changes, the bitmap loses exactly that frame (and the new table's frame when one was needed), and every other page outside the window translates as before |
| FaultHandler.HandlePageFault | kernel/vmm.c:320-382 | AlreadyMapped exactly when addr already translates, and NoRegion exactly when no region contains it, both with nothing changed; otherwise the outcome and the new state are the ones Resolves gives for a region that contains addr |
| FaultHandler.ResolvedCase | kernel/vmm.c:366-381 | the map step followed by the load step gives the resolved outcome of Resolves, with every page other than addr's translating as before |
| FaultHandler.ResolvedIsMapped | kernel/vmm.c:348-381 | after a resolved fault addr translates, and the frame it got lies inside the bitmap and is no longer free, so that frame is not handed out again |
| FaultHandler.LoadAndProtect | kernel/vmm.c:373-381 | the frame holds the page's contents and no other byte of `ram` changes; addr's page keeps its frame with the fault flags, and every other page translates as before |
| FaultHandler.FlagsRewritten | kernel/vmm.c:139-161 | map_change_permission on a present leaf keeps the page's frame and gives it `flags | PRESENT`; every other page translates as before |
| OldPaging.MountPage | vmm.c:11-12 | the window page of table i lies in slot 704 at index i |
| OldPaging.TableLink | vmm.c:72 | the directory entry of a new table is present, read-write, kernel-only and names the frame |
| OldPaging.WithinTrans | vmm.c:49-84 | keeping every translation is transitive across successive steps |
| OldPaging.Mounted | vmm.c:71-75 | installing a table leaves the window the same size |
| OldPaging.SameLeaf | vmm.c:13-14 | two addresses share a leaf exactly when they share a page |
| OldPaging.LeafWritten | vmm.c:83 | writing a leaf maps v's page with the leaf's frame and flags and changes no other address |
| OldPaging.LeafCleared | vmm.c:93 | zeroing v's leaf unmaps v's page and changes no other address |
| OldPaging.SlotCleared | vmm.c:102-103 | clearing the slot of an all-zero table changes no translation |
| OldPaging.TableMountedAt | vmm.c:57-76 | what linking table i on frame f does to any one address |
| OldPaging.MountKeepsCoherent | vmm.c:71-75 | installing a table keeps every directory slot in step with its window entry |
| OldPaging.TableMounted | vmm.c:57-76 | installing a table keeps every translation and adds only the table's window page, read-write |
| OldPaging.TableUnmounted | vmm.c:102-104 | tearing down an empty table keeps directory and window in step |
| OldPaging.OutsideKeepsCoherent | vmm.c:83 | writing or clearing a leaf outside the window's own table keeps directory and window in step |
| OldPaging.LeafMapResult | vmm.c:78-83 | map_page under a present slot keeps every translation and maps v's page with the flags |
| OldPaging.InstallMapResult | vmm.c:57-83 | map_page under an absent slot keeps every translation and adds v's page and the new table's window page |
| OldPaging.TopAbsentLeaf | vmm.c:146-150 | the downward scan stops at the highest absent entry in 1..j, or at 0 |
| OldPaging.TopAbsentSlot | vmm.c:139-143 | the downward scan stops at the highest absent slot in 1..p, or at 0 |
| OldPaging.KbrkIndexes | vmm.c:135-152 | the (pdindex, ptindex) pair where get_kbrk's scans stop |
| OldPaging.KbrkAddress | vmm.c:135-159 | the break is `~0` for (1023, 1023), otherwise the page at the indexes where the scan stopped |
| OldPaging.KbrkNone | vmm.c:139-156 | get_kbrk reports no break exactly when slot 1023 or its last page is not mapped |
| OldPaging.KbrkTopHole | vmm.c:139-158 | inside slot 1023 the break is the highest hole: that page is unmapped and every page above it in the slot is mapped |
| OldPaging.TopAbsentLeafReadsTable | vmm.c:145-150 | the entry scan depends only on the table it reads |
| OldPaging.KbrkReadsTopTableOnly | vmm.c:145 | as written, the entry scan reads table 1023 for every slot, so the break depends on no other table |
| OldPaging.NewWithTrans | vmm.c:177-187 | the fact that every added translation is read-write carries across successive steps |
| OldPaging.SamePageMapped | vmm.c:27-47 | addresses of one page translate alike |
| OldPaging.PrevPage | vmm.c:190 | the previous page start, with page 0 wrapping to the last page |
| OldPaging.MappedFromStep | vmm.c:177-187 | mapping the current page extends the mapped range by that page |
| OldPaging.AllocStep | vmm.c:177-187 | one step of the alloc_kbrk walk keeps all translations, adds only read-write ones, and grows the mapped range |
| OldPaging.FreeFrameIsFree | pmm.c:39-52 | the frame bitmap_find_free_page reports, when it reports one, is free |
| OldPaging.AllocRangeExhausted | vmm.c:177-182 | with no free frame alloc_kbrk's loop stops at its first page and changes nothing |
| OldPaging.AllocRangeUnfold | vmm.c:177-187 | one page of the loop followed by the rest of it is the whole loop; the loop ends at the first page that finds no frame |
| OldPaging.MarkTakes | vmm.c:184 | marking a frame used, and nothing else, loses no translation and frees no frame |
| OldPaging.TakesFromTrans | vmm.c:177-187 | two steps that each take only free frames, a different one per new page, together take only free frames, still a different one per new page |
| OldPaging.AllocPageTakes | vmm.c:177-186 | one page of alloc_kbrk keeps the window coherent, loses or changes no translation, frees no frame, and lands every translation it adds on a frame that was free and is now used, a different frame per page |
| OldPaging.LeafTakes | vmm.c:78-83 | a step that adds only v's page, onto the frame it marks used, takes only that free frame |
| OldPaging.InstallAdds | vmm.c:57-83 | installing a table for v's absent slot and writing v's leaf keeps the window coherent and every translation; the only new translations are v's page onto the leaf's frame and the table's window page onto the table's frame |
| OldPaging.InstallTakes | vmm.c:57-83 | the page of alloc_kbrk whose slot is absent takes only free frames: the frame it marks for v and, when one is left, the next free frame for the table |
| OldPaging.InstallBothTakes | vmm.c:57-83 | when a second free frame takes the table, v's page lands on the first frame and the table's window page on the second, both taken from the free ones |
| OldPaging.TwoPagesTake | vmm.c:57-83 | a step that adds translations on at most two pages, each onto its own frame taken from the free ones, takes only free frames, a different one per page |
| OldPaging.MappedFromDone | vmm.c:177-187 | once the walk passes the bound, every address from min up to it translates |
| OldPaging.PhysaddrPage | vmm.c:27-47 | a mapped address translates into the page its leaf names |
| OldPaging.FreeWalkStepAt | vmm.c:193-197 | for any address, freeing m's page moves the downward walk's progress down by one page |
| OldPaging.FreeWalkStart | vmm.c:193 | before the walk nothing is handled |
| OldPaging.FreeWalkStep | vmm.c:193-197 | one step of free_kbrk unmaps m's page, frees its frame and moves the walk down by one page |
| OldPaging.FreeUpStart | vmm.c:193 | before the corrected walk no page is visited |
| OldPaging.VisitedBelow | vmm.c:193 | where the upward walk stands, a page counts as visited exactly when it lies below the current page |
| OldPaging.FreeUpStepAt | vmm.c:194-196 | for any address, freeing the current page moves the corrected walk up by one page |
| OldPaging.FreeUpStep | vmm.c:194-196 | one step of the corrected walk unmaps the page, frees its frame and moves up a page |
| OldPaging.FreeUpDone | vmm.c:193 | when the walk reaches max, the pages visited are those below max |
| OldPaging.FreeKbrkMissesRange | vmm.c:192-198 | the walk as written, from a break at 0x1000 up to 0x3000, unmaps page 0 and leaves page 0x2000 mapped, although 0x2000 lies in the range |
| OldPaging.KernelSpace.constructor | vmm.c:109-133 | only the window's own page translates |
| OldPaging.KernelSpace.GetPhysaddr | vmm.c:27-47 | 0 for an address that does not translate; otherwise the leaf's frame with the in-page offset |
| OldPaging.KernelSpace.MapPage | vmm.c:49-84 | nothing changes when the leaf is present, or when a table is needed and no frame is free; otherwise the lowest free frame becomes the table if needed and v's page maps to phys; no translation is lost; the new state is MapPageSpec of the old one |
| OldPaging.KernelSpace.MapIntoPresentTable | vmm.c:78-83 | writes v's leaf unless it is present; afterwards v translates |
| OldPaging.KernelSpace.MapIntoNewTable | vmm.c:57-83 | does nothing when no frame is free; otherwise installs the table and writes the leaf |
| OldPaging.KernelSpace.InstallTable | vmm.c:57-76 | succeeds exactly when a frame is free; marks the lowest free frame used, links it and zero-fills the table |
| OldPaging.KernelSpace.LinkTable | vmm.c:71-75 | the slot gets a read-write link to the frame and the window gets the zero-filled table |
| OldPaging.KernelSpace.UnmapPage | vmm.c:86-107 | v's page no longer translates, no translation is added, and pages outside the window other than v's keep their translations |
| OldPaging.KernelSpace.GetKbrk | vmm.c:135-159 | returns the break the scan specification defines |
| OldPaging.KernelSpace.AllocPage | vmm.c:177-186 | succeeds exactly when a frame is free; with a free frame it maps v's page onto the lowest one, and otherwise nothing changes. The new state and the flag are AllocPageSpec of the old state, so the frame stays marked used even when v already translates or no frame is left for a table |
| OldPaging.KernelSpace.AllocKbrk | vmm.c:161-188 | no translation is lost or changed, every new one is read-write, and unless the frames run out the whole range below the bound translates. The new state is AllocKbrkSpec of the old one, and every new translation lands on a frame that was free before and is used after, a different frame for each page |
| OldPaging.KernelSpace.AllocRange | vmm.c:177-187 | no translation is lost or changed, every new one is read-write, and unless the frames run out every page in the range translates; with no free frame at the start nothing changes. The new state is AllocRangeSpec of the old one, and every new translation lands on a different frame that was free before and is used after |
| OldPaging.KernelSpace.AllocWalk | vmm.c:177-187 | the loop ends in AllocRangeSpec of the state it started in, at or past hi unless the frames ran out; from its start it took only free frames, added only read-write translations and mapped every page up to where it stopped |
| OldPaging.KernelSpace.AllocNext | vmm.c:178-186 | one round of the loop: the rest of the loop from the old state equals the rest from the new one, the cursor advances one page exactly when a frame was found, and the walk's invariant holds one page further |
| OldPaging.KernelSpace.FreePage | vmm.c:194-196 | m's page is unmapped, the frame it used is freed, and no translation is added |
| OldPaging.KernelSpace.FreeWalkPage | vmm.c:193-197 | one iteration of the downward walk advances its progress by one page |
| OldPaging.KernelSpace.FreeUpPage | vmm.c:194-196 | one iteration of the corrected walk advances its progress by one page |
| OldPaging.KernelSpace.FreeKbrk | vmm.c:192-198 | as written, does nothing when min >= max; otherwise unmaps min's page and every page below it and frees their frames, leaving the pages from min up to max alone |
| OldPaging.KernelSpace.FreeKbrkRange | vmm.c:192-198 | the corrected walk unmaps every page from min up to max and frees their frames, keeping every other page outside the window |
| OldPaging.KernelSpace.SetKbrk | vmm.c:200-211 | an address above the break frees the pages from the break up to it. Any other address maps the pages from it up to the break, read-write, unless the frames run out; the new state is AllocKbrkSpec of the old one, and each new page gets a different frame that was free before and is used after |
| OldPaging.KbrkPointer | vmm.c:154-158 | `~0` for (1023, 1023), otherwise the address with those directory and table indexes |
| BlockDevices.FirstVacant | bdev.c:13-24 | the lowest unreserved slot at or after from; None exactly when all are reserved |
| BlockDevices.Claim | bdev.c:13-27 | registration fills the lowest unreserved slot and leaves every other slot; with none free the table is unchanged |
| BlockDevices.ClaimKeepsReservations | bdev.c:13-27 | registering never releases a slot, and adds a reservation exactly when a slot was free |
| BlockDevices.ReservationsUpdate | bdev.c:15-18 | reserving an unreserved slot adds one reservation |
| BlockDevices.Registry.constructor | bdev.c:3-7 | every slot starts unreserved |
| BlockDevices.Registry.Init | bdev.c:9-11 | after `bdev_init` every slot is unreserved |
| BlockDevices.Registry.Register | bdev.c:13-27 | claims the lowest unreserved slot and returns its index, or returns -1 with the table unchanged |
| BlockDevices.Registry.Access | bdev.c:29-51 | -1 exactly for an unreserved slot, -2 exactly when the driver lacks the routine, otherwise a call of the routine with the device's argument, count and sector |
| Mbr.ForwardAsWritten | kernel/mbr.c:29-47 | rejects exactly when lba or the wrapped `lba + numsect` exceeds the partition size, and forwards to the wrapped sector `lba_start + lba` |
| Mbr.WrappedCountPasses | kernel/mbr.c:29-47 | a request for 2^32 - 1 sectors at sector 1 of a 10-sector partition passes the check of both mbr_partition_read and mbr_partition_write |
| Mbr.ForwardRequest | kernel/mbr.c:29-47 | the corrected check of both mbr_partition_read and mbr_partition_write (the Findings row for kernel/mbr.c:32 and 41): rejects exactly when the request does not fit the partition; a forwarded request stays inside the partition at the same offset |
| Mbr.ForwardAgreesWithoutWrap | kernel/mbr.c:29-47 | the two checks agree whenever the C sum does not wrap |
| Mbr.Chosen | kernel/mbr.c:78-95 | at most one partition per entry scanned |
| Mbr.ChosenEmpty | kernel/mbr.c:78-87 | no partition is chosen exactly when no entry has type 0x0C or 0x0E |
| Mbr.ChosenFromUsable | kernel/mbr.c:88-91 | each chosen partition comes from a usable entry, with its start and size, on the drive scanned |
| Mbr.RegisterAll | kernel/mbr.c:94 | registering keeps the table's size |
| Mbr.RegisterAllKeepsReservations | kernel/mbr.c:94 | registering partitions never alters a reserved slot |
| Mbr.MbrDriver.constructor | kernel/mbr.c:27 | the last disk id starts as 0xdeadbeaf |
| Mbr.MbrDriver.Init | kernel/mbr.c:54-104 | a failed read gives Error; a bad signature or a repeated disk id gives Forward with nothing changed; otherwise the id is kept, the usable partitions are registered in order, and the result is Success exactly when there was one |
| Fat.CeilDiv | fat.c:90 | the rounded-up quotient is the least number of blocks covering the bytes |
| Fat.RootDirSectors | fat.c:90 | the root directory's sectors cover its entries, one fewer would not, and the count is 0 exactly when there is no entry |
| Fat.FatSize | fat.c:94-98 | the 16-bit FAT size unless zero, then the 32-bit one |
| Fat.TotalSectors | fat.c:100-104 | the 16-bit sector count unless zero, then the 32-bit one |
| Fat.DataSectors | fat.c:110 | when the overhead fits the volume, the data sectors are the rest |
| Fat.Classify | fat.c:116-124 | FAT12 below 4085 clusters, FAT16 below 65525, FAT32 otherwise |
| Fat.ClassifyMonotone | fat.c:116-124 | more clusters never give a smaller FAT type |
| Fat.Check | fat.c:90-158 | divide error exactly for a zero sector size or cluster size; accepted volumes are FAT16/32 with the jump opcode and signature, a whole-sector root directory for FAT16, and no root directory for FAT32 |
| Fat.ClusterSector | fat.c:199-201 | cluster 2 is the first data sector, and each cluster number adds SecPerClus while the sum does not wrap |
| Fat.ClusterSectorsAdjacent | fat.c:201 | consecutive clusters start SecPerClus sectors apart |
| Fat.RootDirSector | fat.c:169 | the first root-directory sector follows the reserved sectors and the FATs |
| Fat.ParseEntry | fat.c:59-72 | every entry has an 11-byte name |
| Fat.ParseDirectory | fat.c:170-177 | the sector holds the 16 parsed entries in order |
| Fat.End | fat.c:180-184 | the index of the first end mark, with none before it |
| Fat.ListedBelowMeans | fat.c:186-193 | an entry is listed exactly when it is neither deleted nor a long-name entry, in increasing order |
| Fat.ListedBelowPrefix | fat.c:180-212 | the listing grows by appending |
| Fat.TerminatorAsWritten | fat.c:209 | the byte cleared is at the file size |
| Fat.LargeFileOverrunsBuffer | fat.c:209 | a listed file of 600 bytes clears byte 600 of the 512-byte buffer |
| Fat.Terminator | fat.c:209 | the byte cleared stays inside the buffer and agrees with the code for files shorter than a sector |
| Fat.UntilNul | fat.c:211 | `%s` prints the prefix before the first zero byte |
| Fat.Show | fat.c:195-211 | the content printed is a prefix of the sector, no longer than the terminator |
| Fat.Shows | fat.c:180-212 | one shown item per listed entry |
| Fat.ShowsAppend | fat.c:180-212 | showing one more entry appends what is printed for it |
| Fat.ShowEntry | fat.c:195-211 | one entry is shown with the data of its first cluster |
| Fat.StoppedListing | fat.c:204-207 | a failed read ends the listing, which is then incomplete |
| Fat.FinishedListing | fat.c:180-184 | reaching the end mark or the last entry completes the listing |
| Fat.ListRootDir | fat.c:180-212 | the output is the listed entries in order, each with its data, complete unless a read failed |
| Fat.UntilNulStops | fat.c:209-211 | with byte t zeroed, at most the first t bytes are printed |
| Fat.FatInit | fat.c:78-213 | a failed boot read, a rejected BPB or a failed root read ends early with that outcome; otherwise the root directory is listed |
| Numerals.Digit | kernel/kernel.c:268 | each digit character stands for its own value and is not NUL |
| Numerals.CharsetDigits | kernel/kernel.c:268 | the charset holds the 16 digits in value order |
| Numerals.CString | kernel/kernel.c:256-258 | the C string is the prefix before the first NUL |
| Numerals.FirstNul | kernel/kernel.c:276-280 | the index of the first NUL, with none before it |
| Numerals.Reverse | kernel/kernel.c:282-289 | reversal maps position k to position n - 1 - k |
| Numerals.DigitsLS | kernel/kernel.c:270-274 | no digit for 0, every digit below the base, and none is NUL |
| Numerals.DigitsRoundTrip | kernel/kernel.c:270-274 | reading the digits back gives the number |
| Numerals.LeadingDigit | kernel/kernel.c:270-274 | a non-zero number's most significant digit is not '0' |
| Numerals.PaddedMeans | kernel/kernel.c:229-242 | the printed digits have the larger of the width and the digit count, read back as the number, and carry no leading '0' unless padded |
| Numerals.ZeroPrintsNothing | kernel/kernel.c:270-274 | zero with no width prints nothing |
| Numerals.ItoaResult | kernel/kernel.c:264-290 | the buffer keeps its length |
| Numerals.Itoa | kernel/kernel.c:264-290 | the buffer after itoa is the digits written over its start, with the run up to the first NUL reversed |
| Numerals.WriteDigits | kernel.c:227-230 | the digits overwrite the start of the buffer, least significant first |
| Numerals.FindNul | kernel.c:232-235 | the index found is the first NUL |
| Numerals.ReverseRun | kernel.c:238-245 | the run before the NUL is reversed and the rest stays |
| Numerals.Prefilled | kernel/kernel.c:229-231 | the buffer keeps the size given |
| Numerals.ItoaPads | kernel/kernel.c:229-242 | itoa over the '0'-prefilled buffer leaves the number zero-padded to the width |
| Numerals.PrefilledRun | kernel/kernel.c:276-280 | over a prefilled buffer, the run before the first NUL is the digits and then the '0's past them |
| Terminal.Scrolled | kernel/kernel.c:310-315 | a scroll keeps the screen size |
| Terminal.ScrolledAt | kernel/kernel.c:310-315 | a scroll moves every row up by one and blanks the last row |
| Terminal.ScrolledBy | kernel/kernel.c:309-317 | scrolling n times keeps the screen size |
| Terminal.ScrolledByShifts | kernel/kernel.c:309-317 | scrolling n rows moves row i + n to row i and blanks the last n rows |
| Terminal.Overflow | kernel/kernel.c:309 | the number of scrolls needed to bring a row on screen, 0 for a row already on it |
| Terminal.AfterPut | kernel/kernel.c:294-325 | the console stays sound after a put |
| Terminal.AfterPutMeans | kernel/kernel.c:294-325 | a line feed moves the cursor to column 0 of the next row, a carriage return to column 0, and any other character lands in white on black at the cell after any wrap and scroll, with the rest of the screen scrolled as needed |
| Terminal.AfterPuts | kernel/kernel.c:256-258 | the console stays sound after a run of puts |
| Terminal.AfterPutsConcat | kernel/kernel.c:256-258 | putting two strings in turn is putting their concatenation |
| Terminal.PutAsWritten | kernel.c:251-282 | as written, put scrolls at most once and writes at the cell of the resulting row |
| Terminal.TwoLineFeedsWriteOffScreen | kernel/kernel.c:309-322 | two line feeds on the last row and a character write at byte 4000, just past the 4000-byte screen |
| Terminal.AsWrittenAgrees | kernel/kernel.c:309-322 | where one scroll is enough, the as-written put agrees with the scrolling loop |
| Terminal.Console.State | kernel/kernel.c:294-325 | the console's state is sound |
| Terminal.Console.constructor | kernel.c:57-58 | the console starts at (0, 0) on a cleared screen |
| Terminal.Console.Put | kernel/kernel.c:294-325 | the console after put(c) is the put specification applied to the old console |
| Terminal.Console.ScrollIntoView | kernel/kernel.c:309-317 | scrolls exactly as often as the cursor row needs, keeping the column |
| Terminal.Console.Scroll | kernel/kernel.c:310-315 | the screen after one scroll is the scroll specification applied to the old screen |
| Terminal.Console.ClearLastRow | kernel/kernel.c:311-315 | the last row becomes blank, and nothing above it changes |
| Kprintf.PlainTextUnchanged | kernel/kernel.c:220-222 | a format with no '%' is put exactly as it is |
| Kprintf.TextThenRest | kernel/kernel.c:220-222 | the text before the first '%' is put unchanged ahead of the rest |
| Kprintf.TrailingPercentEnds | kernel/kernel.c:224-227 | a '%' at the end of the format ends the output |
| Kprintf.UnknownConversionSkipped | kernel/kernel.c:250-253 | an unknown conversion puts nothing and takes no argument |
| Kprintf.DigitsBelowPower | kernel/kernel.c:270-274 | a number below base^len has at most len digits |
| Kprintf.DigitsFit | kernel/kernel.c:210 | an unsigned int has at most 10 digits, which fits the 30-byte buffer |
| Kprintf.Emit | kernel/kernel.c:256-258 | the console ends as if the C string had been put character by character |
| Kprintf.LiteralStep | kernel/kernel.c:221-222 | a literal character is put ahead of the rest |
| Kprintf.ConversionStep | kernel/kernel.c:235-254 | a conversion consumes its argument and puts its text ahead of the rest |
| Kprintf.FormatNumber | kernel/kernel.c:229-244 | the buffer holds the number's digits, zero-padded to the width, as a C string |
| Kprintf.Convert | kernel/kernel.c:229-258 | the console ends as if the conversion's text had been put |
| Kprintf.Kprintf | kernel/kernel.c:212-261 | the console ends as if the formatted text had been put character by character |
| Kprintf.Step | kernel/kernel.c:220-259 | one turn of the loop puts a prefix of the formatted text and leaves the rest to be formatted from the next position |
| ElfLoader.SegmentsOfLoads | kernel/kernel.c:180-190 | the segments are exactly the regions of the PT_LOAD headers |
| ElfLoader.InsertAdds | kernel/vmm.c:259-273 | inserting adds exactly the new region |
| ElfLoader.MapSegment | kernel/kernel.c:185 | when add_vm_entry answers the segment's vaddr, the segment was added unchanged; a call that never returns changes nothing |
| ElfLoader.LoadProgram | kernel/kernel.c:159-190 | the ident check is reported; a wrong header size aborts with nothing mapped; a complete load adds exactly the PT_LOAD segments |
| ElfLoader.LoadSegments | kernel/kernel.c:180-190 | the loop adds the PT_LOAD segments in order, up to the first misplaced or hanging one |
| ElfLoader.LoadHeader | kernel/kernel.c:181-189 | one header adds its segment if it is a PT_LOAD |
| ElfLoader.SegmentsStep | kernel/kernel.c:183 | one more header adds its segment exactly when it is a PT_LOAD |
| ElfLoader.LoadedHasEverySegment | kernel/kernel.c:180-190 | after a complete load every PT_LOAD segment is a region, and every earlier region remains |
| Gdt.EncodeMeans | gdt.c:25-33 | the processor reads back the base, the 20-bit limit, the flags and the access byte given |
| Gdt.EncodeOfDecoded | gdt.c:25-33 | every descriptor is the encoding of its own fields |
| Gdt.KernelSegmentsFlat | gdt.c:36-38 | the kernel segments are flat 4 GiB ring-0 code and data |
| Gdt.GlobalDescriptorTable.constructor | gdt.c:22-23 | the table starts zeroed |
| Gdt.GlobalDescriptorTable.SetGate | gdt.c:25-33 | exactly entry num becomes the encoding of the arguments |
| Gdt.GlobalDescriptorTable.Setup | gdt.c:35-44 | the table holds the null, code and data descriptors, with a limit of 23 |
| Idt.TableLimitCoversTable | kernel/interrupt.c:200-201 | the limit covers exactly 256 entries of 8 bytes |
| Idt.GateMeans | kernel/interrupt.c:136-142 | a gate reads back the handler, selector and flags given |
| Idt.GateOfDecoded | interrupt.c:122-128 | every entry with a zero reserved byte is the gate of its own fields |
| Idt.UnmaskedClearsOnlyLine | kernel/interrupt.c:267-281 | unmasking clears exactly the line's bit |
| Interrupts.DispatchCases | kernel/interrupt.c:121-134 | a registered vector below 48 calls its handler; otherwise 128 is a system call; anything else dumps the registers |
| Interrupts.EoiAcknowledgesPicVectors | kernel/interrupt.c:211-221 | the corrected rule acknowledges every PIC vector, the master always and last, and the slave exactly for its own lines |
| Interrupts.LastSlaveLineNeverAcknowledged | kernel/interrupt.c:212 | as written, vector 0x2F gets no end-of-interrupt, and every other vector is handled alike |
| Interrupts.InterruptController.constructor | kernel/interrupt.c:100 | the tables start zeroed |
| Interrupts.InterruptController.SetGate | kernel/interrupt.c:136-142 | exactly gate num is written, with DPL 3 forced |
| Interrupts.InterruptController.Register | kernel/interrupt.c:262-282 | the holder is recorded as present, and the vector's line is unmasked on its PIC |
| Interrupts.InterruptController.SendEoi | kernel/interrupt.c:211-221 | sends the corrected end-of-interrupt sequence |
| Interrupts.InterruptController.Handle | kernel/interrupt.c:121-134 | dispatches as specified, takes the system call's result into eax, and acknowledges the vector |
| Interrupts.InterruptController.Setup | kernel/interrupt.c:147-209 | the registry is cleared, gates 0..47 and 128 are installed, the pointer is set, and every line is masked |
| Interrupts.InterruptController.ClearRegistry | kernel/interrupt.c:148 | every holder is absent |
| Interrupts.InterruptController.InstallGates | kernel/interrupt.c:150-198 | gates 0..47 and 128 are installed, and no other gate changes |
| OldInterrupts.CountdownIsSaturatingSubtraction | interrupt.c:101-107 | the countdown is the start less the timer interrupts, never below zero |
| OldInterrupts.CountdownConcat | interrupt.c:100-120 | two runs of interrupts count down as one |
| OldInterrupts.OldInterruptController.constructor | interrupt.c:98 | the countdown and the tables start at zero |
| OldInterrupts.OldInterruptController.SetGate | interrupt.c:122-128 | exactly gate num is written, with the flags given |
| OldInterrupts.OldInterruptController.SendEoi | interrupt.c:194-204 | every PIC vector is acknowledged, since `> 0x2F` excludes only vectors past the slave's |
| OldInterrupts.OldInterruptController.Handle | interrupt.c:100-120 | the timer counts down without going below zero; the report depends on the vector; the vector is acknowledged |
| OldInterrupts.OldInterruptController.Setup | interrupt.c:133-190 | gates 0..42 and 80 are installed, the pointer is set, and only the timer, keyboard and cascade lines are open |
| OldInterrupts.OldInterruptController.InstallGates | interrupt.c:134-178 | gates 0..42 are interrupt gates, gate 80 can be invoked from user mode, and no other gate changes |
| OldInterrupts.SetupMasksOpenTimerKeyboardCascade | interrupt.c:188-189 | the masks open exactly master lines 0..2 and no slave line |

## Left out

- PIC remapping (`PIC_remap`), `lidt`/`lgdt`, port I/O timing, the TSS gate (`tss.c`), `vmm_init`'s boot-table surgery, `sleep`'s busy wait, the register and bitmap dumps, and all printing are outside the model; printed text is not modelled except where `kprintf` and `put` are the subject.
- Disk and file I/O are parameters. `ide_read_sectors`/`bdev_read` become a map from sector numbers to 512-byte sectors, or an Option for the one read of `mbr_init`. `fat_read` becomes a byte-source function. `fat_open`/`fat_seek` are not modelled, and the ELF headers are given as already-read records.
- The handler call in `interrupt_handler`, the system call itself, and the scancode read are external; the system call's result is a parameter.
- `bdev_register` calls `fat_init` on the new device; the registry model stops at the registration, and `Fat.FatInit` is modelled on its own.
- The user stack set up at the end of the newer `kmain` and the switch to user mode are not modelled.
- The page checks of `memcpy`/`memset` in the newer kernel are given as boolean parameters (`dstRejected`, `srcRejected`) rather than computed from the page tables.
- The frame loop of `rm_vm_entry` only asks the bitmap for a free page and does nothing with it, so removal leaves the region's frames used and its pages mapped; the model has that loop as no step at all.
- `get_kbrk`, as written, names the window table with the table index, so it always scans table 1023 whatever the directory slot; this is modelled as written (`OldPaging.KbrkReadsTopTableOnly`), not corrected.
- Faulted pages always get READ_WRITE, because the flags start at READ_WRITE whatever the region's WRITE bit; this is modelled as written (`FaultHandler.FaultFlags`).
- The cursor globals `xpos`/`ypos` are unbounded naturals; their 32-bit wrap after four billion line feeds is not modelled.
- PageTables.AddressSpace.CheckRange: requires the wrapped end to lie below the last page, so that the page step `p += 4096` cannot itself wrap; a range ending in the last page of the address space is not covered.
- PageTables.AddressSpace.UnmapPage: requires that v is not the window page of the window's own table; unmapping that page tears down the window itself.
- OldPaging.KernelSpace.UnmapPage: requires the same of the older window.
- FaultHandler.HandlePageFault: requires that the faulting address is outside the window slot and that `vm_map` is ordered, which `add_vm_entry` keeps while hints do not wrap (`Regions.InsertKeepsOrdered`); the region search uses the corrected `StdLib.BSearch`.
- FaultHandler.Resolve: requires that the faulting address is outside the window slot.
- Regions.RegionMap.RmVmEntry: requires `vm_map` to be ordered, and models the splice at the index of the region found (`Regions.SpliceIndexAsWritten` records the index as written) and the search with the corrected `StdLib.BSearch`.
- Regions.RegionMap.AddVmEntry: requires a free entry in the 1024-entry `vm_map`; the source never checks the capacity and writes past the array when it is full.
- ElfLoader.LoadProgram: requires room in `vm_map` for every program header, for the same reason.
- Interrupts.InterruptController.Register: requires a vector below 48, the size of the registry; the source indexes the registry without a check.
- Kprintf.Kprintf: requires the arguments to match the conversions, as C varargs must, and the format to hold no NUL before its end. A format that ends in '%' followed by a width digit makes the C loop read past the terminator; the model ends the output there.
- Numerals.Itoa: requires a NUL at or after the last digit, without which the scan for the first NUL runs past the buffer; `kprintf` always provides one.
- Terminal.Console.Put: is the corrected put, which scrolls until the cursor row is on screen; the code as written is `Terminal.PutAsWritten`.
- Interrupts.InterruptController.SendEoi: is the corrected end-of-interrupt, which includes vector 0x2F; the code as written is `Interrupts.EoiAsWritten`.
- OldPaging.KernelSpace.SetKbrk: shrinks through the corrected upward walk `FreeKbrkRange`; the walk as written is `OldPaging.KernelSpace.FreeKbrk`.
- FrameBitmap.Bitmap.MarkUsed: requires an address below 128 MiB, the memory the 4096-byte bitmap covers. kernel/pmm.c:17-23 indexes the bitmap without a bound, so a higher address writes past it; what that write does to neighbouring memory is not modelled.
- FrameBitmap.Bitmap.MarkFree: requires an address below 128 MiB, for the same reason (kernel/pmm.c:25-31).
- FrameBitmap.Bitmap.Status: requires an address below 128 MiB; kernel/pmm.c:33-39 reads past the bitmap for a higher one.
- BlockDevices.Registry.Access: requires a device number below 8, the size of the table. bdev.c:29-51 index the table with any 8-bit number and read past it for 8 to 255; that read is not modelled.
- PageTables.AddressSpace.UnmapPage: for v whose directory slot is absent, the write through the window at kernel/vmm.c:170 page-faults, because that window page is not mapped. The model instead clears the cell of the flat window array and returns; it does not capture that fault.
- OldPaging.KernelSpace.UnmapPage: the same holds for the older kernel at vmm.c:93. There the exception handler returns to the faulting write, so it faults again and again; the model completes instead.
- OldPaging.KernelSpace.FreePage: requires the frame of m's physical address to lie below 128 MiB, as `bitmap_mark_as_free` needs. It also completes when m's slot is absent, where the source faults in unmap_page.
- OldPaging.KernelSpace.FreeKbrk: requires max to be at most the last page 0xFFFFF000, so the walk as written, which wraps past page 0 for a higher max, is not covered; it also requires min below the window's base 0xB0000000 and covered frames for every page below it. The break normally lies above the window, and from there the walk as written would descend through 0xB0000000-0xB03FFFFF. There unmap_page on a window address clears the page tables' own translations; the model keeps the window apart from the pages it maps and does not capture that teardown. Pages under absent slots count as unmapped (`OldPaging.FreeWalk`), where the source faults.
- OldPaging.KernelSpace.FreeKbrkRange: requires a range that does not cross the window 0xB0000000-0xB03FFFFF and covered frames for the pages it visits, for the same reasons as FreeKbrk.
- OldPaging.KernelSpace.AllocKbrk: requires a range that does not cross the window. map_page on a window address writes the page tables' own translations, which the model does not capture.
- OldPaging.KernelSpace.AllocRange: requires a range that does not cross the window, for the same reason; so do `OldPaging.KernelSpace.AllocWalk`, `OldPaging.KernelSpace.AllocNext`, `OldPaging.AllocRangeSpec` and `OldPaging.AllocKbrkSpec`.
- OldPaging.KernelSpace.SetKbrk: requires that neither the growing nor the shrinking range crosses the window, and that the frames freed lie below 128 MiB; set_kbrk itself accepts any address.
- OldPaging.KernelSpace.AllocPage: follows the source in leaving a frame marked used but unmapped when v already translates (vmm.c:78-81) or when no frame is left for v's table (vmm.c:63-66). So the free frames after alloc_kbrk are the old ones less the frames of the new pages and those left behind; `OldPaging.TakesFrom` bounds the first part, and the exact bitmap is `OldPaging.AllocRangeSpec`'s.
- Fat.Show: ends a listed file's content at the terminator clamped to the 512-byte buffer (`Fat.Terminator`). fat.c:209 writes it at DIR_FileSize, which lies past the buffer for a file of 512 bytes or more; the write as written is `Fat.LargeFileOverrunsBuffer`.
- Fat.ShowEntry: shows a file through the same clamped terminator.
- Fat.ListRootDir: lists each file through `Fat.ShowEntry`, so files of 512 bytes or more are shown with the clamped terminator.
- Fat.FatInit: lists the root directory through `Fat.ListRootDir`, with the same clamped terminator.
- Terminal.AfterPut: specifies the corrected put, which scrolls until the cursor row is on screen; the code as written scrolls once (`Terminal.PutAsWritten`).
- Terminal.AfterPutMeans: states the corrected put's meaning.
- Terminal.Console.ScrollIntoView: is the loop of the corrected put, where the source scrolls at most once.
- FaultHandler.Resolve: the words of the page tables are modelled in `pd` and `pt`, not in `ram`. So the zeroing of a new table's frame (kernel/vmm.c:125), the leaf written through the window (kernel/vmm.c:134) and the leaf rewritten by map_change_permission (kernel/vmm.c:157) change `pd`/`pt` only, and "no other byte of `ram` changes" says nothing about the bytes of page-table frames. The same holds for `FaultHandler.Resolves`, `FaultHandler.LoadAndProtect`, `FaultHandler.LoadPage` and `FaultHandler.HandlePageFault`.
- Mbr.ForwardRequest: is the corrected bounds check of both mbr_partition_read (kernel/mbr.c:32) and mbr_partition_write (kernel/mbr.c:41), which sum `lba + numsect` in 32 bits; the check as written, for both routines, is `Mbr.ForwardAsWritten`.
- Interrupts.InterruptController.Handle: acknowledges through the corrected `Interrupts.InterruptController.SendEoi`, so vector 0x2F is acknowledged, which the source does not do.

## Findings

| source | as written | input that shows it | evidently intended | confidence | as-written member | corrected member |
|---|---|---|---|---|---|---|
| kernel/stdlib.c:38-49 | `rigth` is unsigned: `num - 1` and `middle - 1` wrap when num is 0 or when the key sorts below element 0 | an empty array, or any key below the first element | the search ends with "not found" | high (not executed) | StdLib.BSearchAsWritten | StdLib.BSearch |
| kernel/vmm.c:294 | the splice index is `(vm_map - vm) / sizeof(struct vm_entry)`, a negated pointer difference divided as unsigned | removing the region at index 1 gives index 178956970 | the index of the region found | high (not executed) | Regions.SpliceIndexOutOfRange | Regions.RegionMap.RmVmEntry |
| kernel/vmm.c:258 | the hint test needs strictly more room than the size, but best fit accepts a gap that fits exactly | regions at 0x1000 and 0x3000, each 0x1000 long, and a request of 0x1000 with hint 0 | an exact fit is placed | high (not executed) | Regions.ExactFitNeverPlaced | Regions.InclusiveRetryAlwaysFits |
| kernel/vmm.c:252-255 | `hint + size` is computed in 32 bits, so a wrapped end passes the test at index 0 | hint 0xFFFFF000 and size 0x2000 | the region is refused or placed in order | high (not executed) | Regions.WrappedHintBreaksOrder | Regions.InsertKeepsOrdered |
| kernel/vmm.c:391-419 | the end `ptr + len` wraps, so the loop does not run and the range is accepted | ptr 0xFFFFF000 and len 0x2000 | the range is rejected | high (not executed) | PageTables.AddressSpace.CheckRange | PageTables.AddressSpace.CheckRangeNoWrap |
| vmm.c:192-198 | free_kbrk steps down from min while `min < max` | break at 0x1000 and new break 0x3000 | the pages from the break up to the new break are freed | high (not executed) | OldPaging.FreeKbrkMissesRange | OldPaging.KernelSpace.FreeKbrkRange |
| kernel/mbr.c:32 and kernel/mbr.c:41 | in both mbr_partition_read and mbr_partition_write, `lba + numsect` is summed in 32 bits, so a huge count passes the bounds check | numsect 0xFFFFFFFF at lba 1 on a 10-sector partition | the request is refused | high (not executed) | Mbr.WrappedCountPasses | Mbr.ForwardRequest |
| fat.c:209 | the terminator is written at DIR_FileSize, inside a 512-byte buffer | a listed file of 600 bytes | the terminator stays inside the buffer | high (not executed) | Fat.LargeFileOverrunsBuffer | Fat.Terminator |
| kernel/kernel.c:309-317 | put scrolls at most once | two line feeds on the last row, then a character | the screen scrolls until the cursor is on it | high (not executed) | Terminal.TwoLineFeedsWriteOffScreen | Terminal.Console.Put |
| kernel/interrupt.c:212 | the end-of-interrupt test uses `>=` with 0x2F | vector 0x2F, which ata.c:172 registers for the secondary ATA channel | the slave's line 7 is acknowledged like the others | high (not executed) | Interrupts.LastSlaveLineNeverAcknowledged | Interrupts.EoiAcknowledgesPicVectors |
