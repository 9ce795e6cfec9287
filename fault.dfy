/**
 * The demand-paging page-fault handler: a fault inside a region gets a
 * fresh zero-filled frame, filled from the region's file when the region is
 * file-backed, and mapped with the region's permissions.
 *
 * The faulting address (CR2) is a parameter. The file read is an abstract
 * byte source: `fileRead(file, position, count)` yields the bytes a seek to
 * `position` followed by a read of `count` bytes would deliver.
 */
module FaultHandler {
  import opened Words
  import StdLib
  import FrameBitmap
  import PageTables
  import Regions

  /** How a fault ends: one of the halts, or the page resolved onto a frame. */
  datatype Outcome = AlreadyMapped | NoRegion | OutOfMemory | MapFailed | Resolved(frame: u32)

  /**
   * The leaf flags of a faulted page. They start at READ_WRITE, so WRITE
   * adds nothing and every faulted page is writable; USER regions add
   * USER_ACCESS.
   */
  function FaultFlags(regionFlags: u32): (f: u32)
    ensures Has(f, ReadWrite) && !Has(f, Present)
    ensures Has(f, UserAccess) <==> Has(regionFlags, Regions.MapUser)
  {
    if Has(regionFlags, Regions.MapUser) then ReadWrite + UserAccess else ReadWrite
  }

  /** `(addr - base) & ~0xFFF`: the offset of the faulting page inside its region. */
  function PageDelta(addr: u32, base: u32): u32
  {
    PageBase(Wrap(addr - base))
  }

  /** The file is read for this page: the region is file-backed and the page starts below disksize. */
  predicate ReadsFile(e: Regions.Region, addr: u32)
  {
    Has(e.flags, Regions.MapFile) && PageDelta(addr, e.base) < e.disksize
  }

  /** The seek position `offset + (addr - base) & ~0xFFF`, which C groups as `(offset + (addr - base)) & ~0xFFF`. */
  function SeekPosition(e: Regions.Region, addr: u32): u32
  {
    PageBase(Wrap(e.offset + Wrap(addr - e.base)))
  }

  /** The read length `min(PAGE_SIZE, disksize - delta)`. */
  function ReadLength(e: Regions.Region, addr: u32): (n: u32)
    requires ReadsFile(e, addr)
    ensures n <= PageSize && n <= e.disksize - PageDelta(addr, e.base) && n > 0
  {
    StdLib.Min(PageSize, e.disksize - PageDelta(addr, e.base))
  }

  /** The 4096 bytes of a resolved page: the first bytes from the file, zero after them. */
  function PageImage(data: seq<u8>, n: nat): (page: seq<u8>)
    ensures |page| == PageSize
    ensures forall k :: 0 <= k < PageSize ==> page[k] == if k < n && k < |data| then data[k] else 0
  {
    seq(PageSize, k => if 0 <= k < n && k < |data| then data[k] else 0)
  }

  /** The bytes a resolved page of region e holds once the handler is done. */
  function Contents(e: Regions.Region, addr: u32, fileRead: (nat, u32, u32) -> seq<u8>): (page: seq<u8>)
    ensures |page| == PageSize
    ensures !ReadsFile(e, addr) ==> forall k :: 0 <= k < PageSize ==> page[k] == 0
  {
    if ReadsFile(e, addr)
    then PageImage(fileRead(e.file, SeekPosition(e, addr), ReadLength(e, addr)), ReadLength(e, addr))
    else PageImage([], 0)
  }

  /**
   * The memset of the new frame followed by the file read into it. What
   * fat_read leaves in memory is taken to be the first `count` bytes the
   * byte source yields, or all of them when it yields fewer.
   */
  method LoadPage(ram: array<u8>, at: nat, e: Regions.Region, addr: u32, fileRead: (nat, u32, u32) -> seq<u8>)
    requires at + PageSize <= ram.Length
    modifies ram
    ensures ram[at .. at + PageSize] == Contents(e, addr, fileRead)
    ensures forall k :: 0 <= k < ram.Length && !(at <= k < at + PageSize) ==> ram[k] == old(ram[k])
  {
    StdLib.Fill(ram, at, PageSize, 0);
    var data: seq<u8> := [];
    var n: nat := 0;
    if ReadsFile(e, addr) {
      n := ReadLength(e, addr);
      data := fileRead(e.file, SeekPosition(e, addr), n);
    }
    var i := 0;
    while i < n && i < |data|
      invariant 0 <= i <= n && i <= |data|
      invariant forall k :: 0 <= k < ram.Length && !(at <= k < at + PageSize) ==> ram[k] == old(ram[k])
      invariant forall k :: at <= k < at + PageSize ==> ram[k] == if k - at < i then data[k - at] else 0
    {
      ram[at + i] := data[i];
      i := i + 1;
    }
    assert ram[at .. at + PageSize] == PageImage(data, n);
  }

  /**
   * The bitmap once the fault's frame f is taken and map_page has installed
   * v's table when its slot was absent: f marked used, then also the next
   * free frame, which became the table.
   */
  function TakenFrames(bits: seq<bv8>, slotPresent: bool, f: nat): (r: seq<bv8>)
    requires |bits| == FrameBitmap.BitmapBytes && f < FrameBitmap.FrameCount
    ensures |r| == FrameBitmap.BitmapBytes
  {
    var marked := FrameBitmap.WithUsed(bits, f);
    if slotPresent then marked
    else FrameBitmap.WithUsed(marked, FrameBitmap.FrameOf(FrameBitmap.FreePageAddress(marked)))
  }

  /**
   * What the second half of the handler does for a fault at addr inside
   * region e, from the state (pd, pt, bits, ram) to (pd', pt', bits', ram'),
   * with f the lowest free frame:
   * - no frame is free: OutOfMemory, and nothing changes;
   * - map_page refuses addr's page (its leaf is present, or its slot is
   *   absent and no second frame is free for a table): MapFailed, with f
   *   left marked used and nothing else changed;
   * - otherwise Resolved(f): f (and a table's frame, when the slot was
   *   absent) marked used, f's bytes hold the page's contents and no other
   *   byte of ram changes, addr's page translates onto f with the fault
   *   flags, and every other page outside the window translates as before.
   * The words of the page tables live in pd and pt, not in ram, so ram
   * leaves out the writes map_page makes to a table's frame.
   */
  ghost predicate Resolves(pd: seq<u32>, pt: seq<u32>, bits: seq<bv8>, ram: seq<u8>,
                           pd': seq<u32>, pt': seq<u32>, bits': seq<bv8>, ram': seq<u8>,
                           e: Regions.Region, addr: u32, fileRead: (nat, u32, u32) -> seq<u8>, o: Outcome)
    requires |pd| == |pd'| == PageTables.DirEntries && |pt| == |pt'| == PageTables.WindowEntries
    requires |bits| == FrameBitmap.BitmapBytes && |ram| == |ram'| == FrameBitmap.FrameCount * PageSize
  {
    var f := FrameBitmap.FreePageAddress(bits);
    var marked := FrameBitmap.WithUsed(bits, FrameBitmap.FrameOf(f));
    if f == 0 then
      o == OutOfMemory && pd' == pd && pt' == pt && bits' == bits && ram' == ram
    else if PageTables.MapOutcome(pd, pt, marked, addr) != 0 then
      o == MapFailed && pd' == pd && pt' == pt && bits' == marked && ram' == ram
    else
      o == Resolved(f)
      && bits' == TakenFrames(bits, PageTables.IsPresent(pd[PageTables.PdIndex(addr)]), FrameBitmap.FrameOf(f))
      && ram'[f .. f + PageSize] == Contents(e, addr, fileRead)
      && (forall k :: 0 <= k < |ram| && !(f <= k < f + PageSize) ==> ram'[k] == ram[k])
      && (forall w: u32 {:trigger PageTables.Physaddr(pd', pt', w)} {:trigger PageTables.FlagsOf(pd', pt', w)} :: PageBase(w) == PageBase(addr) ==>
            PageTables.Physaddr(pd', pt', w) == f + Low12(w)
            && PageTables.FlagsOf(pd', pt', w) == PresentFlags(FaultFlags(e.flags)))
      && (forall w: u32 {:trigger PageTables.Physaddr(pd', pt', w)} {:trigger PageTables.FlagsOf(pd', pt', w)} :: PageTables.PdIndex(w) != PageTables.WindowSlot && PageBase(w) != PageBase(addr) ==>
            PageTables.Physaddr(pd', pt', w) == PageTables.Physaddr(pd, pt, w)
            && PageTables.FlagsOf(pd', pt', w) == PageTables.FlagsOf(pd, pt, w))
  }

  /** The resolved branch of Resolves, assembled from the map step (to pd1, pt1) and the load step. */
  lemma ResolvedCase(pd: seq<u32>, pt: seq<u32>, bits: seq<bv8>, ram: seq<u8>, pd1: seq<u32>, pt1: seq<u32>,
                     pd': seq<u32>, pt': seq<u32>, bits': seq<bv8>, ram': seq<u8>,
                     e: Regions.Region, addr: u32, fileRead: (nat, u32, u32) -> seq<u8>)
    requires |pd| == |pd1| == |pd'| == PageTables.DirEntries && |pt| == |pt1| == |pt'| == PageTables.WindowEntries
    requires |bits| == FrameBitmap.BitmapBytes && |ram| == |ram'| == FrameBitmap.FrameCount * PageSize
    requires var f := FrameBitmap.FreePageAddress(bits);
      f != 0 && PageTables.MapOutcome(pd, pt, FrameBitmap.WithUsed(bits, FrameBitmap.FrameOf(f)), addr) == 0
      && bits' == TakenFrames(bits, PageTables.IsPresent(pd[PageTables.PdIndex(addr)]), FrameBitmap.FrameOf(f))
      && ram'[f .. f + PageSize] == Contents(e, addr, fileRead)
      && (forall k :: 0 <= k < |ram| && !(f <= k < f + PageSize) ==> ram'[k] == ram[k])
      && (forall w: u32 {:trigger PageTables.Physaddr(pd', pt', w)} {:trigger PageTables.FlagsOf(pd', pt', w)} :: PageBase(w) == PageBase(addr) ==>
            PageTables.Physaddr(pd', pt', w) == f + Low12(w)
            && PageTables.FlagsOf(pd', pt', w) == PresentFlags(FaultFlags(e.flags)))
    requires forall w: u32 {:trigger PageTables.Physaddr(pd1, pt1, w)} {:trigger PageTables.FlagsOf(pd1, pt1, w)} :: PageTables.PdIndex(w) != PageTables.WindowSlot && PageBase(w) != PageBase(addr) ==>
      PageTables.Physaddr(pd1, pt1, w) == PageTables.Physaddr(pd, pt, w)
      && PageTables.FlagsOf(pd1, pt1, w) == PageTables.FlagsOf(pd, pt, w)
    requires forall w: u32 {:trigger PageTables.Physaddr(pd', pt', w)} {:trigger PageTables.FlagsOf(pd', pt', w)} :: PageBase(w) != PageBase(addr) ==>
      PageTables.Physaddr(pd', pt', w) == PageTables.Physaddr(pd1, pt1, w)
      && PageTables.FlagsOf(pd', pt', w) == PageTables.FlagsOf(pd1, pt1, w)
    ensures Resolves(pd, pt, bits, ram, pd', pt', bits', ram', e, addr, fileRead, Resolved(FrameBitmap.FreePageAddress(bits)))
  {
    forall w: u32 | PageTables.PdIndex(w) != PageTables.WindowSlot && PageBase(w) != PageBase(addr)
      ensures PageTables.Physaddr(pd', pt', w) == PageTables.Physaddr(pd, pt, w)
      ensures PageTables.FlagsOf(pd', pt', w) == PageTables.FlagsOf(pd, pt, w)
    {
      assert PageTables.Physaddr(pd1, pt1, w) == PageTables.Physaddr(pd, pt, w);
    }
  }

  /**
   * A resolved fault stays resolved: addr translates, so the same fault
   * would now be reported as already mapped, and the frame it got is no
   * longer free.
   */
  lemma ResolvedIsMapped(pd: seq<u32>, pt: seq<u32>, bits: seq<bv8>, ram: seq<u8>,
                         pd': seq<u32>, pt': seq<u32>, bits': seq<bv8>, ram': seq<u8>,
                         e: Regions.Region, addr: u32, fileRead: (nat, u32, u32) -> seq<u8>, o: Outcome)
    requires |pd| == |pd'| == PageTables.DirEntries && |pt| == |pt'| == PageTables.WindowEntries
    requires |bits| == FrameBitmap.BitmapBytes && |ram| == |ram'| == FrameBitmap.FrameCount * PageSize
    requires Resolves(pd, pt, bits, ram, pd', pt', bits', ram', e, addr, fileRead, o) && o.Resolved?
    ensures PageTables.Physaddr(pd', pt', addr) != 0
    ensures FrameBitmap.FrameOf(o.frame) < FrameBitmap.FrameCount
    ensures !FrameBitmap.IsFree(bits', FrameBitmap.FrameOf(o.frame))
  {
    var f := FrameBitmap.FrameOf(o.frame);
    var marked := FrameBitmap.WithUsed(bits, f);
    FrameBitmap.WithUsedExact(bits, f, f);
    if !PageTables.IsPresent(pd[PageTables.PdIndex(addr)]) {
      var g := FrameBitmap.FrameOf(FrameBitmap.FreePageAddress(marked));
      FrameBitmap.WithUsedExact(marked, g, f);
    }
  }

  /**
   * map_change_permission on a present leaf: v's page keeps its frame and
   * takes `flags | PRESENT`; every other page translates as before.
   */
  lemma FlagsRewritten(pd: seq<u32>, pt: seq<u32>, v: u32, flags: u32)
    requires |pd| == PageTables.DirEntries && |pt| == PageTables.WindowEntries
    requires PageTables.IsPresent(pd[PageTables.PdIndex(v)]) && PageTables.IsPresent(pt[PageTables.LeafIndex(v)])
    ensures var pt' := pt[PageTables.LeafIndex(v) := PageTables.LeafEntry(pt[PageTables.LeafIndex(v)], flags)];
      (forall w: u32 {:trigger PageTables.Physaddr(pd, pt', w)} {:trigger PageTables.FlagsOf(pd, pt', w)} :: PageBase(w) == PageBase(v) ==>
         PageTables.Physaddr(pd, pt', w) == PageTables.Physaddr(pd, pt, w)
         && PageTables.FlagsOf(pd, pt', w) == PresentFlags(flags))
      && (forall w: u32 {:trigger PageTables.Physaddr(pd, pt', w)} {:trigger PageTables.FlagsOf(pd, pt', w)} :: PageBase(w) != PageBase(v) ==>
         PageTables.Physaddr(pd, pt', w) == PageTables.Physaddr(pd, pt, w)
         && PageTables.FlagsOf(pd, pt', w) == PageTables.FlagsOf(pd, pt, w))
  {
    var leaf := PageTables.LeafIndex(v);
    var entry := PageTables.LeafEntry(pt[leaf], flags);
    forall w: u32 | PageBase(w) == PageBase(v)
      ensures PageTables.Physaddr(pd, pt[leaf := entry], w) == PageTables.Physaddr(pd, pt, w)
      ensures PageTables.FlagsOf(pd, pt[leaf := entry], w) == PresentFlags(flags)
    {
      PageTables.MappedTranslates(pd, pt, v, w, entry);
      PageTables.MappedTranslates(pd, pt, v, w, pt[leaf]);
      assert pt[leaf := pt[leaf]] == pt;
    }
    forall w: u32 | PageBase(w) != PageBase(v)
      ensures PageTables.Physaddr(pd, pt[leaf := entry], w) == PageTables.Physaddr(pd, pt, w)
      ensures PageTables.FlagsOf(pd, pt[leaf := entry], w) == PageTables.FlagsOf(pd, pt, w)
    {
      PageTables.LeafKeepsOthers(pd, pt, v, entry, w);
    }
  }

  /**
   * Takes the lowest free frame, marks it used and maps addr's page onto it
   * with `flags`. phys is 0 when no frame is free, and then nothing changes;
   * r is map_page's result, and the bitmap, the directory and the window
   * end as map_page leaves them.
   */
  method MapFreshFrame(space: PageTables.AddressSpace, addr: u32, flags: u32) returns (phys: u32, r: int)
    requires space.Valid()
    requires PageTables.PdIndex(addr) != PageTables.WindowSlot
    modifies space.pd, space.pt, space.frames.bits
    ensures space.Valid()
    ensures phys == old(FrameBitmap.FreePageAddress(space.frames.bits[..]))
    ensures phys == 0 ==>
      space.pd[..] == old(space.pd[..]) && space.pt[..] == old(space.pt[..])
      && space.frames.bits[..] == old(space.frames.bits[..])
    ensures phys != 0 ==>
      r == PageTables.MapOutcome(old(space.pd[..]), old(space.pt[..]),
                                 FrameBitmap.WithUsed(old(space.frames.bits[..]), FrameBitmap.FrameOf(phys)), addr)
    ensures phys != 0 && r != 0 ==>
      space.pd[..] == old(space.pd[..]) && space.pt[..] == old(space.pt[..])
      && space.frames.bits[..] == FrameBitmap.WithUsed(old(space.frames.bits[..]), FrameBitmap.FrameOf(phys))
    ensures phys != 0 && r == 0 ==>
      space.frames.bits[..] == TakenFrames(old(space.frames.bits[..]),
                                           PageTables.IsPresent(old(space.pd[PageTables.PdIndex(addr)])), FrameBitmap.FrameOf(phys))
      && (forall w: u32 {:trigger PageTables.Physaddr(space.pd[..], space.pt[..], w)} {:trigger PageTables.FlagsOf(space.pd[..], space.pt[..], w)} :: PageBase(w) == PageBase(addr) ==>
            PageTables.Physaddr(space.pd[..], space.pt[..], w) == phys + Low12(w)
            && PageTables.FlagsOf(space.pd[..], space.pt[..], w) == PresentFlags(flags))
      && (forall w: u32 {:trigger PageTables.Physaddr(space.pd[..], space.pt[..], w)} {:trigger PageTables.FlagsOf(space.pd[..], space.pt[..], w)} ::
            PageTables.PdIndex(w) != PageTables.WindowSlot && PageBase(w) != PageBase(addr) ==>
            PageTables.Physaddr(space.pd[..], space.pt[..], w) == PageTables.Physaddr(old(space.pd[..]), old(space.pt[..]), w)
            && PageTables.FlagsOf(space.pd[..], space.pt[..], w) == PageTables.FlagsOf(old(space.pd[..]), old(space.pt[..]), w))
  {
    ghost var pd0, pt0 := space.pd[..], space.pt[..];
    phys := space.frames.FindFreePage();
    if phys == 0 {
      return 0, 0;
    }
    space.frames.MarkUsed(phys);
    ghost var bits1 := space.frames.bits[..];
    var page := PageBase(addr);
    assert PageBase(page) == PageBase(addr);
    PageTables.PageBaseIsLeaf(page);
    PageTables.PageBaseIsLeaf(addr);
    assert PageTables.LeafIndex(page) == PageTables.LeafIndex(addr) && PageTables.PdIndex(page) == PageTables.PdIndex(addr);
    r := space.MapPage(phys, page, flags);
    if r == 0 {
      forall w: u32 | PageBase(w) == PageBase(addr)
        ensures PageTables.Physaddr(space.pd[..], space.pt[..], w) == phys + Low12(w)
        ensures PageTables.FlagsOf(space.pd[..], space.pt[..], w) == PresentFlags(flags)
      {
        assert space.GetPhysaddr(w) == phys + Low12(w) && space.GetFlags(w) == PresentFlags(flags);
      }
      forall w: u32 | PageTables.PdIndex(w) != PageTables.WindowSlot && PageBase(w) != PageBase(addr)
        ensures PageTables.Physaddr(space.pd[..], space.pt[..], w) == PageTables.Physaddr(pd0, pt0, w)
        ensures PageTables.FlagsOf(space.pd[..], space.pt[..], w) == PageTables.FlagsOf(pd0, pt0, w)
      {
        if PageTables.IsPresent(pd0[PageTables.PdIndex(page)]) {
          PageTables.LeafKeepsOthers(pd0, pt0, page, PageTables.LeafEntry(phys, flags), w);
        } else {
          PageTables.InstallKeepsOthers(pd0, pt0, page, FrameBitmap.FreePageAddress(bits1), phys, flags, w);
        }
      }
    }
  }

  /**
   * The second half of page_fault_interrupt_handler, once region e is known
   * to contain addr: takes the lowest free frame, marks it used and maps
   * addr's page onto it, loads the page and rewrites the leaf's flags to
   * the fault flags; Resolves states each outcome and the state it leaves.
   */
  method Resolve(space: PageTables.AddressSpace, ram: array<u8>, e: Regions.Region,
                 addr: u32, fileRead: (nat, u32, u32) -> seq<u8>)
    returns (o: Outcome)
    requires space.Valid() && space.GetPhysaddr(addr) == 0
    requires PageTables.PdIndex(addr) != PageTables.WindowSlot
    requires ram.Length == FrameBitmap.FrameCount * PageSize
    modifies space.pd, space.pt, space.frames.bits, ram
    ensures space.Valid()
    ensures Resolves(old(space.pd[..]), old(space.pt[..]), old(space.frames.bits[..]), old(ram[..]),
                     space.pd[..], space.pt[..], space.frames.bits[..], ram[..], e, addr, fileRead, o)
  {
    ghost var pd0, pt0, bits0, ram0 := space.pd[..], space.pt[..], space.frames.bits[..], ram[..];
    var flags := FaultFlags(e.flags);
    var physaddr, mapped := MapFreshFrame(space, addr, flags);
    if physaddr == 0 {
      return OutOfMemory;
    }
    if mapped != 0 {
      return MapFailed;
    }
    ghost var pd1, pt1, bits1 := space.pd[..], space.pt[..], space.frames.bits[..];
    LoadAndProtect(space, ram, e, addr, fileRead, physaddr, flags);
    ResolvedCase(pd0, pt0, bits0, ram0, pd1, pt1, space.pd[..], space.pt[..], space.frames.bits[..], ram[..],
                 e, addr, fileRead);
    return Resolved(physaddr);
  }

  /**
   * The end of the handler, once addr's page is mapped onto phys with
   * `flags`: the memset and the file read fill the frame, then
   * map_change_permission rewrites the leaf's flags. Only the frame's bytes
   * and addr's leaf change.
   */
  method LoadAndProtect(space: PageTables.AddressSpace, ram: array<u8>, e: Regions.Region,
                        addr: u32, fileRead: (nat, u32, u32) -> seq<u8>, phys: u32, flags: u32)
    requires space.Valid() && phys + PageSize <= ram.Length
    requires forall w: u32 {:trigger PageTables.Physaddr(space.pd[..], space.pt[..], w)} {:trigger PageTables.FlagsOf(space.pd[..], space.pt[..], w)} :: PageBase(w) == PageBase(addr) ==>
      PageTables.Physaddr(space.pd[..], space.pt[..], w) == phys + Low12(w)
      && PageTables.FlagsOf(space.pd[..], space.pt[..], w) == PresentFlags(flags)
    modifies space.pt, ram
    ensures space.Valid() && space.pd[..] == old(space.pd[..])
    ensures ram[phys .. phys + PageSize] == Contents(e, addr, fileRead)
    ensures forall k :: 0 <= k < ram.Length && !(phys <= k < phys + PageSize) ==> ram[k] == old(ram[k])
    ensures forall w: u32 {:trigger PageTables.Physaddr(space.pd[..], space.pt[..], w)} {:trigger PageTables.FlagsOf(space.pd[..], space.pt[..], w)} :: PageBase(w) == PageBase(addr) ==>
      PageTables.Physaddr(space.pd[..], space.pt[..], w) == phys + Low12(w)
      && PageTables.FlagsOf(space.pd[..], space.pt[..], w) == PresentFlags(flags)
    ensures forall w: u32 {:trigger PageTables.Physaddr(space.pd[..], space.pt[..], w)} {:trigger PageTables.FlagsOf(space.pd[..], space.pt[..], w)} :: PageBase(w) != PageBase(addr) ==>
      PageTables.Physaddr(space.pd[..], space.pt[..], w) == PageTables.Physaddr(old(space.pd[..]), old(space.pt[..]), w)
      && PageTables.FlagsOf(space.pd[..], space.pt[..], w) == PageTables.FlagsOf(old(space.pd[..]), old(space.pt[..]), w)
  {
    ghost var pd1, pt1 := space.pd[..], space.pt[..];
    assert PageTables.FlagsOf(pd1, pt1, addr) % 2 == 1;
    LoadPage(ram, phys, e, addr, fileRead);
    var _ := space.MapChangePermission(addr, flags);
    FlagsRewritten(pd1, pt1, addr, flags);
    assert space.pt[..] == pt1[PageTables.LeafIndex(addr) := PageTables.LeafEntry(pt1[PageTables.LeafIndex(addr)], flags)];
  }

  /**
   * page_fault_interrupt_handler for a fault at addr: halts, changing
   * nothing, when addr already translates or when no region contains it;
   * otherwise resolves the fault with the containing region.
   */
  method HandlePageFault(space: PageTables.AddressSpace, regions: Regions.RegionMap, ram: array<u8>,
                         addr: u32, fileRead: (nat, u32, u32) -> seq<u8>)
    returns (o: Outcome)
    requires space.Valid() && regions.Valid() && Regions.Ordered(regions.Live())
    requires PageTables.PdIndex(addr) != PageTables.WindowSlot
    requires ram.Length == FrameBitmap.FrameCount * PageSize
    modifies space.pd, space.pt, space.frames.bits, ram
    ensures space.Valid()
    ensures o == AlreadyMapped <==> old(space.GetPhysaddr(addr)) != 0
    ensures o == NoRegion <==> (old(space.GetPhysaddr(addr)) == 0
      && forall k :: 0 <= k < |regions.Live()| ==> Regions.Compare(addr, regions.Live()[k]) != 0)
    ensures o == AlreadyMapped || o == NoRegion ==>
      space.pd[..] == old(space.pd[..]) && space.pt[..] == old(space.pt[..])
      && space.frames.bits[..] == old(space.frames.bits[..]) && ram[..] == old(ram[..])
    ensures o != AlreadyMapped && o != NoRegion ==> exists k ::
      (0 <= k < |regions.Live()| && Regions.Compare(addr, regions.Live()[k]) == 0
       && Resolves(old(space.pd[..]), old(space.pt[..]), old(space.frames.bits[..]), old(ram[..]),
                   space.pd[..], space.pt[..], space.frames.bits[..], ram[..], regions.Live()[k], addr, fileRead, o))
  {
    if space.GetPhysaddr(addr) != 0 {
      return AlreadyMapped;
    }
    Regions.OrderedSortedFor(regions.Live(), addr);
    var found := StdLib.BSearch(addr, regions.entries[..regions.count], Regions.Compare);
    if found.None? {
      return NoRegion;
    }
    // The C containment test that follows repeats vm_entry_cmp, so it cannot fail here.
    ghost var k := found.value;
    var e := regions.entries[found.value];
    assert regions.Live()[k] == e && Regions.Compare(addr, e) == 0;
    o := Resolve(space, ram, e, addr, fileRead);
    assert regions.Live()[k] == e;
  }
}
