/**
 * The two-level i386 page-table mapper of the kernel.
 *
 * The page directory is a 1024-entry array. Every page table is reached
 * through a self-mapped window: the 4 MiB at 0xFFC00000 (directory slot
 * 1023) show page table i at 0xFFC00000 + i * 4096, so the whole window is
 * one array of 1024 * 1024 entries in which the leaf entry of virtual
 * address v sits at index v / 4096. Table 1023 of the window is the table
 * that maps the window itself: its entry i maps the frame of table i, and
 * its entry 1023 maps that table.
 */
module PageTables {
  import opened Words
  import StdLib
  import FrameBitmap

  /** The directory slot that mounts the window (VM_PT_MOUNT_BASE >> 22). */
  const WindowSlot: nat := 1023
  const WindowBase: u32 := 0xFFC0_0000
  const DirEntries: nat := 1024
  const WindowEntries: nat := 1024 * 1024

  /** `virtaddr >> 22`. */
  function PdIndex(v: u32): (i: nat)
    ensures i < DirEntries
  {
    v / 0x40_0000
  }

  /** `(virtaddr >> 12) & 0x3FF`. */
  function PtIndex(v: u32): (j: nat)
    ensures j < 1024
  {
    (v / PageSize) % 1024
  }

  /** Index of v's leaf entry in the window: table PdIndex(v), entry PtIndex(v). */
  function LeafIndex(v: u32): (k: nat)
    ensures k < WindowEntries
    ensures k == PdIndex(v) * 1024 + PtIndex(v)
  {
    v / PageSize
  }

  /** VM_PDINDEX_TO_PTR(i): the window page showing table i. */
  function Window(i: nat): (w: u32)
    requires i < DirEntries
    ensures PdIndex(w) == WindowSlot && PtIndex(w) == i
    ensures w % PageSize == 0
  {
    WindowBase + i * PageSize
  }

  /** Index of the window entry that maps table i: entry i of table 1023. */
  function WindowLeaf(i: nat): (k: nat)
    requires i < DirEntries
    ensures k == LeafIndex(Window(i)) && k / 1024 == WindowSlot
  {
    WindowSlot * 1024 + i
  }

  /** The window entry of table 1023 that maps table 1023 itself. */
  const SelfLeaf: nat := WindowSlot * 1024 + WindowSlot

  /** Bit 0 of an entry. */
  predicate IsPresent(e: u32)
  {
    e % 2 == 1
  }

  /** `(phys & ~0xFFF) | (flags & 0xFFF) | PRESENT`: a leaf mapping phys. */
  function LeafEntry(phys: u32, flags: u32): (e: u32)
    ensures IsPresent(e) && PageBase(e) == PageBase(phys)
    ensures Low12(e) == PresentFlags(flags)
  {
    AlignedPlus(PageBase(phys), PresentFlags(flags));
    PageBase(phys) + PresentFlags(flags)
  }

  /**
   * `(frame & ~0xFFF) | READ_WRITE | (flags & USER_ACCESS) | PRESENT`: a
   * directory entry linking a new table, user-accessible exactly when the
   * leaf flags are.
   */
  function LinkEntry(frame: u32, flags: u32): (e: u32)
    ensures IsPresent(e) && PageBase(e) == PageBase(frame)
    ensures Has(e, ReadWrite) && (Has(e, UserAccess) <==> Has(flags, UserAccess))
  {
    var low := ReadWrite + (if Has(flags, UserAccess) then UserAccess else 0) + Present;
    AlignedPlus(PageBase(frame), low);
    PageBase(frame) + low
  }

  /** Adding a value below 4096 to a page-aligned word keeps the page and sets the low bits. */
  lemma AlignedPlus(b: u32, k: nat)
    requires b % PageSize == 0 && b <= Modulus - PageSize && k < PageSize
    ensures b + k < Modulus
    ensures PageBase(b + k) == b && Low12(b + k) == k
    ensures (b + k) % 2 == k % 2
    ensures (b + k) / 2 % 2 == k / 2 % 2 && (b + k) / 4 % 2 == k / 4 % 2
  {
    var q := b / PageSize;
    assert b == q * 4096;
    PageSplit(q, k);
    HalfSplit(q, k);
    QuarterSplit(q, k);
  }

  lemma PageSplit(q: nat, k: nat)
    requires k < 4096
    ensures (q * 4096 + k) % 4096 == k && (q * 4096 + k) / 4096 == q
  {
  }

  lemma HalfSplit(q: nat, k: nat)
    requires k < 4096
    ensures (q * 4096 + k) / 2 == q * 2048 + k / 2
    ensures (q * 4096 + k) % 2 == k % 2
    ensures (q * 2048 + k / 2) % 2 == k / 2 % 2
  {
  }

  lemma QuarterSplit(q: nat, k: nat)
    requires k < 4096
    ensures (q * 4096 + k) / 4 == q * 1024 + k / 4
    ensures (q * 1024 + k / 4) % 2 == k / 4 % 2
  {
  }

  /** What get_physaddr computes from a directory and a window. */
  function Physaddr(pd: seq<u32>, pt: seq<u32>, v: u32): (r: u32)
    requires |pd| == DirEntries && |pt| == WindowEntries
  {
    if !IsPresent(pd[PdIndex(v)]) then 0
    else if !IsPresent(pt[LeafIndex(v)]) then 0
    else
      AlignedPlus(PageBase(pt[LeafIndex(v)]), Low12(v));
      PageBase(pt[LeafIndex(v)]) + Low12(v)
  }

  /** What get_flags computes: the leaf's low 12 bits, or 0 when not mapped. */
  function FlagsOf(pd: seq<u32>, pt: seq<u32>, v: u32): (r: u32)
    requires |pd| == DirEntries && |pt| == WindowEntries
    ensures r < PageSize
    ensures r % 2 == 1 <==> IsPresent(pd[PdIndex(v)]) && IsPresent(pt[LeafIndex(v)])
  {
    if !IsPresent(pd[PdIndex(v)]) then 0
    else if !IsPresent(pt[LeafIndex(v)]) then 0
    else
      var e := pt[LeafIndex(v)];
      AlignedPlus(PageBase(e), Low12(e));
      Low12(e)
  }

  /**
   * The window after table i was installed on frame f: the window entry of
   * table i maps f read-write unless it was already present, then table i is
   * zero-filled.
   */
  function Installed(pt: seq<u32>, i: nat, f: u32): (r: seq<u32>)
    requires |pt| == WindowEntries && i < WindowSlot
    ensures |r| == WindowEntries
  {
    var w := WindowLeaf(i);
    var linked := pt[w := if IsPresent(pt[w]) then pt[w] else LeafEntry(f, ReadWrite)];
    StdLib.Filled(linked, i * 1024, 1024, 0)
  }

  /**
   * Each directory slot below 1023 is present exactly when its window entry
   * is, and both name the same frame.
   */
  ghost predicate WindowCoherent(pd: seq<u32>, pt: seq<u32>)
    requires |pd| == DirEntries && |pt| == WindowEntries
  {
    forall i :: 0 <= i < WindowSlot ==>
      (IsPresent(pd[i]) <==> IsPresent(pt[WindowLeaf(i)]))
      && (IsPresent(pd[i]) ==> PageBase(pd[i]) == PageBase(pt[WindowLeaf(i)]))
  }

  /** Installing table i on a free frame keeps the window coherent. */
  lemma InstallKeepsCoherent(pd: seq<u32>, pt: seq<u32>, i: nat, f: u32, flags: u32)
    requires |pd| == DirEntries && |pt| == WindowEntries && i < WindowSlot
    requires WindowCoherent(pd, pt) && !IsPresent(pd[i])
    ensures WindowCoherent(pd[i := LinkEntry(f, flags)], Installed(pt, i, f))
  {
    var pt' := Installed(pt, i, f);
    forall j | 0 <= j < WindowSlot
      ensures pt'[WindowLeaf(j)] == if j == i then LeafEntry(f, ReadWrite) else pt[WindowLeaf(j)]
    {
      assert !(i * 1024 <= WindowLeaf(j) < i * 1024 + 1024);
    }
  }

  /** Writing a leaf outside the window's own table keeps the window coherent. */
  lemma LeafKeepsCoherent(pd: seq<u32>, pt: seq<u32>, k: nat, e: u32)
    requires |pd| == DirEntries && |pt| == WindowEntries && k < WindowSlot * 1024
    requires WindowCoherent(pd, pt)
    ensures WindowCoherent(pd, pt[k := e])
  {
    forall j | 0 <= j < WindowSlot ensures pt[k := e][WindowLeaf(j)] == pt[WindowLeaf(j)] {
    }
  }

  /** A leaf written in a present slot maps every address of v's page to phys, with the new flags. */
  lemma MappedTranslates(pd: seq<u32>, pt: seq<u32>, v: u32, w: u32, e: u32)
    requires |pd| == DirEntries && |pt| == WindowEntries && IsPresent(pd[PdIndex(v)])
    requires PageBase(w) == PageBase(v) && IsPresent(e)
    ensures Physaddr(pd, pt[LeafIndex(v) := e], w) == PageBase(e) + Low12(w)
    ensures FlagsOf(pd, pt[LeafIndex(v) := e], w) == Low12(e)
  {
    assert LeafIndex(w) == LeafIndex(v) && PdIndex(w) == PdIndex(v) by {
      assert w / PageSize == PageBase(w) / PageSize;
      assert v / PageSize == PageBase(v) / PageSize;
    }
  }

  /**
   * What map_page returns for v when the bitmap is s: 2 when v's slot and
   * leaf are both present, 1 when the slot is absent and s has no free frame
   * for a table, 0 otherwise.
   */
  function MapOutcome(pd: seq<u32>, pt: seq<u32>, s: seq<bv8>, v: u32): (r: int)
    requires |pd| == DirEntries && |pt| == WindowEntries
    ensures r == 2 <==> IsPresent(pd[PdIndex(v)]) && IsPresent(pt[LeafIndex(v)])
    ensures r == 1 <==> !IsPresent(pd[PdIndex(v)]) && FrameBitmap.FreePageAddress(s) == 0
  {
    if IsPresent(pd[PdIndex(v)]) then (if IsPresent(pt[LeafIndex(v)]) then 2 else 0)
    else if FrameBitmap.FreePageAddress(s) == 0 then 1 else 0
  }

  /** Writing v's leaf leaves every address of another page translating as before. */
  lemma LeafKeepsOthers(pd: seq<u32>, pt: seq<u32>, v: u32, e: u32, w: u32)
    requires |pd| == DirEntries && |pt| == WindowEntries && PageBase(w) != PageBase(v)
    ensures Physaddr(pd, pt[LeafIndex(v) := e], w) == Physaddr(pd, pt, w)
    ensures FlagsOf(pd, pt[LeafIndex(v) := e], w) == FlagsOf(pd, pt, w)
  {
    PageBaseIsLeaf(v);
    PageBaseIsLeaf(w);
  }

  /**
   * Installing a table for v's absent slot and writing v's leaf leaves every
   * address outside the window and off v's page translating as before: the
   * new table's other entries are zero, as its absent slot was, and no other
   * table changes.
   */
  lemma InstallKeepsOthers(pd: seq<u32>, pt: seq<u32>, v: u32, f: u32, phys: u32, flags: u32, w: u32)
    requires |pd| == DirEntries && |pt| == WindowEntries
    requires PdIndex(v) < WindowSlot && !IsPresent(pd[PdIndex(v)])
    requires PdIndex(w) != WindowSlot && PageBase(w) != PageBase(v)
    ensures var i := PdIndex(v);
      var pd', pt' := pd[i := LinkEntry(f, flags)], Installed(pt, i, f)[LeafIndex(v) := LeafEntry(phys, flags)];
      Physaddr(pd', pt', w) == Physaddr(pd, pt, w) && FlagsOf(pd', pt', w) == FlagsOf(pd, pt, w)
  {
    var i := PdIndex(v);
    var k := LeafIndex(w);
    PageBaseIsLeaf(v);
    PageBaseIsLeaf(w);
    assert k != LeafIndex(v);
    if PdIndex(w) == i {
      assert i * 1024 <= k < i * 1024 + 1024;
    } else {
      assert !(i * 1024 <= k < i * 1024 + 1024) && k != WindowLeaf(i);
    }
  }

  /** The page of w starts at its leaf index times the page size. */
  lemma PageBaseIsLeaf(w: u32)
    ensures PageBase(w) == LeafIndex(w) * PageSize
  {
  }

  /** A table with no nonzero entry, the test unmap_page runs after clearing a leaf. */
  ghost predicate TableEmpty(pt: seq<u32>, i: nat)
    requires |pt| == WindowEntries && i < DirEntries
  {
    forall k :: i * 1024 <= k < i * 1024 + 1024 ==> pt[k] == 0
  }

  /** The scan of unmap_page: stops at the first nonzero entry of table i. */
  method ScanTableEmpty(pt: array<u32>, i: nat) returns (empty: bool)
    requires pt.Length == WindowEntries && i < DirEntries
    ensures empty <==> TableEmpty(pt[..], i)
  {
    var k := 0;
    while k < 1024 && pt[i * 1024 + k] == 0
      invariant 0 <= k <= 1024
      invariant forall j :: i * 1024 <= j < i * 1024 + k ==> pt[j] == 0
    {
      k := k + 1;
    }
    empty := k == 1024;
  }

  /** The three page-permission checks of the C library guard. */
  datatype Access = UserPage | ReadablePage | WritablePage

  /** The flag test of `__check_ptr_userspace`, `__check_ptr` and `__check_ptr_write`. */
  predicate Permits(flags: u32, kind: Access)
  {
    match kind
    case UserPage => Has(flags, UserAccess)
    case ReadablePage => Has(flags, Present)
    case WritablePage => Has(flags, Present) && Has(flags, ReadWrite)
  }

  class AddressSpace {
    var pd: array<u32>
    /** The window: 1024 tables of 1024 entries, table i at [i * 1024, i * 1024 + 1024). */
    var pt: array<u32>
    var frames: FrameBitmap.Bitmap

    /** Sizes, and the window mounted: slot 1023 and the window's own entry are present. */
    ghost predicate Shape()
      reads this, pd, pt, frames
    {
      pd.Length == DirEntries && pt.Length == WindowEntries && frames.Valid()
      && IsPresent(pd[WindowSlot]) && IsPresent(pt[SelfLeaf])
    }

    /**
     * Each directory slot below 1023 is present exactly when its window entry
     * is, and both name the same frame.
     */
    ghost predicate Coherent()
      reads this, pd, pt
      requires pd.Length == DirEntries && pt.Length == WindowEntries
    {
      WindowCoherent(pd[..], pt[..])
    }

    ghost predicate Valid()
      reads this, pd, pt, frames
    {
      Shape() && Coherent()
    }

    /**
     * An address space with only the window mounted on frame `windowFrame`:
     * the state vmm_init leaves behind, less the kernel's own tables.
     */
    constructor (bitmap: FrameBitmap.Bitmap, windowFrame: u32)
      requires bitmap.Valid()
      ensures Valid() && fresh(pd) && fresh(pt) && frames == bitmap
      ensures forall i :: 0 <= i < WindowSlot ==> !IsPresent(pd[i])
    {
      frames := bitmap;
      var entry := LeafEntry(windowFrame, ReadWrite);
      pd := new u32[DirEntries](i => if i == WindowSlot then entry else 0);
      pt := new u32[WindowEntries](k => if k == SelfLeaf then entry else 0);
    }

    /**
     * get_physaddr: 0 when the directory slot or the leaf is not present;
     * otherwise the leaf's frame with v's offset inside the page.
     */
    function GetPhysaddr(v: u32): (r: u32)
      reads this, pd, pt
      requires pd.Length == DirEntries && pt.Length == WindowEntries
      ensures !IsPresent(pd[PdIndex(v)]) || !IsPresent(pt[LeafIndex(v)]) ==> r == 0
      ensures IsPresent(pd[PdIndex(v)]) && IsPresent(pt[LeafIndex(v)]) ==>
        PageBase(r) == PageBase(pt[LeafIndex(v)]) && Low12(r) == Low12(v)
    {
      Physaddr(pd[..], pt[..], v)
    }

    /** get_flags: the leaf's low 12 bits, or 0 when the slot or the leaf is not present. */
    function GetFlags(v: u32): (r: u32)
      reads this, pd, pt
      requires pd.Length == DirEntries && pt.Length == WindowEntries
      ensures r < PageSize
      ensures !IsPresent(pd[PdIndex(v)]) || !IsPresent(pt[LeafIndex(v)]) ==> r == 0
      ensures IsPresent(pd[PdIndex(v)]) && IsPresent(pt[LeafIndex(v)]) ==> r == Low12(pt[LeafIndex(v)]) && r % 2 == 1
    {
      FlagsOf(pd[..], pt[..], v)
    }

    /**
     * map_page. With the directory slot present: returns 2 and changes
     * nothing when the leaf is already present, otherwise writes the leaf and
     * returns 0. With the slot absent: returns 1 and changes nothing when no
     * frame is free; otherwise takes the lowest free frame, marks it used,
     * maps it in the window, links it in the directory, zero-fills the new
     * table, writes the leaf and returns 0.
     */
    method MapPage(phys: u32, v: u32, flags: u32) returns (r: int)
      requires Shape()
      modifies pd, pt, frames.bits
      ensures Shape()
      ensures IsPresent(old(pd[PdIndex(v)])) ==>
        frames.bits[..] == old(frames.bits[..]) && pd[..] == old(pd[..])
        && if IsPresent(old(pt[LeafIndex(v)])) then r == 2 && pt[..] == old(pt[..])
           else r == 0 && pt[..] == old(pt[..])[LeafIndex(v) := LeafEntry(phys, flags)]
      ensures !IsPresent(old(pd[PdIndex(v)])) && old(FrameBitmap.FreePageAddress(frames.bits[..])) == 0 ==>
        r == 1 && frames.bits[..] == old(frames.bits[..]) && pd[..] == old(pd[..]) && pt[..] == old(pt[..])
      ensures !IsPresent(old(pd[PdIndex(v)])) && old(FrameBitmap.FreePageAddress(frames.bits[..])) != 0 ==>
        var f := old(FrameBitmap.FreePageAddress(frames.bits[..]));
        r == 0 && PdIndex(v) < WindowSlot
        && frames.bits[..] == FrameBitmap.WithUsed(old(frames.bits[..]), FrameBitmap.FrameOf(f))
        && pd[..] == old(pd[..])[PdIndex(v) := LinkEntry(f, flags)]
        && pt[..] == Installed(old(pt[..]), PdIndex(v), f)[LeafIndex(v) := LeafEntry(phys, flags)]
      ensures r == MapOutcome(old(pd[..]), old(pt[..]), old(frames.bits[..]), v)
      ensures r == 0 ==> forall w :: PageBase(w) == PageBase(v) ==>
        GetPhysaddr(w) == PageBase(phys) + Low12(w) && GetFlags(w) == PresentFlags(flags)
      ensures old(Valid()) && PdIndex(v) != WindowSlot ==> Valid()
      decreases if PdIndex(v) == WindowSlot then 0 else 3
    {
      if !IsPresent(pd[PdIndex(v)]) {
        r := MapIntoNewTable(phys, v, flags);
        return;
      }
      if IsPresent(pt[LeafIndex(v)]) {
        return 2;
      }
      WriteLeaf(phys, v, flags);
      return 0;
    }

    /**
     * map_page with v's directory slot absent: installs a table (returning 1
     * when no frame is free), then writes the leaf, which a freshly
     * zero-filled table never has present.
     */
    method MapIntoNewTable(phys: u32, v: u32, flags: u32) returns (r: int)
      requires Shape() && !IsPresent(pd[PdIndex(v)])
      modifies pd, pt, frames.bits
      ensures Shape()
      ensures old(FrameBitmap.FreePageAddress(frames.bits[..])) == 0 ==>
        r == 1 && frames.bits[..] == old(frames.bits[..]) && pd[..] == old(pd[..]) && pt[..] == old(pt[..])
      ensures old(FrameBitmap.FreePageAddress(frames.bits[..])) != 0 ==>
        var f := old(FrameBitmap.FreePageAddress(frames.bits[..]));
        r == 0 && PdIndex(v) < WindowSlot
        && frames.bits[..] == FrameBitmap.WithUsed(old(frames.bits[..]), FrameBitmap.FrameOf(f))
        && pd[..] == old(pd[..])[PdIndex(v) := LinkEntry(f, flags)]
        && pt[..] == Installed(old(pt[..]), PdIndex(v), f)[LeafIndex(v) := LeafEntry(phys, flags)]
      ensures r == 0 ==> forall w :: PageBase(w) == PageBase(v) ==>
        GetPhysaddr(w) == PageBase(phys) + Low12(w) && GetFlags(w) == PresentFlags(flags)
      ensures old(Valid()) ==> Valid()
      decreases 2
    {
      var pdindex := PdIndex(v);
      ghost var pd0, pt0 := pd[..], pt[..];
      ghost var f := FrameBitmap.FreePageAddress(frames.bits[..]);
      var ok := InstallTable(pdindex, flags);
      if !ok {
        return 1;
      }
      if old(Valid()) {
        InstallKeepsCoherent(pd0, pt0, pdindex, f, flags);
      }
      assert pt[LeafIndex(v)] == 0;
      WriteLeaf(phys, v, flags);
      return 0;
    }

    /** The last step of map_page: writes v's absent leaf under a present slot. */
    method WriteLeaf(phys: u32, v: u32, flags: u32)
      requires Shape() && IsPresent(pd[PdIndex(v)]) && !IsPresent(pt[LeafIndex(v)])
      modifies pt
      ensures Shape()
      ensures pt[..] == old(pt[..])[LeafIndex(v) := LeafEntry(phys, flags)]
      ensures forall w :: PageBase(w) == PageBase(v) ==>
        GetPhysaddr(w) == PageBase(phys) + Low12(w) && GetFlags(w) == PresentFlags(flags)
      ensures old(Valid()) && PdIndex(v) != WindowSlot ==> Valid()
    {
      var leaf := LeafIndex(v);
      ghost var pt1 := pt[..];
      pt[leaf] := LeafEntry(phys, flags);
      forall w | PageBase(w) == PageBase(v)
        ensures GetPhysaddr(w) == PageBase(phys) + Low12(w) && GetFlags(w) == PresentFlags(flags)
      {
        MappedTranslates(pd[..], pt1, v, w, LeafEntry(phys, flags));
      }
      if old(Valid()) && PdIndex(v) != WindowSlot {
        LeafKeepsCoherent(pd[..], pt1, leaf, LeafEntry(phys, flags));
      }
    }

    /**
     * The table-allocation branch of map_page for an absent slot i: takes the
     * lowest free frame (failing when there is none), marks it used, maps it
     * read-write at the window page of table i, links it in slot i carrying
     * the leaf's USER bit, and zero-fills the table.
     */
    method InstallTable(i: nat, flags: u32) returns (ok: bool)
      requires Shape() && i < DirEntries && !IsPresent(pd[i])
      modifies pd, pt, frames.bits
      ensures Shape() && i < WindowSlot
      ensures ok == (old(FrameBitmap.FreePageAddress(frames.bits[..])) != 0)
      ensures !ok ==> frames.bits[..] == old(frames.bits[..]) && pd[..] == old(pd[..]) && pt[..] == old(pt[..])
      ensures ok ==>
        var f := old(FrameBitmap.FreePageAddress(frames.bits[..]));
        frames.bits[..] == FrameBitmap.WithUsed(old(frames.bits[..]), FrameBitmap.FrameOf(f))
        && pd[..] == old(pd[..])[i := LinkEntry(f, flags)]
        && pt[..] == Installed(old(pt[..]), i, f)
      decreases 1
    {
      var frame := frames.FindFreePage();
      if frame == 0 {
        return false;
      }
      frames.MarkUsed(frame);
      var _ := MapPage(frame, Window(i), ReadWrite);
      pd[i] := LinkEntry(frame, flags);
      StdLib.Fill(pt, i * 1024, 1024, 0);
      return true;
    }
  
    /**
     * map_change_permission: with the slot absent returns 0 and changes
     * nothing; with the leaf absent returns 2 and changes nothing; otherwise
     * keeps the leaf's frame, replaces its flags by `flags | PRESENT` and
     * returns 0.
     */
    method MapChangePermission(v: u32, flags: u32) returns (r: int)
      requires Shape()
      modifies pt
      ensures Shape()
      ensures !IsPresent(pd[PdIndex(v)]) ==> r == 0 && pt[..] == old(pt[..])
      ensures IsPresent(pd[PdIndex(v)]) && !IsPresent(old(pt[LeafIndex(v)])) ==> r == 2 && pt[..] == old(pt[..])
      ensures IsPresent(pd[PdIndex(v)]) && IsPresent(old(pt[LeafIndex(v)])) ==>
        r == 0 && pt[..] == old(pt[..])[LeafIndex(v) := LeafEntry(old(pt[LeafIndex(v)]), flags)]
        && GetFlags(v) == PresentFlags(flags)
      ensures forall w :: GetPhysaddr(w) == old(GetPhysaddr(w))
      ensures old(Valid()) ==> Valid()
    {
      var pdindex := PdIndex(v);
      var leaf := LeafIndex(v);
      if !IsPresent(pd[pdindex]) {
        return 0;
      }
      if !IsPresent(pt[leaf]) {
        return 2;
      }
      ghost var pt0 := pt[..];
      var e := LeafEntry(pt[leaf], flags);
      pt[leaf] := e;
      MappedTranslates(pd[..], pt0, v, v, e);
      forall w ensures GetPhysaddr(w) == old(GetPhysaddr(w)) {
        if PageBase(w) == PageBase(v) {
          MappedTranslates(pd[..], pt0, v, w, e);
          MappedTranslates(pd[..], pt0, v, w, pt0[leaf]);
          assert pt0[leaf := pt0[leaf]] == pt0;
        } else {
          PageBaseIsLeaf(w);
          PageBaseIsLeaf(v);
        }
      }
      assert old(Valid()) ==> Valid() by {
        if old(Valid()) {
          forall j | 0 <= j < WindowSlot
            ensures IsPresent(pt[WindowLeaf(j)]) == IsPresent(pt0[WindowLeaf(j)])
            ensures PageBase(pt[WindowLeaf(j)]) == PageBase(pt0[WindowLeaf(j)])
          {
          }
        }
      }
      return 0;
    }

    /**
     * unmap_page: zeroes v's leaf. When that leaves all 1024 entries of its
     * table zero, clears the directory slot and unmaps the table's window
     * page the same way. No frame goes back to the bitmap.
     */
    method UnmapPage(v: u32)
      requires Shape() && LeafIndex(v) != SelfLeaf
      modifies pd, pt
      ensures Shape()
      ensures var cleared := old(pt[..])[LeafIndex(v) := 0];
        if TableEmpty(cleared, PdIndex(v)) then
          PdIndex(v) < WindowSlot && pd[..] == old(pd[..])[PdIndex(v) := 0]
          && pt[..] == cleared[WindowLeaf(PdIndex(v)) := 0]
        else pd[..] == old(pd[..]) && pt[..] == cleared
      ensures GetPhysaddr(v) == 0 && GetFlags(v) == 0
      ensures old(Valid()) && PdIndex(v) != WindowSlot ==> Valid()
      decreases if PdIndex(v) == WindowSlot then 0 else 1
    {
      var pdindex := PdIndex(v);
      var leaf := LeafIndex(v);
      pt[leaf] := 0;
      var empty := ScanTableEmpty(pt, pdindex);
      if empty {
        assert pt[SelfLeaf] != 0;
        ghost var pt1 := pt[..];
        pd[pdindex] := 0;
        UnmapPage(Window(pdindex));
        assert old(Valid()) ==> Valid() by {
          if old(Valid()) {
            forall j | 0 <= j < WindowSlot
              ensures (IsPresent(pd[j]) <==> IsPresent(pt[WindowLeaf(j)]))
                && (IsPresent(pd[j]) ==> PageBase(pd[j]) == PageBase(pt[WindowLeaf(j)]))
            {
              if j != pdindex {
                assert pt[WindowLeaf(j)] == old(pt[WindowLeaf(j)]);
              }
            }
          }
        }
      } else {
        assert old(Valid()) && pdindex != WindowSlot ==> Valid() by {
          if old(Valid()) && pdindex != WindowSlot {
            LeafKeepsCoherent(pd[..], old(pt[..]), leaf, 0);
          }
        }
      }
    }

    /**
     * `__check_ptr_userspace`, `__check_ptr` and `__check_ptr_write`: walk p
     * from ptr in page steps while `p < ptr + len`, the end computed with
     * 32-bit wrap-around, and return 1 at the first page whose flags fail the
     * test, 0 when none does. An end that wraps to ptr or below probes nothing.
     */
    method CheckRange(ptr: u32, len: u32, kind: Access) returns (r: int)
      requires pd.Length == DirEntries && pt.Length == WindowEntries
      requires Wrap(ptr + len) <= Modulus - PageSize
      ensures r == 0 || r == 1
      ensures r == 0 <==> forall p: u32 :: Probed(ptr, Wrap(ptr + len), p) ==> Permits(GetFlags(p), kind)
      ensures Wrap(ptr + len) <= ptr ==> r == 0
    {
      var end := Wrap(ptr + len);
      var p: u32 := ptr;
      while p < end
        invariant ptr <= p && (p - ptr) % PageSize == 0
        invariant forall q: u32 :: Probed(ptr, end, q) && q < p ==> Permits(GetFlags(q), kind)
        decreases end - p
      {
        if !Permits(GetFlags(p), kind) {
          assert Probed(ptr, end, p);
          return 1;
        }
        ProbeStep(ptr, end, p);
        p := p + PageSize;
      }
      assert forall q: u32 :: Probed(ptr, end, q) ==> q < p;
      return 0;
    }

    /**
     * The range check with the wrap-around closed: a range whose end passes
     * 2^32 is rejected, any other range is accepted exactly when every page
     * start probed from ptr passes the test.
     */
    method CheckRangeNoWrap(ptr: u32, len: u32, kind: Access) returns (r: int)
      requires pd.Length == DirEntries && pt.Length == WindowEntries
      ensures r == 0 || r == 1
      ensures r == 0 <==> (ptr + len <= Modulus &&
        forall p: u32 :: Probed(ptr, ptr + len, p) ==> Permits(GetFlags(p), kind))
    {
      if ptr + len > Modulus {
        return 1;
      }
      var p: int := ptr;
      while p < ptr + len
        invariant ptr <= p && (p - ptr) % PageSize == 0
        invariant forall q: u32 :: Probed(ptr, ptr + len, q) && q < p ==> Permits(GetFlags(q), kind)
        decreases ptr + len - p
      {
        if !Permits(GetFlags(p), kind) {
          assert Probed(ptr, ptr + len, p);
          return 1;
        }
        ProbeStep(ptr, ptr + len, p);
        p := p + PageSize;
      }
      return 0;
    }
  }

  /** The probe after p is one page on, and no probe lies strictly between them. */
  lemma ProbeStep(ptr: u32, end: int, p: int)
    requires ptr <= p && (p - ptr) % PageSize == 0
    ensures (p + PageSize - ptr) % PageSize == 0
    ensures forall q: u32 :: Probed(ptr, end, q) && q < p + PageSize ==> q <= p
  {
    forall q: u32 | Probed(ptr, end, q) && q < p + PageSize
      ensures q <= p
    {
      var a, b := (q - ptr) / PageSize, (p - ptr) / PageSize;
      assert q - ptr == PageSize * a && p - ptr == PageSize * b;
      assert a <= b;
    }
  }

  /** Address p is one of the page-step probes of [ptr, end). */
  predicate Probed(ptr: u32, end: int, p: u32)
  {
    ptr <= p < end && (p - ptr) % PageSize == 0
  }
}
