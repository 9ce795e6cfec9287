/**
 * The older page-table mapper and its kernel break.
 *
 * Same two-level scheme as the current mapper, but the self-mapped window
 * sits at 0xB0000000 (directory slot 704), map_page and unmap_page return
 * nothing, and a new table is linked read-write without the USER bit. On
 * top of it sits a kernel break that grows downward from the top of the
 * address space: get_kbrk finds it, set_kbrk moves it by mapping or
 * unmapping pages.
 */
module OldPaging {
  import opened Words
  import StdLib
  import FrameBitmap
  import PageTables

  /** `VM_PT_MOUNT_BASE >> 22`: the directory slot that mounts the window. */
  const MountSlot: nat := 704
  const MountBase: u32 := 0xB000_0000
  /** The first address past the window: the end of directory slot 704. */
  const MountEnd: u32 := 0xB040_0000
  /** The window entry of table 704 that maps table 704 itself. */
  const MountSelf: nat := MountSlot * 1024 + MountSlot
  /** `(void *)~0`: the break before any page of the top slot is mapped. */
  const NoBreak: u32 := 0xFFFF_FFFF
  /** `~0 & ~0xFFF`: the last page of the address space. */
  const TopPage: u32 := 0xFFFF_F000

  /** VM_PDINDEX_TO_PTR(i): `0xB0000000 | (i << 12)`, the window page showing table i. */
  function MountPage(i: nat): (w: u32)
    requires i < 1024
    ensures PageTables.PdIndex(w) == MountSlot && PageTables.PtIndex(w) == i
    ensures w % PageSize == 0 && PageTables.LeafIndex(w) == MountLeaf(i)
  {
    MountBase + i * PageSize
  }

  /** Index of the window entry that maps table i: entry i of table 704. */
  function MountLeaf(i: nat): nat
  {
    MountSlot * 1024 + i
  }

  /** `(frame & ~0xFFF) | READ_WRITE | PRESENT`: the directory entry of a new table. */
  function TableLink(frame: u32): (e: u32)
    ensures PageTables.IsPresent(e) && PageBase(e) == PageBase(frame)
    ensures Has(e, ReadWrite) && !Has(e, UserAccess)
  {
    PageTables.AlignedPlus(PageBase(frame), ReadWrite + Present);
    PageBase(frame) + ReadWrite + Present
  }

  /** Address w translates: its directory slot and its leaf are present. */
  predicate MappedIn(pd: seq<u32>, pt: seq<u32>, w: u32)
    requires |pd| == PageTables.DirEntries && |pt| == PageTables.WindowEntries
  {
    PageTables.IsPresent(pd[PageTables.PdIndex(w)]) && PageTables.IsPresent(pt[PageTables.LeafIndex(w)])
  }

  /**
   * If w translates in (pd0, pt0), it translates in (pd1, pt1) to the same
   * physical address with the same flags.
   */
  ghost predicate WithinAt(pd0: seq<u32>, pt0: seq<u32>, pd1: seq<u32>, pt1: seq<u32>, w: u32)
    requires |pd0| == PageTables.DirEntries && |pt0| == PageTables.WindowEntries
    requires |pd1| == PageTables.DirEntries && |pt1| == PageTables.WindowEntries
  {
    MappedIn(pd0, pt0, w) ==>
      MappedIn(pd1, pt1, w)
      && PageTables.Physaddr(pd1, pt1, w) == PageTables.Physaddr(pd0, pt0, w)
      && PageTables.FlagsOf(pd1, pt1, w) == PageTables.FlagsOf(pd0, pt0, w)
  }

  /** Every translation of (pd0, pt0) is one of (pd1, pt1). */
  ghost predicate Within(pd0: seq<u32>, pt0: seq<u32>, pd1: seq<u32>, pt1: seq<u32>)
    requires |pd0| == PageTables.DirEntries && |pt0| == PageTables.WindowEntries
    requires |pd1| == PageTables.DirEntries && |pt1| == PageTables.WindowEntries
  {
    forall w: u32 :: WithinAt(pd0, pt0, pd1, pt1, w)
  }

  lemma WithinTrans(pd0: seq<u32>, pt0: seq<u32>, pd1: seq<u32>, pt1: seq<u32>, pd2: seq<u32>, pt2: seq<u32>)
    requires |pd0| == PageTables.DirEntries && |pt0| == PageTables.WindowEntries
    requires |pd1| == PageTables.DirEntries && |pt1| == PageTables.WindowEntries
    requires |pd2| == PageTables.DirEntries && |pt2| == PageTables.WindowEntries
    requires Within(pd0, pt0, pd1, pt1) && Within(pd1, pt1, pd2, pt2)
    ensures Within(pd0, pt0, pd2, pt2)
  {
    forall w: u32 ensures WithinAt(pd0, pt0, pd2, pt2, w) {
      assert WithinAt(pd0, pt0, pd1, pt1, w) && WithinAt(pd1, pt1, pd2, pt2, w);
    }
  }

  /** If w is mapped in the second state but not the first, its flags are `flags | PRESENT`. */
  ghost predicate NewWithAt(pd0: seq<u32>, pt0: seq<u32>, pd1: seq<u32>, pt1: seq<u32>, flags: u32, w: u32)
    requires |pd0| == PageTables.DirEntries && |pt0| == PageTables.WindowEntries
    requires |pd1| == PageTables.DirEntries && |pt1| == PageTables.WindowEntries
  {
    MappedIn(pd1, pt1, w) && !MappedIn(pd0, pt0, w) ==> PageTables.FlagsOf(pd1, pt1, w) == PresentFlags(flags)
  }

  /** Every translation added between the two states carries `flags | PRESENT`. */
  ghost predicate NewWith(pd0: seq<u32>, pt0: seq<u32>, pd1: seq<u32>, pt1: seq<u32>, flags: u32)
    requires |pd0| == PageTables.DirEntries && |pt0| == PageTables.WindowEntries
    requires |pd1| == PageTables.DirEntries && |pt1| == PageTables.WindowEntries
  {
    forall w: u32 :: NewWithAt(pd0, pt0, pd1, pt1, flags, w)
  }

  /**
   * Each directory slot other than 704 is present exactly when its window
   * entry is, and both name the same frame.
   */
  ghost predicate MountCoherent(pd: seq<u32>, pt: seq<u32>)
    requires |pd| == PageTables.DirEntries && |pt| == PageTables.WindowEntries
  {
    forall i :: 0 <= i < 1024 && i != MountSlot ==>
      (PageTables.IsPresent(pd[i]) <==> PageTables.IsPresent(pt[MountLeaf(i)]))
      && (PageTables.IsPresent(pd[i]) ==> PageBase(pd[i]) == PageBase(pt[MountLeaf(i)]))
  }

  /**
   * The window after table i was installed on frame f: the window entry of
   * table i maps f read-write unless it was already present, then table i is
   * zero-filled.
   */
  function Mounted(pt: seq<u32>, i: nat, f: u32): (r: seq<u32>)
    requires |pt| == PageTables.WindowEntries && i < 1024 && i != MountSlot
    ensures |r| == PageTables.WindowEntries
    ensures r[MountSelf] == pt[MountSelf]
  {
    var w := MountLeaf(i);
    assert MountSelf < i * 1024 || i * 1024 + 1024 <= MountSelf;
    var linked := pt[w := if PageTables.IsPresent(pt[w]) then pt[w] else PageTables.LeafEntry(f, ReadWrite)];
    StdLib.Filled(linked, i * 1024, 1024, 0)
  }

  /** Two addresses share a leaf exactly when they share a page; then they share a directory slot. */
  lemma SameLeaf(v: u32, w: u32)
    ensures PageTables.LeafIndex(w) == PageTables.LeafIndex(v) <==> PageBase(w) == PageBase(v)
    ensures PageBase(w) == PageBase(v) ==> PageTables.PdIndex(w) == PageTables.PdIndex(v)
  {
    PageTables.PageBaseIsLeaf(v);
    PageTables.PageBaseIsLeaf(w);
  }

  /**
   * Writing a present leaf for an unmapped v under a present slot maps v's
   * page with the leaf's frame and flags and changes no other address.
   */
  lemma LeafWritten(pd: seq<u32>, pt: seq<u32>, v: u32, e: u32)
    requires |pd| == PageTables.DirEntries && |pt| == PageTables.WindowEntries
    requires PageTables.IsPresent(pd[PageTables.PdIndex(v)]) && !MappedIn(pd, pt, v) && PageTables.IsPresent(e)
    ensures Within(pd, pt, pd, pt[PageTables.LeafIndex(v) := e])
    ensures forall w: u32 :: MappedIn(pd, pt[PageTables.LeafIndex(v) := e], w) <==>
      MappedIn(pd, pt, w) || PageBase(w) == PageBase(v)
    ensures forall w: u32 :: PageBase(w) == PageBase(v) ==>
      PageTables.Physaddr(pd, pt[PageTables.LeafIndex(v) := e], w) == PageBase(e) + Low12(w)
      && PageTables.FlagsOf(pd, pt[PageTables.LeafIndex(v) := e], w) == Low12(e)
  {
    forall w: u32 ensures PageTables.LeafIndex(w) == PageTables.LeafIndex(v) <==> PageBase(w) == PageBase(v)
      ensures PageBase(w) == PageBase(v) ==> PageTables.PdIndex(w) == PageTables.PdIndex(v)
    {
      SameLeaf(v, w);
    }
    forall w: u32 | PageBase(w) == PageBase(v)
      ensures PageTables.Physaddr(pd, pt[PageTables.LeafIndex(v) := e], w) == PageBase(e) + Low12(w)
    {
      PageTables.MappedTranslates(pd, pt, v, w, e);
    }
  }

  /** Zeroing v's leaf unmaps v's page and changes no other address. */
  lemma LeafCleared(pd: seq<u32>, pt: seq<u32>, v: u32)
    requires |pd| == PageTables.DirEntries && |pt| == PageTables.WindowEntries
    ensures Within(pd, pt[PageTables.LeafIndex(v) := 0], pd, pt)
    ensures forall w: u32 :: MappedIn(pd, pt[PageTables.LeafIndex(v) := 0], w) <==>
      MappedIn(pd, pt, w) && PageBase(w) != PageBase(v)
  {
    forall w: u32 ensures PageTables.LeafIndex(w) == PageTables.LeafIndex(v) <==> PageBase(w) == PageBase(v) {
      SameLeaf(v, w);
    }
  }

  /** Clearing the directory slot of an all-zero table changes no translation. */
  lemma SlotCleared(pd: seq<u32>, pt: seq<u32>, i: nat)
    requires |pd| == PageTables.DirEntries && |pt| == PageTables.WindowEntries && i < 1024
    requires PageTables.TableEmpty(pt, i)
    ensures Within(pd, pt, pd[i := 0], pt) && Within(pd[i := 0], pt, pd, pt)
  {
    forall w: u32 | PageTables.PdIndex(w) == i ensures !MappedIn(pd, pt, w) {
      assert pt[PageTables.LeafIndex(w)] == 0;
    }
  }

  /** What installing table i on frame f does to one address w. */
  lemma TableMountedAt(pd: seq<u32>, pt: seq<u32>, i: nat, f: u32, w: u32)
    requires |pd| == PageTables.DirEntries && |pt| == PageTables.WindowEntries
    requires i < 1024 && i != MountSlot && MountCoherent(pd, pt)
    requires !PageTables.IsPresent(pd[i]) && PageTables.IsPresent(pd[MountSlot])
    ensures var pd', pt' := pd[i := TableLink(f)], Mounted(pt, i, f);
      (MappedIn(pd', pt', w) <==> MappedIn(pd, pt, w) || PageBase(w) == MountPage(i))
      && (MappedIn(pd, pt, w) ==>
            PageTables.Physaddr(pd', pt', w) == PageTables.Physaddr(pd, pt, w)
            && PageTables.FlagsOf(pd', pt', w) == PageTables.FlagsOf(pd, pt, w))
      && (PageBase(w) == MountPage(i) ==>
            PageTables.FlagsOf(pd', pt', w) == PresentFlags(ReadWrite)
            && PageTables.Physaddr(pd', pt', w) == PageBase(f) + Low12(w))
  {
    var pd', pt' := pd[i := TableLink(f)], Mounted(pt, i, f);
    var k := PageTables.LeafIndex(w);
    SameLeaf(MountPage(i), w);
    if PageTables.PdIndex(w) == i {
      assert i * 1024 <= k < i * 1024 + 1024;
      assert pt'[k] == 0;
    } else {
      assert !(i * 1024 <= k < i * 1024 + 1024);
      if k == MountLeaf(i) {
        assert !PageTables.IsPresent(pt[MountLeaf(i)]);
        assert pt'[k] == PageTables.LeafEntry(f, ReadWrite);
        assert pt' == pt'[MountLeaf(i) := PageTables.LeafEntry(f, ReadWrite)];
        PageTables.MappedTranslates(pd', pt', MountPage(i), w, PageTables.LeafEntry(f, ReadWrite));
      } else {
        assert pt'[k] == pt[k];
      }
    }
  }

  /** Installing table i on frame f keeps the window coherent. */
  lemma MountKeepsCoherent(pd: seq<u32>, pt: seq<u32>, i: nat, f: u32)
    requires |pd| == PageTables.DirEntries && |pt| == PageTables.WindowEntries
    requires i < 1024 && i != MountSlot && MountCoherent(pd, pt) && !PageTables.IsPresent(pd[i])
    ensures MountCoherent(pd[i := TableLink(f)], Mounted(pt, i, f))
  {
    var pt' := Mounted(pt, i, f);
    forall j | 0 <= j < 1024 && j != MountSlot
      ensures pt'[MountLeaf(j)] == if j == i then PageTables.LeafEntry(f, ReadWrite) else pt[MountLeaf(j)]
    {
      assert !(i * 1024 <= MountLeaf(j) < i * 1024 + 1024);
    }
  }

  /**
   * Installing table i on frame f keeps every translation and adds exactly
   * the window page of table i, read-write.
   */
  lemma TableMounted(pd: seq<u32>, pt: seq<u32>, i: nat, f: u32)
    requires |pd| == PageTables.DirEntries && |pt| == PageTables.WindowEntries
    requires i < 1024 && i != MountSlot && MountCoherent(pd, pt)
    requires !PageTables.IsPresent(pd[i]) && PageTables.IsPresent(pd[MountSlot])
    ensures Within(pd, pt, pd[i := TableLink(f)], Mounted(pt, i, f))
    ensures forall w: u32 :: MappedIn(pd[i := TableLink(f)], Mounted(pt, i, f), w) <==>
      MappedIn(pd, pt, w) || PageBase(w) == MountPage(i)
    ensures NewWith(pd, pt, pd[i := TableLink(f)], Mounted(pt, i, f), ReadWrite)
  {
    forall w: u32 ensures var pd', pt' := pd[i := TableLink(f)], Mounted(pt, i, f);
      (MappedIn(pd', pt', w) <==> MappedIn(pd, pt, w) || PageBase(w) == MountPage(i))
      && (MappedIn(pd, pt, w) ==>
            PageTables.Physaddr(pd', pt', w) == PageTables.Physaddr(pd, pt, w)
            && PageTables.FlagsOf(pd', pt', w) == PageTables.FlagsOf(pd, pt, w))
      && (PageBase(w) == MountPage(i) ==> PageTables.FlagsOf(pd', pt', w) == PresentFlags(ReadWrite))
    {
      TableMountedAt(pd, pt, i, f, w);
    }
  }

  /** Tearing down table i (directory slot and window entry zeroed) keeps the window coherent. */
  lemma TableUnmounted(pd: seq<u32>, pt: seq<u32>, i: nat)
    requires |pd| == PageTables.DirEntries && |pt| == PageTables.WindowEntries
    requires i < 1024 && i != MountSlot && MountCoherent(pd, pt)
    ensures MountCoherent(pd[i := 0], pt[MountLeaf(i) := 0])
  {
    forall j | 0 <= j < 1024 && j != MountSlot && j != i
      ensures pt[MountLeaf(i) := 0][MountLeaf(j)] == pt[MountLeaf(j)]
    {
    }
  }

  /** Writing or clearing a leaf outside the window's own table keeps the window coherent. */
  lemma OutsideKeepsCoherent(pd: seq<u32>, pt: seq<u32>, k: nat, e: u32)
    requires |pd| == PageTables.DirEntries && |pt| == PageTables.WindowEntries && k < PageTables.WindowEntries
    requires k / 1024 != MountSlot && MountCoherent(pd, pt)
    ensures MountCoherent(pd, pt[k := e])
  {
    forall j | 0 <= j < 1024 && j != MountSlot ensures pt[k := e][MountLeaf(j)] == pt[MountLeaf(j)] {
    }
  }

  /**
   * What one map_page call does to the translations: none is lost or
   * changed, the new ones carry `flags` when those are READ_WRITE, and once
   * v is newly mapped its whole page maps onto phys's frame.
   */
  ghost predicate MapResult(pd0: seq<u32>, pt0: seq<u32>, pd1: seq<u32>, pt1: seq<u32>, v: u32, phys: u32, flags: u32)
    requires |pd0| == PageTables.DirEntries && |pt0| == PageTables.WindowEntries
    requires |pd1| == PageTables.DirEntries && |pt1| == PageTables.WindowEntries
  {
    Within(pd0, pt0, pd1, pt1)
    && (flags == ReadWrite ==> NewWith(pd0, pt0, pd1, pt1, ReadWrite))
    && (MappedIn(pd1, pt1, v) && !MappedIn(pd0, pt0, v) ==>
          forall w: u32 :: PageBase(w) == PageBase(v) ==> PageTables.Physaddr(pd1, pt1, w) == PageBase(phys) + Low12(w))
  }

  /** map_page under a present slot and an absent leaf. */
  lemma LeafMapResult(pd: seq<u32>, pt: seq<u32>, v: u32, phys: u32, flags: u32)
    requires |pd| == PageTables.DirEntries && |pt| == PageTables.WindowEntries
    requires PageTables.IsPresent(pd[PageTables.PdIndex(v)]) && !MappedIn(pd, pt, v)
    ensures var pt' := pt[PageTables.LeafIndex(v) := PageTables.LeafEntry(phys, flags)];
      MappedIn(pd, pt', v) && MapResult(pd, pt, pd, pt', v, phys, flags)
  {
    LeafWritten(pd, pt, v, PageTables.LeafEntry(phys, flags));
  }

  /** map_page under an absent slot, once a table was installed on frame f. */
  lemma InstallMapResult(pd: seq<u32>, pt: seq<u32>, v: u32, f: u32, phys: u32, flags: u32)
    requires |pd| == PageTables.DirEntries && |pt| == PageTables.WindowEntries
    requires PageTables.PdIndex(v) != MountSlot && MountCoherent(pd, pt)
    requires !PageTables.IsPresent(pd[PageTables.PdIndex(v)]) && PageTables.IsPresent(pd[MountSlot])
    ensures var i := PageTables.PdIndex(v);
      var pd', pt' := pd[i := TableLink(f)], Mounted(pt, i, f)[PageTables.LeafIndex(v) := PageTables.LeafEntry(phys, flags)];
      MappedIn(pd', pt', v) && MapResult(pd, pt, pd', pt', v, phys, flags) && MountCoherent(pd', pt')
  {
    var i, k, e := PageTables.PdIndex(v), PageTables.LeafIndex(v), PageTables.LeafEntry(phys, flags);
    var pd1, pt1 := pd[i := TableLink(f)], Mounted(pt, i, f);
    var pt2: seq<u32> := pt1[k := e];
    TableMounted(pd, pt, i, f);
    MountKeepsCoherent(pd, pt, i, f);
    assert i * 1024 <= k < i * 1024 + 1024;
    assert pt1[k] == 0;
    LeafWritten(pd1, pt1, v, e);
    OutsideKeepsCoherent(pd1, pt1, k, e);
    WithinTrans(pd, pt, pd1, pt1, pd1, pt2);
  }

  /** The top directory slot, where the kernel break starts. */
  const TopSlot: nat := 1023
  /**
   * The table get_kbrk's inner scan reads: the window pointer is taken from
   * ptindex, which is 1023 at that point, so it is table 1023 whatever the
   * directory slot under inspection.
   */
  const ScannedTable: nat := 1023

  /** Entry k of the scanned table. */
  function Scanned(pt: seq<u32>, k: nat): u32
    requires |pt| == PageTables.WindowEntries && k < 1024
  {
    pt[ScannedTable * 1024 + k]
  }

  /** Highest entry j' in 1..j of the scanned table that is not present, or 0. */
  function TopAbsentLeaf(pt: seq<u32>, j: nat): (r: nat)
    requires |pt| == PageTables.WindowEntries && j < 1024
    ensures r <= j
    ensures r > 0 ==> !PageTables.IsPresent(Scanned(pt, r))
    ensures forall k :: r < k <= j ==> PageTables.IsPresent(Scanned(pt, k))
  {
    if j == 0 then 0
    else if !PageTables.IsPresent(Scanned(pt, j)) then j
    else TopAbsentLeaf(pt, j - 1)
  }

  /** Highest directory slot p' in 1..p that is not present, or 0. */
  function TopAbsentSlot(pd: seq<u32>, p: nat): (r: nat)
    requires |pd| == PageTables.DirEntries && p < 1024
    ensures r <= p
    ensures r > 0 ==> !PageTables.IsPresent(pd[r])
    ensures forall k :: r < k <= p ==> PageTables.IsPresent(pd[k])
  {
    if p == 0 then 0
    else if !PageTables.IsPresent(pd[p]) then p
    else TopAbsentSlot(pd, p - 1)
  }

  /**
   * The (pdindex, ptindex) pair get_kbrk's downward scan stops at: slot 1023
   * absent stops at once; otherwise the first absent entry of the scanned
   * table; otherwise the first absent slot below 1023 with ptindex 1023;
   * otherwise (0, 0).
   */
  function KbrkIndexes(pd: seq<u32>, pt: seq<u32>): (r: (nat, nat))
    requires |pd| == PageTables.DirEntries && |pt| == PageTables.WindowEntries
    ensures r.0 < 1024 && r.1 < 1024
  {
    if !PageTables.IsPresent(pd[TopSlot]) then (TopSlot, 1023)
    else if TopAbsentLeaf(pt, 1023) != 0 then (TopSlot, TopAbsentLeaf(pt, 1023))
    else
      var p := TopAbsentSlot(pd, TopSlot - 1);
      (p, if p == 0 then 0 else 1023)
  }

  /** The address get_kbrk returns: `~0` for (1023, 1023), else `(pdindex << 22) | (ptindex << 12)`. */
  function KbrkAddress(pd: seq<u32>, pt: seq<u32>): (r: u32)
    requires |pd| == PageTables.DirEntries && |pt| == PageTables.WindowEntries
    ensures r == NoBreak || (r % PageSize == 0 && r < TopPage)
  {
    var (p, j) := KbrkIndexes(pd, pt);
    if p == TopSlot && j == 1023 then NoBreak else p * 0x40_0000 + j * PageSize
  }

  /** get_kbrk reports no break exactly when slot 1023, or its last page, is not mapped. */
  lemma KbrkNone(pd: seq<u32>, pt: seq<u32>)
    requires |pd| == PageTables.DirEntries && |pt| == PageTables.WindowEntries
    ensures KbrkAddress(pd, pt) == NoBreak <==>
      !PageTables.IsPresent(pd[TopSlot]) || !PageTables.IsPresent(Scanned(pt, 1023))
  {
    var (p, j) := KbrkIndexes(pd, pt);
    assert p * 0x40_0000 + j * PageSize != NoBreak;
  }

  /**
   * Inside slot 1023 the break is the highest hole: the page it names is not
   * mapped and every page above it in the slot is.
   */
  lemma KbrkTopHole(pd: seq<u32>, pt: seq<u32>)
    requires |pd| == PageTables.DirEntries && |pt| == PageTables.WindowEntries
    requires KbrkAddress(pd, pt) != NoBreak && PageTables.PdIndex(KbrkAddress(pd, pt)) == TopSlot
    ensures !MappedIn(pd, pt, KbrkAddress(pd, pt))
    ensures forall w: u32 :: PageTables.PdIndex(w) == TopSlot && PageTables.PtIndex(w) > PageTables.PtIndex(KbrkAddress(pd, pt)) ==>
      MappedIn(pd, pt, w)
  {
    var (p, j) := KbrkIndexes(pd, pt);
    var r := KbrkAddress(pd, pt);
    assert r == p * 0x40_0000 + j * PageSize;
    assert PageTables.PdIndex(r) == p && PageTables.PtIndex(r) == j;
    assert PageTables.LeafIndex(r) == ScannedTable * 1024 + j;
    forall w: u32 | PageTables.PdIndex(w) == TopSlot && PageTables.PtIndex(w) > j
      ensures MappedIn(pd, pt, w)
    {
      assert pt[PageTables.LeafIndex(w)] == Scanned(pt, PageTables.PtIndex(w));
    }
  }

  /** Two windows that agree on table 1023 give the same scan result for entries 1..j. */
  lemma {:induction false} TopAbsentLeafReadsTable(pt: seq<u32>, pt': seq<u32>, j: nat)
    requires |pt| == PageTables.WindowEntries && |pt'| == PageTables.WindowEntries && j < 1024
    requires forall k :: ScannedTable * 1024 <= k < ScannedTable * 1024 + 1024 ==> pt[k] == pt'[k]
    ensures TopAbsentLeaf(pt, j) == TopAbsentLeaf(pt', j)
  {
    if j > 0 {
      TopAbsentLeafReadsTable(pt, pt', j - 1);
    }
  }

  /**
   * get_kbrk as written reads no page table but table 1023: two address
   * spaces with the same directory and the same table 1023 get the same
   * break, whatever their other tables map.
   */
  lemma KbrkReadsTopTableOnly(pd: seq<u32>, pt: seq<u32>, pt': seq<u32>)
    requires |pd| == PageTables.DirEntries && |pt| == PageTables.WindowEntries && |pt'| == PageTables.WindowEntries
    requires forall k :: ScannedTable * 1024 <= k < ScannedTable * 1024 + 1024 ==> pt[k] == pt'[k]
    ensures KbrkAddress(pd, pt) == KbrkAddress(pd, pt')
  {
    TopAbsentLeafReadsTable(pt, pt', 1023);
  }

  lemma NewWithTrans(pd0: seq<u32>, pt0: seq<u32>, pd1: seq<u32>, pt1: seq<u32>, pd2: seq<u32>, pt2: seq<u32>, flags: u32)
    requires |pd0| == PageTables.DirEntries && |pt0| == PageTables.WindowEntries
    requires |pd1| == PageTables.DirEntries && |pt1| == PageTables.WindowEntries
    requires |pd2| == PageTables.DirEntries && |pt2| == PageTables.WindowEntries
    requires NewWith(pd0, pt0, pd1, pt1, flags) && NewWith(pd1, pt1, pd2, pt2, flags) && Within(pd1, pt1, pd2, pt2)
    ensures NewWith(pd0, pt0, pd2, pt2, flags)
  {
    forall w: u32 ensures NewWithAt(pd0, pt0, pd2, pt2, flags, w) {
      assert NewWithAt(pd0, pt0, pd1, pt1, flags, w) && NewWithAt(pd1, pt1, pd2, pt2, flags, w);
      assert WithinAt(pd1, pt1, pd2, pt2, w);
    }
  }

  /** Addresses of one page translate alike. */
  lemma SamePageMapped(pd: seq<u32>, pt: seq<u32>, v: u32, w: u32)
    requires |pd| == PageTables.DirEntries && |pt| == PageTables.WindowEntries
    requires PageBase(w) == PageBase(v)
    ensures MappedIn(pd, pt, w) == MappedIn(pd, pt, v)
  {
    SameLeaf(v, w);
  }

  /** Page starts are 4096 apart: below the next page start means at or below this one. */
  lemma PageOrder(w: u32, c: int)
    requires c % PageSize == 0
    ensures PageBase(w) < c + PageSize ==> PageBase(w) <= c
    ensures c <= w ==> c <= PageBase(w)
  {
    var q := w / PageSize;
    assert PageBase(w) == q * PageSize;
    var d := c / PageSize;
    assert c == d * PageSize;
    if PageBase(w) < c + PageSize {
      assert q < d + 1;
    }
    if c <= w {
      assert d * PageSize <= q * PageSize + w % PageSize;
      assert d <= q;
    }
  }

  /** The page after cur's, when cur is not in the last page. */
  lemma PageStep(cur: u32)
    requires cur + PageSize < Modulus
    ensures PageBase(cur + PageSize) == PageBase(cur) + PageSize
  {
  }

  /** GET_BEGINGIN_PREV_PAGE: `((page >> 12) - 1) << 12` in 32 bits. Page 0 wraps to the last page. */
  function PrevPage(m: u32): (r: u32)
    ensures PageBase(m) >= PageSize ==> r == PageBase(m) - PageSize
    ensures PageBase(m) == 0 ==> r == TopPage
  {
    Wrap((m / PageSize - 1) * PageSize)
  }

  /** Every address from min whose page starts below `bound` translates. */
  ghost predicate MappedFrom(pd: seq<u32>, pt: seq<u32>, min: u32, bound: int)
    requires |pd| == PageTables.DirEntries && |pt| == PageTables.WindowEntries
  {
    forall w: u32 {:trigger MappedIn(pd, pt, w)} :: min <= w && PageBase(w) < bound ==> MappedIn(pd, pt, w)
  }

  /** One more page mapped at cur extends MappedFrom by a page, keeping what was mapped. */
  lemma MappedFromStep(pd0: seq<u32>, pt0: seq<u32>, pd1: seq<u32>, pt1: seq<u32>, min: u32, cur: u32)
    requires |pd0| == PageTables.DirEntries && |pt0| == PageTables.WindowEntries
    requires |pd1| == PageTables.DirEntries && |pt1| == PageTables.WindowEntries
    requires MappedFrom(pd0, pt0, min, PageBase(cur)) && Within(pd0, pt0, pd1, pt1) && MappedIn(pd1, pt1, cur)
    ensures MappedFrom(pd1, pt1, min, PageBase(cur) + PageSize)
  {
    forall w: u32 | min <= w && PageBase(w) < PageBase(cur) + PageSize
      ensures MappedIn(pd1, pt1, w)
    {
      PageOrder(w, PageBase(cur));
      if PageBase(w) == PageBase(cur) {
        SamePageMapped(pd1, pt1, cur, w);
      } else {
        assert WithinAt(pd0, pt0, pd1, pt1, w);
      }
    }
  }

  /**
   * One read-write map_page of alloc_kbrk's walk at cur keeps the walk's
   * invariant: still only additions, all read-write, and the mapped range
   * grows by cur's page once cur translates.
   */
  lemma AllocStep(pdA: seq<u32>, ptA: seq<u32>, pd0: seq<u32>, pt0: seq<u32>, pd1: seq<u32>, pt1: seq<u32>,
                  min: u32, cur: u32, phys: u32)
    requires |pdA| == PageTables.DirEntries && |ptA| == PageTables.WindowEntries
    requires |pd0| == PageTables.DirEntries && |pt0| == PageTables.WindowEntries
    requires |pd1| == PageTables.DirEntries && |pt1| == PageTables.WindowEntries
    requires Within(pdA, ptA, pd0, pt0) && NewWith(pdA, ptA, pd0, pt0, ReadWrite)
    requires MapResult(pd0, pt0, pd1, pt1, cur, phys, ReadWrite)
    ensures Within(pdA, ptA, pd1, pt1) && NewWith(pdA, ptA, pd1, pt1, ReadWrite)
    ensures MappedFrom(pd0, pt0, min, PageBase(cur)) && MappedIn(pd1, pt1, cur) ==>
      MappedFrom(pd1, pt1, min, PageBase(cur) + PageSize)
    ensures MappedIn(pd0, pt0, TopPage) ==> MappedIn(pd1, pt1, TopPage)
  {
    assert WithinAt(pd0, pt0, pd1, pt1, TopPage);
    NewWithTrans(pdA, ptA, pd0, pt0, pd1, pt1, ReadWrite);
    WithinTrans(pdA, ptA, pd0, pt0, pd1, pt1);
    if MappedFrom(pd0, pt0, min, PageBase(cur)) && MappedIn(pd1, pt1, cur) {
      MappedFromStep(pd0, pt0, pd1, pt1, min, cur);
    }
  }

  /** Once the walk passed an aligned bound hi, every address of [min, hi) translates. */
  lemma MappedFromDone(pd: seq<u32>, pt: seq<u32>, min: u32, cur: u32, hi: u32)
    requires |pd| == PageTables.DirEntries && |pt| == PageTables.WindowEntries
    requires MappedFrom(pd, pt, min, PageBase(cur)) && hi % PageSize == 0 && hi <= cur
    ensures forall w: u32 :: min <= w < hi ==> MappedIn(pd, pt, w)
  {
    PageOrder(cur, hi);
  }

  /**
   * What free_kbrk's walk has achieved for address w once it has handled
   * every page from min's down to the one starting at `done`, compared with
   * the state (pdA, ptA) it started from: a handled page is unmapped and the
   * frame it mapped is in `free`; a page below `done`, or above min's and
   * outside the window, is mapped as it was.
   */
  ghost predicate FreeWalkAt(pdA: seq<u32>, ptA: seq<u32>, pd: seq<u32>, pt: seq<u32>, min: u32, done: int, free: set<nat>, w: u32)
    requires |pdA| == PageTables.DirEntries && |ptA| == PageTables.WindowEntries
    requires |pd| == PageTables.DirEntries && |pt| == PageTables.WindowEntries
  {
    (done <= PageBase(w) <= PageBase(min) ==> !MappedIn(pd, pt, w))
    && (PageBase(w) < done ==> MappedIn(pd, pt, w) == MappedIn(pdA, ptA, w))
    && (PageBase(min) < PageBase(w) && PageTables.PdIndex(w) != MountSlot ==> MappedIn(pd, pt, w) == MappedIn(pdA, ptA, w))
    && (done <= PageBase(w) <= PageBase(min) && MappedIn(pdA, ptA, w) ==>
          FrameBitmap.FrameOf(PageTables.Physaddr(pdA, ptA, w)) in free)
  }

  /** The walk so far only removed translations, and FreeWalkAt holds everywhere. */
  ghost predicate FreeWalk(pdA: seq<u32>, ptA: seq<u32>, pd: seq<u32>, pt: seq<u32>, min: u32, done: int, free: set<nat>)
    requires |pdA| == PageTables.DirEntries && |ptA| == PageTables.WindowEntries
    requires |pd| == PageTables.DirEntries && |pt| == PageTables.WindowEntries
  {
    Within(pd, pt, pdA, ptA) && forall w: u32 :: FreeWalkAt(pdA, ptA, pd, pt, min, done, free, w)
  }

  /**
   * What unmapping m's page does to w: w is unmapped if it shares m's page,
   * and mapped as before if it lies on another page outside the window.
   */
  ghost predicate UnmapAt(pd0: seq<u32>, pt0: seq<u32>, pd1: seq<u32>, pt1: seq<u32>, m: u32, w: u32)
    requires |pd0| == PageTables.DirEntries && |pt0| == PageTables.WindowEntries
    requires |pd1| == PageTables.DirEntries && |pt1| == PageTables.WindowEntries
  {
    (PageBase(w) == PageBase(m) ==> !MappedIn(pd1, pt1, w))
    && (PageTables.PdIndex(w) != MountSlot && PageBase(w) != PageBase(m) ==> MappedIn(pd1, pt1, w) == MappedIn(pd0, pt0, w))
  }

  /** A mapped address translates into the page its leaf names. */
  lemma PhysaddrPage(pd: seq<u32>, pt: seq<u32>, v: u32)
    requires |pd| == PageTables.DirEntries && |pt| == PageTables.WindowEntries && MappedIn(pd, pt, v)
    ensures PageBase(PageTables.Physaddr(pd, pt, v)) == PageBase(pt[PageTables.LeafIndex(v)])
  {
    var e := pt[PageTables.LeafIndex(v)];
    PageTables.AlignedPlus(PageBase(e), Low12(v));
  }

  lemma FreeWalkStepAt(pdA: seq<u32>, ptA: seq<u32>, pd0: seq<u32>, pt0: seq<u32>, pd1: seq<u32>, pt1: seq<u32>,
                       min: u32, m: u32, free0: set<nat>, free1: set<nat>, w: u32)
    requires |pdA| == PageTables.DirEntries && |ptA| == PageTables.WindowEntries
    requires |pd0| == PageTables.DirEntries && |pt0| == PageTables.WindowEntries
    requires |pd1| == PageTables.DirEntries && |pt1| == PageTables.WindowEntries
    requires PageBase(m) <= PageBase(min) && m < MountBase
    requires FreeWalkAt(pdA, ptA, pd0, pt0, min, PageBase(m) + PageSize, free0, w)
    requires FreeWalkAt(pdA, ptA, pd0, pt0, min, PageBase(m) + PageSize, free0, m)
    requires WithinAt(pd0, pt0, pdA, ptA, m) && WithinAt(pd1, pt1, pd0, pt0, w)
    requires UnmapAt(pd0, pt0, pd1, pt1, m, w)
    requires free1 == free0 + {FrameBitmap.FrameOf(PageTables.Physaddr(pd0, pt0, m))}
    ensures FreeWalkAt(pdA, ptA, pd1, pt1, min, PageBase(m), free1, w)
  {
    PageOrder(w, PageBase(m));
    if PageBase(w) < PageBase(m) {
      assert PageTables.PdIndex(w) < MountSlot;
    }
    if PageBase(w) == PageBase(m) && MappedIn(pdA, ptA, w) {
      SamePageMapped(pdA, ptA, m, w);
      SameLeaf(m, w);
      PhysaddrPage(pdA, ptA, w);
      PhysaddrPage(pdA, ptA, m);
      FrameBitmap.SamePageSameFrame(PageTables.Physaddr(pdA, ptA, w), PageTables.Physaddr(pdA, ptA, m));
    }
  }

  /** Before the walk nothing is handled yet. */
  lemma FreeWalkStart(pdA: seq<u32>, ptA: seq<u32>, min: u32, free: set<nat>)
    requires |pdA| == PageTables.DirEntries && |ptA| == PageTables.WindowEntries
    ensures FreeWalk(pdA, ptA, pdA, ptA, min, PageBase(min) + PageSize, free)
  {
    var done := PageBase(min) + PageSize;
    forall w: u32 ensures FreeWalkAt(pdA, ptA, pdA, ptA, min, done, free, w) {
      PageOrder(w, PageBase(min));
    }
  }

  /** Handling the page of m (unmapping it and freeing the frame it mapped) moves the walk down a page. */
  lemma FreeWalkStep(pdA: seq<u32>, ptA: seq<u32>, pd0: seq<u32>, pt0: seq<u32>, pd1: seq<u32>, pt1: seq<u32>,
                     min: u32, m: u32, free0: set<nat>, free1: set<nat>)
    requires |pdA| == PageTables.DirEntries && |ptA| == PageTables.WindowEntries
    requires |pd0| == PageTables.DirEntries && |pt0| == PageTables.WindowEntries
    requires |pd1| == PageTables.DirEntries && |pt1| == PageTables.WindowEntries
    requires PageBase(m) <= PageBase(min) && m < MountBase
    requires FreeWalk(pdA, ptA, pd0, pt0, min, PageBase(m) + PageSize, free0)
    requires Within(pd1, pt1, pd0, pt0)
    requires forall w: u32 :: UnmapAt(pd0, pt0, pd1, pt1, m, w)
    requires free1 == free0 + {FrameBitmap.FrameOf(PageTables.Physaddr(pd0, pt0, m))}
    ensures FreeWalk(pdA, ptA, pd1, pt1, min, PageBase(m), free1)
  {
    WithinTrans(pd1, pt1, pd0, pt0, pdA, ptA);
    forall w: u32 ensures FreeWalkAt(pdA, ptA, pd1, pt1, min, PageBase(m), free1, w) {
      FreeWalkStepAt(pdA, ptA, pd0, pt0, pd1, pt1, min, m, free0, free1, w);
    }
  }

  /**
   * The page of w is one the upward walk from min visits before reaching
   * `bound`: the walk steps through min, min + 4096, ... while below bound,
   * so it visits w's page when that page's start plus min's offset is below
   * bound.
   */
  predicate Visited(min: u32, bound: int, w: u32)
  {
    PageBase(min) <= PageBase(w) && PageBase(w) + Low12(min) < bound
  }

  /**
   * The corrected free walk's progress at w: a visited page is unmapped and
   * the frame it mapped is in `free`; any other page outside the window is
   * mapped as it was in (pdA, ptA).
   */
  ghost predicate FreeUpAt(pdA: seq<u32>, ptA: seq<u32>, pd: seq<u32>, pt: seq<u32>, min: u32, bound: int, free: set<nat>, w: u32)
    requires |pdA| == PageTables.DirEntries && |ptA| == PageTables.WindowEntries
    requires |pd| == PageTables.DirEntries && |pt| == PageTables.WindowEntries
  {
    (Visited(min, bound, w) ==> !MappedIn(pd, pt, w))
    && (Visited(min, bound, w) && MappedIn(pdA, ptA, w) ==> FrameBitmap.FrameOf(PageTables.Physaddr(pdA, ptA, w)) in free)
    && (!Visited(min, bound, w) && PageTables.PdIndex(w) != MountSlot ==> MappedIn(pd, pt, w) == MappedIn(pdA, ptA, w))
  }

  /** Only translations were removed, and FreeUpAt holds everywhere. */
  ghost predicate FreeUp(pdA: seq<u32>, ptA: seq<u32>, pd: seq<u32>, pt: seq<u32>, min: u32, bound: int, free: set<nat>)
    requires |pdA| == PageTables.DirEntries && |ptA| == PageTables.WindowEntries
    requires |pd| == PageTables.DirEntries && |pt| == PageTables.WindowEntries
  {
    Within(pd, pt, pdA, ptA) && forall w: u32 :: FreeUpAt(pdA, ptA, pd, pt, min, bound, free, w)
  }

  /** Before the walk no page is visited. */
  lemma FreeUpStart(pdA: seq<u32>, ptA: seq<u32>, min: u32, free: set<nat>)
    requires |pdA| == PageTables.DirEntries && |ptA| == PageTables.WindowEntries
    ensures FreeUp(pdA, ptA, pdA, ptA, min, min, free)
  {
    forall w: u32 ensures FreeUpAt(pdA, ptA, pdA, ptA, min, min, free, w) {
      if Visited(min, min, w) {
        PageOrder(w, PageBase(min));
      }
    }
  }

  /** Where the walk stands at cur (a step of 4096 from min), w's page is visited exactly when it lies below cur's. */
  lemma VisitedBelow(min: u32, cur: u32, w: u32)
    requires min <= cur && Low12(cur) == Low12(min)
    ensures Visited(min, cur, w) <==> PageBase(min) <= PageBase(w) < PageBase(cur)
    ensures Visited(min, cur + PageSize, w) <==> PageBase(min) <= PageBase(w) <= PageBase(cur)
  {
    PageOrder(w, PageBase(cur));
  }

  lemma FreeUpStepAt(pdA: seq<u32>, ptA: seq<u32>, pd0: seq<u32>, pt0: seq<u32>, pd1: seq<u32>, pt1: seq<u32>,
                     min: u32, cur: u32, free0: set<nat>, free1: set<nat>, w: u32)
    requires |pdA| == PageTables.DirEntries && |ptA| == PageTables.WindowEntries
    requires |pd0| == PageTables.DirEntries && |pt0| == PageTables.WindowEntries
    requires |pd1| == PageTables.DirEntries && |pt1| == PageTables.WindowEntries
    requires min <= cur && Low12(cur) == Low12(min) && PageTables.PdIndex(cur) != MountSlot
    requires FreeUpAt(pdA, ptA, pd0, pt0, min, cur, free0, w) && FreeUpAt(pdA, ptA, pd0, pt0, min, cur, free0, cur)
    requires WithinAt(pd0, pt0, pdA, ptA, cur) && WithinAt(pd1, pt1, pd0, pt0, w) && UnmapAt(pd0, pt0, pd1, pt1, cur, w)
    requires free1 == free0 + {FrameBitmap.FrameOf(PageTables.Physaddr(pd0, pt0, cur))}
    ensures FreeUpAt(pdA, ptA, pd1, pt1, min, cur + PageSize, free1, w)
  {
    VisitedBelow(min, cur, w);
    VisitedBelow(min, cur, cur);
    assert !Visited(min, cur, cur);
    if PageBase(w) == PageBase(cur) {
      if MappedIn(pdA, ptA, w) {
        SamePageMapped(pdA, ptA, cur, w);
        assert MappedIn(pd0, pt0, cur);
        SameLeaf(cur, w);
        FrameBitmap.SamePageSameFrame(PageTables.Physaddr(pdA, ptA, w), PageTables.Physaddr(pdA, ptA, cur));
      }
    } else if Visited(min, cur, w) {
      assert free0 <= free1;
    } else {
      assert !Visited(min, cur + PageSize, w);
    }
  }

  /** Freeing cur's page moves the corrected walk up a page. */
  lemma FreeUpStep(pdA: seq<u32>, ptA: seq<u32>, pd0: seq<u32>, pt0: seq<u32>, pd1: seq<u32>, pt1: seq<u32>,
                   min: u32, cur: u32, free0: set<nat>, free1: set<nat>)
    requires |pdA| == PageTables.DirEntries && |ptA| == PageTables.WindowEntries
    requires |pd0| == PageTables.DirEntries && |pt0| == PageTables.WindowEntries
    requires |pd1| == PageTables.DirEntries && |pt1| == PageTables.WindowEntries
    requires min <= cur && Low12(cur) == Low12(min) && PageTables.PdIndex(cur) != MountSlot
    requires FreeUp(pdA, ptA, pd0, pt0, min, cur, free0)
    requires Within(pd1, pt1, pd0, pt0)
    requires forall w: u32 :: UnmapAt(pd0, pt0, pd1, pt1, cur, w)
    requires free1 == free0 + {FrameBitmap.FrameOf(PageTables.Physaddr(pd0, pt0, cur))}
    ensures FreeUp(pdA, ptA, pd1, pt1, min, cur + PageSize, free1)
  {
    WithinTrans(pd1, pt1, pd0, pt0, pdA, ptA);
    var bound := cur + PageSize;
    forall w: u32 ensures FreeUpAt(pdA, ptA, pd1, pt1, min, bound, free1, w) {
      FreeUpStepAt(pdA, ptA, pd0, pt0, pd1, pt1, min, cur, free0, free1, w);
    }
  }

  /** The arithmetic of one step of the corrected walk. */
  lemma UpStep(min: u32, cur: u32, max: u32)
    requires min <= cur < max <= TopPage && Low12(cur) == Low12(min)
    requires MountEnd <= min || max <= MountBase
    ensures PageTables.PdIndex(cur) != MountSlot && Visited(min, max, cur)
    ensures cur + PageSize < Modulus && Low12(cur + PageSize) == Low12(min)
  {
    PageOrder(cur, PageBase(min));
  }

  /** Once cur has reached max, the pages visited before cur are those visited before max. */
  lemma FreeUpDone(pdA: seq<u32>, ptA: seq<u32>, pd: seq<u32>, pt: seq<u32>, min: u32, max: u32, cur: u32, free: set<nat>)
    requires |pdA| == PageTables.DirEntries && |ptA| == PageTables.WindowEntries
    requires |pd| == PageTables.DirEntries && |pt| == PageTables.WindowEntries
    requires min <= cur && Low12(cur) == Low12(min) && max <= cur && (cur == min || cur < max + PageSize)
    requires FreeUp(pdA, ptA, pd, pt, min, cur, free)
    ensures FreeUp(pdA, ptA, pd, pt, min, max, free)
  {
    forall w: u32 ensures FreeUpAt(pdA, ptA, pd, pt, min, max, free, w) {
      assert FreeUpAt(pdA, ptA, pd, pt, min, cur, free, w);
      VisitedBelow(min, cur, w);
      PageOrder(w, PageBase(cur));
    }
  }

  /**
   * The as-written free_kbrk misses the intended pages: freeing from a break
   * at 0x1000 up to 0x3000 unmaps page 0 and leaves page 0x2000, which lies
   * in the range, mapped.
   */
  lemma FreeKbrkMissesRange(pdA: seq<u32>, ptA: seq<u32>, pd: seq<u32>, pt: seq<u32>, free: set<nat>)
    requires |pdA| == PageTables.DirEntries && |ptA| == PageTables.WindowEntries
    requires |pd| == PageTables.DirEntries && |pt| == PageTables.WindowEntries
    requires FreeWalk(pdA, ptA, pd, pt, 0x1000, 0, free)
    ensures !MappedIn(pd, pt, 0)
    ensures MappedIn(pd, pt, 0x2000) == MappedIn(pdA, ptA, 0x2000)
    ensures Visited(0x1000, 0x3000, 0x2000) && !Visited(0x1000, 0x3000, 0)
  {
    assert FreeWalkAt(pdA, ptA, pd, pt, 0x1000, 0, free, 0);
    assert FreeWalkAt(pdA, ptA, pd, pt, 0x1000, 0, free, 0x2000);
  }

  /**
   * The state map_page and alloc_kbrk work on, as values: the directory,
   * the window and the frame bitmap.
   */
  datatype Memory = Memory(pd: seq<u32>, pt: seq<u32>, bits: seq<bv8>)

  predicate Sized(m: Memory)
  {
    |m.pd| == PageTables.DirEntries && |m.pt| == PageTables.WindowEntries && |m.bits| == FrameBitmap.BitmapBytes
  }

  /** What KernelSpace.Valid keeps: the window mounted and coherent. */
  ghost predicate Kept(m: Memory)
  {
    Sized(m) && PageTables.IsPresent(m.pd[MountSlot]) && PageTables.IsPresent(m.pt[MountSelf])
    && MountCoherent(m.pd, m.pt)
  }

  /** bitmap_find_free_page as a 32-bit address: the lowest free frame's, or 0. */
  function FreeFrame(bits: seq<bv8>): (p: u32)
    requires |bits| == FrameBitmap.BitmapBytes
    ensures p == FrameBitmap.FreePageAddress(bits) && p % PageSize == 0
    ensures p != 0 ==> FrameBitmap.FrameOf(p) < FrameBitmap.FrameCount
  {
    FrameBitmap.FreePageAddress(bits)
  }

  /** The frame bitmap_find_free_page reports is free. */
  lemma FreeFrameIsFree(bits: seq<bv8>)
    requires |bits| == FrameBitmap.BitmapBytes && FreeFrame(bits) != 0
    ensures FrameBitmap.FrameOf(FreeFrame(bits)) in FrameBitmap.FreeSet(bits)
  {
  }

  /**
   * map_page on values: nothing when v already translates or when a table
   * is needed and no frame is free; otherwise the leaf is written, after
   * a table was installed on the lowest free frame if v's slot was absent.
   */
  function MapPageSpec(m: Memory, phys: u32, v: u32, flags: u32): (r: Memory)
    requires Sized(m)
    requires PageTables.IsPresent(m.pd[PageTables.PdIndex(v)]) || PageTables.PdIndex(v) != MountSlot
    ensures Sized(r)
  {
    var i, k := PageTables.PdIndex(v), PageTables.LeafIndex(v);
    if PageTables.IsPresent(m.pd[i]) then
      if MappedIn(m.pd, m.pt, v) then m else m.(pt := m.pt[k := PageTables.LeafEntry(phys, flags)])
    else
      var g := FreeFrame(m.bits);
      if g == 0 then m
      else Memory(m.pd[i := TableLink(g)], Mounted(m.pt, i, g)[k := PageTables.LeafEntry(phys, flags)],
                  FrameBitmap.WithUsed(m.bits, FrameBitmap.FrameOf(g)))
  }

  /**
   * One page of alloc_kbrk on values: with a free frame, mark it used and
   * map v's page onto it; the flag says whether there was one.
   */
  function AllocPageSpec(m: Memory, v: u32, flags: u32): (r: (Memory, bool))
    requires Sized(m) && PageTables.PdIndex(v) != MountSlot
    ensures Sized(r.0)
  {
    var f := FreeFrame(m.bits);
    if f == 0 then (m, false)
    else (MapPageSpec(m.(bits := FrameBitmap.WithUsed(m.bits, FrameBitmap.FrameOf(f))), f, v, flags), true)
  }

  /** alloc_kbrk's loop on values, from cur up to hi in page steps, ending at the first page without a frame. */
  function AllocRangeSpec(m: Memory, cur: u32, hi: u32): (r: Memory)
    requires Sized(m) && hi <= TopPage && (MountEnd <= cur || hi <= MountBase)
    ensures Sized(r)
    decreases hi - cur, 1
  {
    if cur >= hi then m else AllocRangeStep(m, cur, hi)
  }

  /** One page of that loop, then the rest of it unless the page found no frame. */
  function AllocRangeStep(m: Memory, cur: u32, hi: u32): (r: Memory)
    requires Sized(m) && cur < hi <= TopPage && (MountEnd <= cur || hi <= MountBase)
    ensures Sized(r)
    decreases hi - cur, 0
  {
    var (m1, ok) := AllocPageSpec(m, cur, 0x02);
    if !ok then m1 else AllocRangeSpec(m1, cur + PageSize, hi)
  }

  /** With no free frame the loop stops at its first page and changes nothing. */
  lemma AllocRangeExhausted(m: Memory, cur: u32, hi: u32)
    requires Sized(m) && hi <= TopPage && (MountEnd <= cur || hi <= MountBase)
    requires FreeFrame(m.bits) == 0
    ensures AllocRangeSpec(m, cur, hi) == m
  {
  }

  /** One round of the loop: the rest of the walk from m0 is the rest from the state the round leaves. */
  lemma AllocRangeUnfold(m0: Memory, m1: Memory, ok: bool, cur: u32, hi: u32)
    requires Sized(m0) && cur < hi <= TopPage && (MountEnd <= cur || hi <= MountBase)
    requires (m1, ok) == AllocPageSpec(m0, cur, 0x02)
    ensures AllocRangeSpec(m0, cur, hi) == if ok then AllocRangeSpec(m1, cur + PageSize, hi) else m1
  {
  }

  /** alloc_kbrk on values: with max == ~0 the last page comes first and becomes the bound. */
  function AllocKbrkSpec(m: Memory, min: u32, max: u32): (r: Memory)
    requires Sized(m) && (max == NoBreak || (max % PageSize == 0 && max <= TopPage))
    requires MountEnd <= min || (max != NoBreak && max <= MountBase)
    ensures Sized(r)
  {
    if max == NoBreak then
      var (m1, ok) := AllocPageSpec(m, TopPage, ReadWrite);
      if !ok then m1 else AllocRangeSpec(m1, min, TopPage)
    else AllocRangeSpec(m, min, max)
  }

  /** w translates in m1 and did not in m0. */
  ghost predicate Added(m0: Memory, m1: Memory, w: u32)
    requires Sized(m0) && Sized(m1)
  {
    MappedIn(m1.pd, m1.pt, w) && !MappedIn(m0.pd, m0.pt, w)
  }

  /** The frame w translates onto in m. */
  function FrameAt(m: Memory, w: u32): nat
    requires Sized(m)
  {
    FrameBitmap.FrameOf(PageTables.Physaddr(m.pd, m.pt, w))
  }

  /**
   * From m0 to m1 no translation is lost or changed, no frame becomes free,
   * and every added translation lands on a frame that was free in m0 and is
   * used in m1, a different frame for each page.
   */
  ghost predicate TakesFrom(m0: Memory, m1: Memory)
    requires Sized(m0) && Sized(m1)
  {
    Within(m0.pd, m0.pt, m1.pd, m1.pt)
    && FrameBitmap.FreeSet(m1.bits) <= FrameBitmap.FreeSet(m0.bits)
    && (forall w: u32 :: Added(m0, m1, w) ==>
          FrameAt(m1, w) in FrameBitmap.FreeSet(m0.bits) - FrameBitmap.FreeSet(m1.bits))
    && (forall w1: u32, w2: u32 :: Added(m0, m1, w1) && Added(m0, m1, w2) && PageBase(w1) != PageBase(w2) ==>
          FrameAt(m1, w1) != FrameAt(m1, w2))
  }

  lemma TakesFromTrans(m0: Memory, m1: Memory, m2: Memory)
    requires Sized(m0) && Sized(m1) && Sized(m2)
    requires TakesFrom(m0, m1) && TakesFrom(m1, m2)
    ensures TakesFrom(m0, m2)
  {
    WithinTrans(m0.pd, m0.pt, m1.pd, m1.pt, m2.pd, m2.pt);
    forall w: u32 | Added(m0, m2, w)
      ensures FrameAt(m2, w) in FrameBitmap.FreeSet(m0.bits) - FrameBitmap.FreeSet(m2.bits)
    {
      assert WithinAt(m1.pd, m1.pt, m2.pd, m2.pt, w);
      if MappedIn(m1.pd, m1.pt, w) {
        assert Added(m0, m1, w);
      } else {
        assert Added(m1, m2, w);
      }
    }
    forall w1: u32, w2: u32 | Added(m0, m2, w1) && Added(m0, m2, w2) && PageBase(w1) != PageBase(w2)
      ensures FrameAt(m2, w1) != FrameAt(m2, w2)
    {
      assert WithinAt(m1.pd, m1.pt, m2.pd, m2.pt, w1) && WithinAt(m1.pd, m1.pt, m2.pd, m2.pt, w2);
      if MappedIn(m1.pd, m1.pt, w1) && MappedIn(m1.pd, m1.pt, w2) {
        assert Added(m0, m1, w1) && Added(m0, m1, w2);
      } else if MappedIn(m1.pd, m1.pt, w1) {
        assert Added(m0, m1, w1) && Added(m1, m2, w2);
      } else if MappedIn(m1.pd, m1.pt, w2) {
        assert Added(m1, m2, w1) && Added(m0, m1, w2);
      } else {
        assert Added(m1, m2, w1) && Added(m1, m2, w2);
      }
    }
  }

  /** Marking frame f used, and nothing else, takes no translation. */
  lemma MarkTakes(m: Memory, f: nat)
    requires Sized(m) && f < FrameBitmap.FrameCount
    ensures TakesFrom(m, m.(bits := FrameBitmap.WithUsed(m.bits, f)))
  {
    FrameBitmap.FreeSetWithUsed(m.bits, f);
  }

  /** An address inside the page at an aligned f lies in f's frame. */
  lemma FrameOfOffset(f: nat, w: u32)
    requires f % PageSize == 0
    ensures (f + Low12(w)) / PageSize == f / PageSize
  {
  }

  /**
   * One page of alloc_kbrk keeps the window coherent and only takes free
   * frames: v's page lands on the frame it marks, and a table installed
   * for it on the next free frame.
   */
  lemma AllocPageTakes(m: Memory, v: u32, flags: u32)
    requires Kept(m) && PageTables.PdIndex(v) != MountSlot
    ensures Kept(AllocPageSpec(m, v, flags).0) && TakesFrom(m, AllocPageSpec(m, v, flags).0)
  {
    var f := FreeFrame(m.bits);
    if f != 0 {
      var F := FrameBitmap.FrameOf(f);
      FreeFrameIsFree(m.bits);
      var m1 := m.(bits := FrameBitmap.WithUsed(m.bits, F));
      MarkTakes(m, F);
      var i, k := PageTables.PdIndex(v), PageTables.LeafIndex(v);
      var e := PageTables.LeafEntry(f, flags);
      if PageTables.IsPresent(m.pd[i]) {
        if !MappedIn(m.pd, m.pt, v) {
          var r := m1.(pt := m.pt[k := e]);
          LeafWritten(m.pd, m.pt, v, e);
          OutsideKeepsCoherent(m.pd, m.pt, k, e);
          forall w: u32 | Added(m1, r, w) ensures FrameAt(r, w) == F {
            FrameOfOffset(f, w);
          }
          LeafTakes(m, m1, r, v, F);
        }
      } else {
        InstallTakes(m, v, flags, f);
      }
    }
  }

  /** A step that adds exactly v's page, onto frame F which it marks used, takes from m. */
  lemma LeafTakes(m: Memory, m1: Memory, r: Memory, v: u32, F: nat)
    requires Sized(m) && Sized(m1) && Sized(r) && F in FrameBitmap.FreeSet(m.bits)
    requires m1.pd == m.pd && m1.pt == m.pt && m1.bits == FrameBitmap.WithUsed(m.bits, F) && r.bits == m1.bits
    requires Within(m1.pd, m1.pt, r.pd, r.pt)
    requires forall w: u32 :: Added(m1, r, w) ==> PageBase(w) == PageBase(v) && FrameAt(r, w) == F
    ensures TakesFrom(m, r)
  {
    FrameBitmap.FreeSetWithUsed(m.bits, F);
    forall w: u32 | Added(m, r, w) ensures FrameAt(r, w) in FrameBitmap.FreeSet(m.bits) - FrameBitmap.FreeSet(r.bits) {
      assert Added(m1, r, w);
    }
    forall w1: u32, w2: u32 | Added(m, r, w1) && Added(m, r, w2) ensures PageBase(w1) == PageBase(w2) {
      assert Added(m1, r, w1) && Added(m1, r, w2);
    }
  }

  /**
   * map_page for v under an absent slot, once a table is installed on g:
   * the window stays coherent, nothing translated changes, and what is
   * added is v's page onto f and the window page of the new table onto g.
   */
  lemma InstallAdds(pd: seq<u32>, pt: seq<u32>, v: u32, flags: u32, f: u32, g: u32)
    requires |pd| == PageTables.DirEntries && |pt| == PageTables.WindowEntries
    requires PageTables.IsPresent(pd[MountSlot]) && PageTables.IsPresent(pt[MountSelf]) && MountCoherent(pd, pt)
    requires PageTables.PdIndex(v) != MountSlot && !PageTables.IsPresent(pd[PageTables.PdIndex(v)])
    ensures var i, k := PageTables.PdIndex(v), PageTables.LeafIndex(v);
      var pd', pt' := pd[i := TableLink(g)], Mounted(pt, i, g)[k := PageTables.LeafEntry(f, flags)];
      PageTables.IsPresent(pd'[MountSlot]) && PageTables.IsPresent(pt'[MountSelf]) && MountCoherent(pd', pt')
      && Within(pd, pt, pd', pt')
      && forall w: u32 :: MappedIn(pd', pt', w) && !MappedIn(pd, pt, w) ==>
           (PageBase(w) == PageBase(v) && PageTables.Physaddr(pd', pt', w) == PageBase(f) + Low12(w))
           || (PageBase(w) == MountPage(i) && PageTables.Physaddr(pd', pt', w) == PageBase(g) + Low12(w))
  {
    var i, k := PageTables.PdIndex(v), PageTables.LeafIndex(v);
    var e := PageTables.LeafEntry(f, flags);
    var pd1, pt1 := pd[i := TableLink(g)], Mounted(pt, i, g);
    TableMounted(pd, pt, i, g);
    MountKeepsCoherent(pd, pt, i, g);
    assert i * 1024 <= k < i * 1024 + 1024;
    assert pt1[k] == 0;
    LeafWritten(pd1, pt1, v, e);
    OutsideKeepsCoherent(pd1, pt1, k, e);
    WithinTrans(pd, pt, pd1, pt1, pd1, pt1[k := e]);
    forall w: u32 | MappedIn(pd1, pt1[k := e], w) && !MappedIn(pd, pt, w) && PageBase(w) != PageBase(v)
      ensures PageBase(w) == MountPage(i) && PageTables.Physaddr(pd1, pt1[k := e], w) == PageBase(g) + Low12(w)
    {
      TableMountedAt(pd, pt, i, g, w);
      assert WithinAt(pd1, pt1, pd1, pt1[k := e], w);
    }
  }

  /**
   * The page of alloc_kbrk whose slot is absent: frame f is marked, a table
   * goes onto the next free frame g (when there is one) and v's leaf onto f.
   */
  lemma InstallTakes(m: Memory, v: u32, flags: u32, f: u32)
    requires Kept(m) && PageTables.PdIndex(v) != MountSlot && !PageTables.IsPresent(m.pd[PageTables.PdIndex(v)])
    requires f == FreeFrame(m.bits) && f != 0
    ensures Kept(AllocPageSpec(m, v, flags).0) && TakesFrom(m, AllocPageSpec(m, v, flags).0)
  {
    var F := FrameBitmap.FrameOf(f);
    var marked := FrameBitmap.WithUsed(m.bits, F);
    FreeFrameIsFree(m.bits);
    MarkTakes(m, F);
    var g := FreeFrame(marked);
    if g != 0 {
      var i, k := PageTables.PdIndex(v), PageTables.LeafIndex(v);
      var r := Memory(m.pd[i := TableLink(g)], Mounted(m.pt, i, g)[k := PageTables.LeafEntry(f, flags)],
                      FrameBitmap.WithUsed(marked, FrameBitmap.FrameOf(g)));
      assert r == AllocPageSpec(m, v, flags).0;
      InstallBothTakes(m, v, flags, f, g);
    }
  }

  /** The same page when a second free frame g takes the table: v's page lands on f, the table's on g. */
  lemma InstallBothTakes(m: Memory, v: u32, flags: u32, f: u32, g: u32)
    requires Kept(m) && PageTables.PdIndex(v) != MountSlot && !PageTables.IsPresent(m.pd[PageTables.PdIndex(v)])
    requires f == FreeFrame(m.bits) && f != 0
    requires g == FreeFrame(FrameBitmap.WithUsed(m.bits, FrameBitmap.FrameOf(f))) && g != 0
    ensures var i, k := PageTables.PdIndex(v), PageTables.LeafIndex(v);
      var r := Memory(m.pd[i := TableLink(g)], Mounted(m.pt, i, g)[k := PageTables.LeafEntry(f, flags)],
                      FrameBitmap.WithUsed(FrameBitmap.WithUsed(m.bits, FrameBitmap.FrameOf(f)), FrameBitmap.FrameOf(g)));
      Kept(r) && TakesFrom(m, r)
  {
    var F, G := FrameBitmap.FrameOf(f), FrameBitmap.FrameOf(g);
    var marked := FrameBitmap.WithUsed(m.bits, F);
    FreeFrameIsFree(m.bits);
    FreeFrameIsFree(marked);
    FrameBitmap.WithUsedExact(m.bits, F, G);
    FrameBitmap.FreeSetWithUsed(m.bits, F);
    FrameBitmap.FreeSetWithUsed(marked, G);
    var i, k := PageTables.PdIndex(v), PageTables.LeafIndex(v);
    var r := Memory(m.pd[i := TableLink(g)], Mounted(m.pt, i, g)[k := PageTables.LeafEntry(f, flags)],
                    FrameBitmap.WithUsed(marked, G));
    InstallAdds(m.pd, m.pt, v, flags, f, g);
    TwoPagesTake(m, r, PageBase(v), MountPage(i), f, g);
  }

  /**
   * A step that adds translations on at most two pages, each onto its own
   * frame that it took from the free ones, takes from m.
   */
  lemma TwoPagesTake(m: Memory, r: Memory, p: int, q: int, f: u32, g: u32)
    requires Sized(m) && Sized(r) && Within(m.pd, m.pt, r.pd, r.pt)
    requires f % PageSize == 0 && g % PageSize == 0
    requires FrameBitmap.FreeSet(r.bits) <= FrameBitmap.FreeSet(m.bits)
    requires FrameBitmap.FrameOf(f) != FrameBitmap.FrameOf(g)
    requires FrameBitmap.FrameOf(f) in FrameBitmap.FreeSet(m.bits) - FrameBitmap.FreeSet(r.bits)
    requires FrameBitmap.FrameOf(g) in FrameBitmap.FreeSet(m.bits) - FrameBitmap.FreeSet(r.bits)
    requires forall w: u32 :: MappedIn(r.pd, r.pt, w) && !MappedIn(m.pd, m.pt, w) ==>
      (PageBase(w) == p && PageTables.Physaddr(r.pd, r.pt, w) == PageBase(f) + Low12(w))
      || (PageBase(w) == q && PageTables.Physaddr(r.pd, r.pt, w) == PageBase(g) + Low12(w))
    ensures TakesFrom(m, r)
  {
    forall w: u32 | Added(m, r, w)
      ensures (PageBase(w) == p && FrameAt(r, w) == FrameBitmap.FrameOf(f))
        || (PageBase(w) == q && FrameAt(r, w) == FrameBitmap.FrameOf(g))
    {
      FrameOfOffset(f, w);
      FrameOfOffset(g, w);
    }
  }

  /**
   * What alloc_kbrk's walk keeps, from the state mA it started in to m:
   * the window coherent, no translation lost or changed, every new one
   * read-write and on a frame that was free, and, unless the frames ran
   * out, every address from min translating up to `bound`.
   */
  ghost predicate Walked(mA: Memory, m: Memory, min: u32, bound: int)
    requires Sized(mA) && Sized(m)
  {
    TakesFrom(mA, m) && NewWith(mA.pd, mA.pt, m.pd, m.pt, ReadWrite)
    && (FreeFrame(m.bits) == 0 || MappedFrom(m.pd, m.pt, min, bound))
  }

  /** A state takes nothing from itself. */
  lemma MarkTakesNothing(m: Memory)
    requires Sized(m)
    ensures TakesFrom(m, m)
  {
  }

  class KernelSpace {
    /** kpage_directory. */
    var pd: array<u32>
    /** The window: table i at [i * 1024, i * 1024 + 1024). */
    var pt: array<u32>
    var frames: FrameBitmap.Bitmap

    /** Sizes, and the window mounted: slot 704 and the window's own entry are present. */
    ghost predicate Shape()
      reads this, pd, pt, frames
    {
      pd.Length == PageTables.DirEntries && pt.Length == PageTables.WindowEntries && frames.Valid()
      && PageTables.IsPresent(pd[MountSlot]) && PageTables.IsPresent(pt[MountSelf])
    }

    ghost predicate Valid()
      reads this, pd, pt, frames
    {
      Shape() && MountCoherent(pd[..], pt[..])
    }

    /** An address space with only the window mounted on frame `mountFrame`. */
    constructor (bitmap: FrameBitmap.Bitmap, mountFrame: u32)
      requires bitmap.Valid()
      ensures Valid() && fresh(pd) && fresh(pt) && frames == bitmap
      ensures forall w: u32 :: Mapped(w) <==> PageBase(w) == MountPage(MountSlot)
    {
      frames := bitmap;
      var entry := PageTables.LeafEntry(mountFrame, ReadWrite);
      pd := new u32[PageTables.DirEntries](i => if i == MountSlot then entry else 0);
      pt := new u32[PageTables.WindowEntries](k => if k == MountSelf then entry else 0);
      new;
      forall w: u32 ensures Mapped(w) <==> PageBase(w) == MountPage(MountSlot) {
        SameLeaf(MountPage(MountSlot), w);
      }
    }

    /** The directory, window and bitmap as values. */
    ghost function State(): (m: Memory)
      reads this, pd, pt, frames, frames.bits
      requires Shape()
      ensures Kept(m) <==> Valid()
    {
      Memory(pd[..], pt[..], frames.bits[..])
    }

    /** Address w translates. */
    predicate Mapped(w: u32)
      reads this, pd, pt
      requires pd.Length == PageTables.DirEntries && pt.Length == PageTables.WindowEntries
    {
      MappedIn(pd[..], pt[..], w)
    }

    /**
     * get_physaddr: 0 when the directory slot or the leaf is not present;
     * otherwise the leaf's frame with v's offset inside the page.
     */
    function GetPhysaddr(v: u32): (r: u32)
      reads this, pd, pt
      requires pd.Length == PageTables.DirEntries && pt.Length == PageTables.WindowEntries
      ensures !Mapped(v) ==> r == 0
      ensures Mapped(v) ==> PageBase(r) == PageBase(pt[PageTables.LeafIndex(v)]) && Low12(r) == Low12(v)
    {
      PageTables.Physaddr(pd[..], pt[..], v)
    }

    /**
     * map_page. Does nothing when the leaf is already present, or when the
     * slot is absent and no frame is free. With the slot absent it takes the
     * lowest free frame, marks it used, maps it in the window, links it
     * read-write in the directory and zero-fills the new table; then it
     * writes the leaf.
     */
    method MapPage(phys: u32, v: u32, flags: u32)
      requires Shape()
      modifies pd, pt, frames.bits
      ensures Shape()
      ensures PageTables.IsPresent(old(pd[PageTables.PdIndex(v)])) ==>
        frames.bits[..] == old(frames.bits[..]) && pd[..] == old(pd[..])
        && pt[..] == if old(Mapped(v)) then old(pt[..])
                     else old(pt[..])[PageTables.LeafIndex(v) := PageTables.LeafEntry(phys, flags)]
      ensures !PageTables.IsPresent(old(pd[PageTables.PdIndex(v)])) && old(FrameBitmap.FreePageAddress(frames.bits[..])) == 0 ==>
        frames.bits[..] == old(frames.bits[..]) && pd[..] == old(pd[..]) && pt[..] == old(pt[..])
      ensures !PageTables.IsPresent(old(pd[PageTables.PdIndex(v)])) && old(FrameBitmap.FreePageAddress(frames.bits[..])) != 0 ==>
        var f := old(FrameBitmap.FreePageAddress(frames.bits[..]));
        PageTables.PdIndex(v) != MountSlot
        && frames.bits[..] == FrameBitmap.WithUsed(old(frames.bits[..]), FrameBitmap.FrameOf(f))
        && pd[..] == old(pd[..])[PageTables.PdIndex(v) := TableLink(f)]
        && pt[..] == Mounted(old(pt[..]), PageTables.PdIndex(v), f)[PageTables.LeafIndex(v) := PageTables.LeafEntry(phys, flags)]
      ensures Mapped(v) || FrameBitmap.FreePageAddress(frames.bits[..]) == 0
      ensures old(Valid()) && PageTables.PdIndex(v) != MountSlot ==> Valid()
      ensures old(Valid()) ==> MapResult(old(pd[..]), old(pt[..]), pd[..], pt[..], v, phys, flags)
      ensures State() == MapPageSpec(old(State()), phys, v, flags)
    {
      if !PageTables.IsPresent(pd[PageTables.PdIndex(v)]) {
        MapIntoNewTable(phys, v, flags);
      } else {
        MapIntoPresentTable(phys, v, flags);
      }
    }

    /** map_page with v's directory slot present: writes the leaf unless it is already present. */
    method MapIntoPresentTable(phys: u32, v: u32, flags: u32)
      requires Shape() && PageTables.IsPresent(pd[PageTables.PdIndex(v)])
      modifies pt
      ensures Shape() && Mapped(v)
      ensures pt[..] == if old(Mapped(v)) then old(pt[..])
                        else old(pt[..])[PageTables.LeafIndex(v) := PageTables.LeafEntry(phys, flags)]
      ensures old(Valid()) && PageTables.PdIndex(v) != MountSlot ==> Valid()
      ensures old(Valid()) ==> MapResult(old(pd[..]), old(pt[..]), pd[..], pt[..], v, phys, flags)
    {
      var leaf := PageTables.LeafIndex(v);
      if PageTables.IsPresent(pt[leaf]) {
        return;
      }
      ghost var pd0, pt0 := pd[..], pt[..];
      var e := PageTables.LeafEntry(phys, flags);
      pt[leaf] := e;
      if old(Valid()) {
        LeafMapResult(pd0, pt0, v, phys, flags);
        if PageTables.PdIndex(v) != MountSlot {
          OutsideKeepsCoherent(pd0, pt0, leaf, e);
        }
      }
    }

    /**
     * map_page with v's directory slot absent: installs a table (doing
     * nothing when no frame is free), then writes the leaf. The source tests
     * the leaf before writing it; in a freshly zero-filled table it is never
     * present.
     */
    method MapIntoNewTable(phys: u32, v: u32, flags: u32)
      requires Shape() && !PageTables.IsPresent(pd[PageTables.PdIndex(v)])
      modifies pd, pt, frames.bits
      ensures Shape()
      ensures old(FrameBitmap.FreePageAddress(frames.bits[..])) == 0 ==>
        frames.bits[..] == old(frames.bits[..]) && pd[..] == old(pd[..]) && pt[..] == old(pt[..])
      ensures old(FrameBitmap.FreePageAddress(frames.bits[..])) != 0 ==>
        var f := old(FrameBitmap.FreePageAddress(frames.bits[..]));
        PageTables.PdIndex(v) != MountSlot
        && frames.bits[..] == FrameBitmap.WithUsed(old(frames.bits[..]), FrameBitmap.FrameOf(f))
        && pd[..] == old(pd[..])[PageTables.PdIndex(v) := TableLink(f)]
        && pt[..] == Mounted(old(pt[..]), PageTables.PdIndex(v), f)[PageTables.LeafIndex(v) := PageTables.LeafEntry(phys, flags)]
      ensures Mapped(v) || FrameBitmap.FreePageAddress(frames.bits[..]) == 0
      ensures old(Valid()) ==> Valid() && MapResult(old(pd[..]), old(pt[..]), pd[..], pt[..], v, phys, flags)
    {
      var pdindex := PageTables.PdIndex(v);
      var leaf := PageTables.LeafIndex(v);
      ghost var pd0, pt0 := pd[..], pt[..];
      ghost var f := FrameBitmap.FreePageAddress(frames.bits[..]);
      var ok := InstallTable(pdindex);
      if !ok {
        return;
      }
      ghost var pt1 := pt[..];
      assert pt1[leaf] == 0;
      pt[leaf] := PageTables.LeafEntry(phys, flags);
      assert pt[..] == pt1[leaf := PageTables.LeafEntry(phys, flags)];
      if old(Valid()) {
        InstallMapResult(pd0, pt0, v, f, phys, flags);
      }
    }

    /**
     * The table-allocation branch of map_page for an absent slot i: takes the
     * lowest free frame (doing nothing when there is none), marks it used,
     * maps it read-write at the window page of table i, links it in slot i
     * and zero-fills the table.
     */
    method InstallTable(i: nat) returns (ok: bool)
      requires Shape() && i < PageTables.DirEntries && !PageTables.IsPresent(pd[i])
      modifies pd, pt, frames.bits
      ensures Shape() && i != MountSlot
      ensures ok == (old(FrameBitmap.FreePageAddress(frames.bits[..])) != 0)
      ensures !ok ==> frames.bits[..] == old(frames.bits[..]) && pd[..] == old(pd[..]) && pt[..] == old(pt[..])
      ensures ok ==>
        var f := old(FrameBitmap.FreePageAddress(frames.bits[..]));
        frames.bits[..] == FrameBitmap.WithUsed(old(frames.bits[..]), FrameBitmap.FrameOf(f))
        && pd[..] == old(pd[..])[i := TableLink(f)]
        && pt[..] == Mounted(old(pt[..]), i, f)
    {
      var frame := frames.FindFreePage();
      if frame == 0 {
        return false;
      }
      frames.MarkUsed(frame);
      LinkTable(i, frame);
      return true;
    }

    /**
     * The rest of the table-allocation branch, once frame is taken: maps it
     * read-write at the window page of table i, links it in slot i and
     * zero-fills the table. The recursive map_page of the window page always
     * finds slot 704 present, so it is that branch that runs.
     */
    method LinkTable(i: nat, frame: u32)
      requires Shape() && i < PageTables.DirEntries && !PageTables.IsPresent(pd[i])
      modifies pd, pt
      ensures Shape() && i != MountSlot
      ensures pd[..] == old(pd[..])[i := TableLink(frame)] && pt[..] == Mounted(old(pt[..]), i, frame)
    {
      ghost var pt1 := pt[..];
      var w := MountLeaf(i);
      assert PageTables.LeafIndex(MountPage(i)) == w && PageTables.IsPresent(pd[PageTables.PdIndex(MountPage(i))]);
      MapIntoPresentTable(frame, MountPage(i), ReadWrite);
      assert pt[..] == pt1[w := if PageTables.IsPresent(pt1[w]) then pt1[w] else PageTables.LeafEntry(frame, ReadWrite)];
      pd[i] := TableLink(frame);
      StdLib.Fill(pt, i * 1024, 1024, 0);
      assert pt[..] == Mounted(pt1, i, frame);
    }

    /**
     * unmap_page: zeroes v's leaf. When that leaves all 1024 entries of its
     * table zero, clears the directory slot and unmaps the table's window
     * page the same way. No frame goes back to the bitmap.
     */
    method UnmapPage(v: u32)
      requires Shape() && PageTables.LeafIndex(v) != MountSelf
      modifies pd, pt
      ensures Shape()
      ensures var cleared := old(pt[..])[PageTables.LeafIndex(v) := 0];
        if PageTables.TableEmpty(cleared, PageTables.PdIndex(v)) then
          PageTables.PdIndex(v) != MountSlot && pd[..] == old(pd[..])[PageTables.PdIndex(v) := 0]
          && pt[..] == cleared[MountLeaf(PageTables.PdIndex(v)) := 0]
        else pd[..] == old(pd[..]) && pt[..] == cleared
      ensures forall w: u32 :: PageBase(w) == PageBase(v) ==> !Mapped(w)
      ensures Within(pd[..], pt[..], old(pd[..]), old(pt[..]))
      ensures forall w: u32 :: PageTables.PdIndex(w) != MountSlot && PageBase(w) != PageBase(v) ==>
        Mapped(w) == old(Mapped(w))
      ensures old(Valid()) && PageTables.PdIndex(v) != MountSlot ==> Valid()
      decreases if PageTables.PdIndex(v) == MountSlot then 0 else 1
    {
      var pdindex := PageTables.PdIndex(v);
      var leaf := PageTables.LeafIndex(v);
      ghost var pd0, pt0 := pd[..], pt[..];
      pt[leaf] := 0;
      LeafCleared(pd0, pt0, v);
      var empty := PageTables.ScanTableEmpty(pt, pdindex);
      if empty {
        assert pt[MountSelf] != 0;
        ghost var pt1 := pt[..];
        pd[pdindex] := 0;
        SlotCleared(pd0, pt1, pdindex);
        ghost var pd2 := pd[..];
        UnmapPage(MountPage(pdindex));
        WithinTrans(pd[..], pt[..], pd2, pt1, pd0, pt1);
        WithinTrans(pd[..], pt[..], pd0, pt1, pd0, pt0);
        forall w: u32 | PageTables.PdIndex(w) != MountSlot
          ensures PageBase(w) != PageBase(MountPage(pdindex))
        {
          SameLeaf(MountPage(pdindex), w);
        }
        if old(Valid()) {
          OutsideKeepsCoherent(pd0, pt0, leaf, 0);
          TableUnmounted(pd0, pt1, pdindex);
        }
      } else {
        if old(Valid()) && pdindex != MountSlot {
          OutsideKeepsCoherent(pd0, pt0, leaf, 0);
        }
      }
    }

    /**
     * get_kbrk: scans directory slots from 1023 down to 1 and, under each
     * present one, entries 1023 down to 1 of the window table named by
     * ptindex; the first absent slot or entry ends the scan.
     */
    method GetKbrk() returns (r: u32)
      requires pd.Length == PageTables.DirEntries && pt.Length == PageTables.WindowEntries
      ensures r == KbrkAddress(pd[..], pt[..])
    {
      var pdindex := 1023;
      var ptindex := 1023;
      while pdindex > 0
        invariant 0 <= pdindex <= 1023 && 0 <= ptindex <= 1023
        invariant pdindex < 1023 ==> PageTables.IsPresent(pd[TopSlot]) && TopAbsentLeaf(pt[..], 1023) == 0 && ptindex == 0
        invariant pdindex < 1023 ==> TopAbsentSlot(pd[..], TopSlot - 1) == TopAbsentSlot(pd[..], pdindex)
      {
        ptindex := 1023;
        if !PageTables.IsPresent(pd[pdindex]) {
          break;
        }
        var table := ptindex;
        while ptindex > 0
          invariant 0 <= ptindex <= 1023
          invariant TopAbsentLeaf(pt[..], 1023) == TopAbsentLeaf(pt[..], ptindex)
        {
          assert pt[table * 1024 + ptindex] == Scanned(pt[..], ptindex);
          if !PageTables.IsPresent(pt[table * 1024 + ptindex]) {
            return KbrkPointer(pdindex, ptindex);
          }
          ptindex := ptindex - 1;
        }
        pdindex := pdindex - 1;
      }
      return KbrkPointer(pdindex, ptindex);
    }


    /**
     * One page of alloc_kbrk: takes the lowest free frame (doing nothing
     * when there is none), marks it used and maps v's page onto it with
     * `flags`.
     */
    method AllocPage(v: u32, flags: u32) returns (ok: bool)
      requires Valid() && PageTables.PdIndex(v) != MountSlot
      modifies pd, pt, frames.bits
      ensures Valid()
      ensures ok == (old(FrameBitmap.FreePageAddress(frames.bits[..])) != 0)
      ensures !ok ==> pd[..] == old(pd[..]) && pt[..] == old(pt[..]) && frames.bits[..] == old(frames.bits[..])
      ensures MapResult(old(pd[..]), old(pt[..]), pd[..], pt[..], v, old(FrameBitmap.FreePageAddress(frames.bits[..])), flags)
      ensures Mapped(v) || FrameBitmap.FreePageAddress(frames.bits[..]) == 0
      ensures (State(), ok) == AllocPageSpec(old(State()), v, flags)
    {
      var f := frames.FindFreePage();
      if f == 0 {
        return false;
      }
      frames.MarkUsed(f);
      MapPage(f, v, flags);
      return true;
    }

    /**
     * alloc_kbrk: with max == ~0, first maps a fresh frame read-write at the
     * last page (stopping if no frame is free) and takes that page as the
     * bound; then maps the page of every address from min in page steps
     * while below the bound, each on the lowest free frame with flags 0x02,
     * and stops the first time no frame is free. Nothing is unmapped or
     * remapped, every new translation is read-write, and unless the frames
     * ran out the whole range is mapped.
     */
    method AllocKbrk(min: u32, max: u32)
      requires Valid()
      requires max == NoBreak || (max % PageSize == 0 && max <= TopPage)
      requires MountEnd <= min || (max != NoBreak && max <= MountBase)
      modifies pd, pt, frames.bits
      ensures Valid()
      ensures Within(old(pd[..]), old(pt[..]), pd[..], pt[..])
      ensures NewWith(old(pd[..]), old(pt[..]), pd[..], pt[..], ReadWrite)
      ensures FrameBitmap.FreePageAddress(frames.bits[..]) == 0
        || ((max == NoBreak ==> Mapped(TopPage))
            && forall w: u32 :: min <= w < (if max == NoBreak then TopPage else max) ==> Mapped(w))
      ensures State() == AllocKbrkSpec(old(State()), min, max)
      ensures TakesFrom(old(State()), State())
    {
      ghost var mA := State();
      ghost var pdA, ptA := pd[..], pt[..];
      var hi := max;
      MarkTakesNothing(mA);
      if max == NoBreak {
        var ok := AllocPage(TopPage, ReadWrite);
        AllocPageTakes(mA, TopPage, ReadWrite);
        if !ok {
          return;
        }
        hi := TopPage;
      }
      ghost var m1 := State();
      ghost var pd1, pt1 := pd[..], pt[..];
      AllocRange(min, hi);
      TakesFromTrans(mA, m1, State());
      assert WithinAt(pd1, pt1, pd[..], pt[..], TopPage);
      WithinTrans(pdA, ptA, pd1, pt1, pd[..], pt[..]);
      NewWithTrans(pdA, ptA, pd1, pt1, pd[..], pt[..], ReadWrite);
    }

    /**
     * The loop of alloc_kbrk: maps the page of every address from min in
     * page steps while below hi, each on the lowest free frame with flags
     * 0x02, and stops the first time no frame is free.
     */
    method AllocRange(min: u32, hi: u32)
      requires Valid() && hi % PageSize == 0 && hi <= TopPage
      requires MountEnd <= min || hi <= MountBase
      modifies pd, pt, frames.bits
      ensures Valid()
      ensures Within(old(pd[..]), old(pt[..]), pd[..], pt[..])
      ensures NewWith(old(pd[..]), old(pt[..]), pd[..], pt[..], ReadWrite)
      ensures FrameBitmap.FreePageAddress(frames.bits[..]) == 0
        || forall w: u32 :: min <= w < hi ==> MappedIn(pd[..], pt[..], w)
      ensures old(FrameBitmap.FreePageAddress(frames.bits[..])) == 0 ==> frames.bits[..] == old(frames.bits[..])
      ensures State() == AllocRangeSpec(old(State()), min, hi)
      ensures TakesFrom(old(State()), State())
    {
      ghost var mA := State();
      if FreeFrame(mA.bits) == 0 {
        AllocRangeExhausted(mA, min, hi);
      }
      var cur := AllocWalk(min, hi);
      if FrameBitmap.FreePageAddress(frames.bits[..]) != 0 {
        MappedFromDone(pd[..], pt[..], min, cur, hi);
      }
    }

    /** The loop itself: page after page from min, until hi or the first page that finds no frame. */
    method AllocWalk(min: u32, hi: u32) returns (cur: u32)
      requires Valid() && hi % PageSize == 0 && hi <= TopPage
      requires MountEnd <= min || hi <= MountBase
      modifies pd, pt, frames.bits
      ensures Valid() && min <= cur && (hi <= cur || FreeFrame(frames.bits[..]) == 0)
      ensures State() == AllocRangeSpec(old(State()), min, hi)
      ensures Walked(old(State()), State(), min, PageBase(cur))
    {
      ghost var mA := State();
      MarkTakesNothing(mA);
      ghost var target := AllocRangeSpec(mA, min, hi);
      cur := min;
      var ok := true;
      while ok && cur < hi
        invariant Valid() && min <= cur
        invariant ok ==> AllocRangeSpec(State(), cur, hi) == target
        invariant !ok ==> State() == target && FreeFrame(frames.bits[..]) == 0
        invariant Walked(mA, State(), min, PageBase(cur))
        decreases hi - cur, if ok then 1 else 0
      {
        assert PageTables.PdIndex(cur) != MountSlot;
        ok, cur := AllocNext(cur, hi, mA, min);
      }
    }

    /** One round of alloc_kbrk's loop at cur, keeping what the walk from mA keeps. */
    method AllocNext(cur: u32, hi: u32, ghost mA: Memory, ghost min: u32) returns (ok: bool, next: u32)
      requires Valid() && PageTables.PdIndex(cur) != MountSlot && Sized(mA)
      requires cur < hi <= TopPage && (MountEnd <= cur || hi <= MountBase)
      requires Walked(mA, State(), min, PageBase(cur))
      modifies pd, pt, frames.bits
      ensures Valid() && next == if ok then cur + PageSize else cur
      ensures AllocRangeSpec(old(State()), cur, hi) == if ok then AllocRangeSpec(State(), next, hi) else State()
      ensures Walked(mA, State(), min, PageBase(next))
      ensures !ok ==> FreeFrame(frames.bits[..]) == 0
    {
      ghost var pd0, pt0 := pd[..], pt[..];
      ghost var phys := FrameBitmap.FreePageAddress(frames.bits[..]);
      ghost var m0 := State();
      ok := AllocPage(cur, 0x02);
      AllocPageTakes(m0, cur, 0x02);
      TakesFromTrans(mA, m0, State());
      AllocStep(mA.pd, mA.pt, pd0, pt0, pd[..], pt[..], min, cur, phys);
      AllocRangeUnfold(m0, State(), ok, cur, hi);
      next := cur;
      if ok {
        PageStep(cur);
        next := cur + PageSize;
      }
    }

    /**
     * One page of free_kbrk: takes m's physical address, unmaps m's page and
     * marks that address's frame free (frame 0 when m was not mapped).
     */
    method FreePage(m: u32)
      requires Valid() && PageTables.PdIndex(m) != MountSlot && FrameBitmap.Covered(GetPhysaddr(m))
      modifies pd, pt, frames.bits
      ensures Valid()
      ensures Within(pd[..], pt[..], old(pd[..]), old(pt[..]))
      ensures forall w: u32 :: UnmapAt(old(pd[..]), old(pt[..]), pd[..], pt[..], m, w)
      ensures frames.Free() == old(frames.Free()) + {FrameBitmap.FrameOf(old(GetPhysaddr(m)))}
    {
      var phys := GetPhysaddr(m);
      UnmapPage(m);
      frames.MarkFree(phys);
      forall w: u32 ensures UnmapAt(old(pd[..]), old(pt[..]), pd[..], pt[..], m, w) {
        if PageBase(w) == PageBase(m) {
          assert !Mapped(w);
        } else if PageTables.PdIndex(w) != MountSlot {
          assert Mapped(w) == old(Mapped(w));
        }
      }
    }

    /** One iteration of free_kbrk's walk at m, in terms of the walk's progress since (pdA, ptA). */
    method FreeWalkPage(m: u32, ghost pdA: seq<u32>, ghost ptA: seq<u32>, ghost min: u32)
      requires Valid() && |pdA| == PageTables.DirEntries && |ptA| == PageTables.WindowEntries
      requires PageBase(m) <= PageBase(min) && m < MountBase
      requires FrameBitmap.Covered(PageTables.Physaddr(pdA, ptA, m))
      requires FreeWalk(pdA, ptA, pd[..], pt[..], min, PageBase(m) + PageSize, frames.Free())
      modifies pd, pt, frames.bits
      ensures Valid()
      ensures FreeWalk(pdA, ptA, pd[..], pt[..], min, PageBase(m), frames.Free())
      ensures old(frames.Free()) <= frames.Free()
    {
      ghost var pd0, pt0, free0 := pd[..], pt[..], frames.Free();
      if Mapped(m) {
        assert WithinAt(pd0, pt0, pdA, ptA, m);
      }
      FreePage(m);
      FreeWalkStep(pdA, ptA, pd0, pt0, pd[..], pt[..], min, m, free0, frames.Free());
    }

    /** One iteration of the corrected walk at cur. */
    method FreeUpPage(cur: u32, ghost pdA: seq<u32>, ghost ptA: seq<u32>, ghost min: u32)
      requires Valid() && |pdA| == PageTables.DirEntries && |ptA| == PageTables.WindowEntries
      requires min <= cur && Low12(cur) == Low12(min) && PageTables.PdIndex(cur) != MountSlot
      requires FrameBitmap.Covered(PageTables.Physaddr(pdA, ptA, cur))
      requires FreeUp(pdA, ptA, pd[..], pt[..], min, cur, frames.Free())
      modifies pd, pt, frames.bits
      ensures Valid()
      ensures FreeUp(pdA, ptA, pd[..], pt[..], min, cur + PageSize, frames.Free())
      ensures old(frames.Free()) <= frames.Free()
    {
      ghost var pd0, pt0, free0 := pd[..], pt[..], frames.Free();
      if Mapped(cur) {
        assert WithinAt(pd0, pt0, pdA, ptA, cur);
      }
      FreePage(cur);
      FreeUpStep(pdA, ptA, pd0, pt0, pd[..], pt[..], min, cur, free0, frames.Free());
    }

    /**
     * free_kbrk: from min, while `min < max`, frees min's page and steps to
     * the previous page. The walk goes down from min, away from max: it
     * unmaps min's page and every page below it (FreeWalk with nothing left
     * below), frees each frame they mapped, and leaves the pages between min
     * and max alone. Page 0 steps back to the last page, which ends the walk
     * because max is at most that page.
     */
    method FreeKbrk(min: u32, max: u32)
      requires Valid() && max <= TopPage && min < MountBase
      requires forall w: u32 :: w < MountBase ==> FrameBitmap.Covered(GetPhysaddr(w))
      modifies pd, pt, frames.bits
      ensures Valid()
      ensures min >= max ==> pd[..] == old(pd[..]) && pt[..] == old(pt[..]) && frames.bits[..] == old(frames.bits[..])
      ensures min < max ==> FreeWalk(old(pd[..]), old(pt[..]), pd[..], pt[..], min, 0, frames.Free())
      ensures old(frames.Free()) <= frames.Free()
    {
      ghost var pdA, ptA := pd[..], pt[..];
      var m: u32 := min;
      ghost var done: int := PageBase(min) + PageSize;
      FreeWalkStart(pdA, ptA, min, frames.Free());
      while m < max
        invariant Valid()
        invariant min >= max ==> m == min && pd[..] == pdA && pt[..] == ptA && frames.bits[..] == old(frames.bits[..])
        invariant 0 <= done <= PageBase(min) + PageSize && done % PageSize == 0
        invariant m < max ==> PageBase(m) + PageSize == done && m < MountBase
        invariant m >= max ==> done == 0 || min >= max
        invariant FreeWalk(pdA, ptA, pd[..], pt[..], min, done, frames.Free())
        invariant old(frames.Free()) <= frames.Free()
        decreases if m < max then m / PageSize + 1 else 0
      {
        assert old(FrameBitmap.Covered(GetPhysaddr(m)));
        FreeWalkPage(m, pdA, ptA, min);
        done := PageBase(m);
        m := PrevPage(m);
      }
    }

    /**
     * free_kbrk as evidently intended: from min, while below max, frees the
     * page and steps up a page, the mirror of alloc_kbrk's walk. Every page
     * the walk visits is unmapped and its frame freed; every other page
     * outside the window keeps its translation.
     */
    method FreeKbrkRange(min: u32, max: u32)
      requires Valid() && max <= TopPage
      requires MountEnd <= min || max <= MountBase
      requires forall w: u32 :: Visited(min, max, w) ==> FrameBitmap.Covered(GetPhysaddr(w))
      modifies pd, pt, frames.bits
      ensures Valid()
      ensures FreeUp(old(pd[..]), old(pt[..]), pd[..], pt[..], min, max, frames.Free())
      ensures old(frames.Free()) <= frames.Free()
    {
      ghost var pdA, ptA := pd[..], pt[..];
      var cur: u32 := min;
      FreeUpStart(pdA, ptA, min, frames.Free());
      while cur < max
        invariant Valid() && min <= cur && Low12(cur) == Low12(min)
        invariant cur == min || cur < max + PageSize
        invariant FreeUp(pdA, ptA, pd[..], pt[..], min, cur, frames.Free())
        invariant old(frames.Free()) <= frames.Free()
        decreases max - cur
      {
        UpStep(min, cur, max);
        assert old(FrameBitmap.Covered(GetPhysaddr(cur)));
        FreeUpPage(cur, pdA, ptA, min);
        cur := cur + PageSize;
      }
      FreeUpDone(pdA, ptA, pd[..], pt[..], min, max, cur, frames.Free());
    }

    /**
     * set_kbrk: reads the break b; a higher addr gives pages back from b up
     * to addr (through the corrected walk), a lower or equal one maps pages
     * from addr up to b.
     */
    method SetKbrk(addr: u32)
      requires Valid()
      requires var b := KbrkAddress(pd[..], pt[..]);
        if addr > b then
          addr <= TopPage && (MountEnd <= b || addr <= MountBase)
          && forall w: u32 :: Visited(b, addr, w) ==> FrameBitmap.Covered(GetPhysaddr(w))
        else MountEnd <= addr || (b != NoBreak && b <= MountBase)
      modifies pd, pt, frames.bits
      ensures Valid()
      ensures var b := old(KbrkAddress(pd[..], pt[..]));
        addr > b ==> FreeUp(old(pd[..]), old(pt[..]), pd[..], pt[..], b, addr, frames.Free())
                     && old(frames.Free()) <= frames.Free()
      ensures var b := old(KbrkAddress(pd[..], pt[..]));
        addr <= b ==>
          Within(old(pd[..]), old(pt[..]), pd[..], pt[..])
          && NewWith(old(pd[..]), old(pt[..]), pd[..], pt[..], ReadWrite)
          && (FrameBitmap.FreePageAddress(frames.bits[..]) == 0
              || ((b == NoBreak ==> Mapped(TopPage))
                  && forall w: u32 :: addr <= w < (if b == NoBreak then TopPage else b) ==> Mapped(w)))
          && State() == AllocKbrkSpec(old(State()), addr, b)
          && TakesFrom(old(State()), State())
    {
      var b := GetKbrk();
      if addr > b {
        FreeKbrkRange(b, addr);
      } else {
        AllocKbrk(addr, b);
      }
    }
  }

  /** The end of get_kbrk: `~0` for (1023, 1023), else VM_INDEXES_TO_PTR(pdindex, ptindex). */
  function KbrkPointer(pdindex: nat, ptindex: nat): (r: u32)
    requires pdindex < 1024 && ptindex < 1024
    ensures pdindex == TopSlot && ptindex == 1023 ==> r == NoBreak
    ensures !(pdindex == TopSlot && ptindex == 1023) ==>
      PageTables.PdIndex(r) == pdindex && PageTables.PtIndex(r) == ptindex && r % PageSize == 0
  {
    if pdindex == TopSlot && ptindex == 1023 then NoBreak else pdindex * 0x40_0000 + ptindex * PageSize
  }
}
