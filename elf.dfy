/**
 * The part of kmain that loads the INIT program: the ELF identification
 * check, the program-header entry size check, and the placement of every
 * PT_LOAD segment as a file-backed region of the vm map at exactly its
 * virtual address.
 */
module ElfLoader {
  import opened Words
  import Regions

  /** sizeof(struct elf_phrd): eight packed 32-bit fields. */
  const ProgramHeaderSize: u16 := 32

  /** PT_LOAD, the loadable segment type of the System V ABI. */
  const PtLoad: u32 := 1

  /** VM_MAP_FILE | VM_MAP_WRITE | VM_MAP_USER. */
  const SegmentFlags: u32 := 0x2001_0002

  /** The fields of `struct elf_header` the loader looks at. */
  datatype ElfHeader = ElfHeader(ident: seq<u8>, phentsize: u16, phnum: u16)

  /** The fields of `struct elf_phrd` the loader looks at. */
  datatype ProgramHeader = ProgramHeader(kind: u32, offset: u32, vaddr: u32, filesz: u32, memsz: u32)

  /** How the loading ends. */
  datatype LoadOutcome =
    | WrongEntrySize     // phentsize is not sizeof(struct elf_phrd)
    | Misplaced(at: nat) // add_vm_entry did not return the vaddr of program header `at`
    | Hangs(at: nat)     // add_vm_entry never returns for program header `at`
    | Loaded

  /**
   * The identification bytes: the magic 0x7f 'E' 'L' 'F', ELFCLASS32 and
   * ELFDATA2LSB.
   */
  predicate IdentValid(ident: seq<u8>)
    requires |ident| == 16
  {
    ident[0] == 0x7f && ident[1] == 'E' as u8 && ident[2] == 'L' as u8 && ident[3] == 'F' as u8
    && ident[4] == 1 && ident[5] == 1
  }

  /** The region add_vm_entry is asked to create for a program header. */
  function Segment(ph: ProgramHeader, file: nat): Regions.Region
  {
    Regions.Region(ph.vaddr, ph.memsz, SegmentFlags, file, ph.offset, ph.filesz)
  }

  /** The regions of the PT_LOAD headers, in order. */
  function Segments(phs: seq<ProgramHeader>, file: nat): seq<Regions.Region>
  {
    if phs == [] then []
    else
      var last := phs[|phs| - 1];
      Segments(phs[..|phs| - 1], file) + (if last.kind == PtLoad then [Segment(last, file)] else [])
  }

  /** The segments are exactly the regions of the PT_LOAD headers. */
  lemma {:induction false} SegmentsOfLoads(phs: seq<ProgramHeader>, file: nat, r: Regions.Region)
    ensures r in Segments(phs, file) <==>
      exists k :: 0 <= k < |phs| && phs[k].kind == PtLoad && r == Segment(phs[k], file)
    decreases |phs|
  {
    if phs != [] {
      var init, last := phs[..|phs| - 1], phs[|phs| - 1];
      SegmentsOfLoads(init, file, r);
      if r in Segments(init, file) {
        var k :| 0 <= k < |init| && init[k].kind == PtLoad && r == Segment(init[k], file);
        assert phs[k] == init[k];
      }
      if exists k :: 0 <= k < |phs| && phs[k].kind == PtLoad && r == Segment(phs[k], file) {
        var k :| 0 <= k < |phs| && phs[k].kind == PtLoad && r == Segment(phs[k], file);
        if k < |init| {
          assert init[k] == phs[k];
        }
      }
    }
  }

  /** Inserting into the directory adds exactly the new region. */
  lemma InsertAdds(s: seq<Regions.Region>, i: nat, e: Regions.Region)
    requires i <= |s|
    ensures multiset(Regions.Insert(s, i, e)) == multiset(s) + multiset{e}
  {
    assert s == s[..i] + s[i..];
    assert Regions.Insert(s, i, e) == s[..i] + [e] + s[i..];
  }

  /**
   * What add_vm_entry for a segment did to the vm map, as multisets of
   * regions before and after.
   */
  ghost predicate Added(r: Regions.AddResult, before: multiset<Regions.Region>, after: multiset<Regions.Region>,
                        ph: ProgramHeader, file: nat)
  {
    match r
    case Diverges => after == before
    case Returned(a) => before <= after && (a == ph.vaddr ==> after == before + multiset{Segment(ph, file)})
  }

  /**
   * add_vm_entry for one PT_LOAD header. When it answers the segment's
   * vaddr the segment was added as it is; any other answer also added one
   * region; a call that never returns changes nothing.
   */
  method MapSegment(regions: Regions.RegionMap, ph: ProgramHeader, file: nat) returns (r: Regions.AddResult)
    requires regions.Valid() && 1 <= regions.count < Regions.Capacity && file != 0
    modifies regions, regions.entries
    ensures regions.Valid() && regions.entries == old(regions.entries)
    ensures regions.count <= old(regions.count) + 1
    ensures Added(r, multiset(old(regions.Live())), multiset(regions.Live()), ph, file)
  {
    ghost var s := regions.Live();
    assert Regions.FlagsAccepted(SegmentFlags, file);
    r := regions.AddVmEntry(ph.vaddr, ph.memsz, SegmentFlags, file, ph.offset, ph.filesz);
    ghost var e := Regions.Region(PageBase(ph.vaddr), ph.memsz, SegmentFlags, file, ph.offset, ph.filesz);
    ghost var retry := Regions.BestUpTo(s, ph.memsz, |s|, Regions.NoBest).hint;
    match Regions.FirstFitFrom(s, PageBase(ph.vaddr), ph.memsz, 0)
    case Some(i) =>
      InsertAdds(s, i, e);
    case None =>
      match Regions.FirstFitFrom(s, retry, ph.memsz, 0)
      case Some(i) =>
        InsertAdds(s, i, e.(base := retry));
      case None =>
  }

  /**
   * What the vm map holds after the program-header loop ended with `outcome`,
   * as multisets of regions before and after: a complete load added exactly
   * the PT_LOAD segments; a hang at header k added those before k; a
   * misplaced segment k added those before k and at least one more region.
   */
  ghost predicate Describes(outcome: LoadOutcome, before: multiset<Regions.Region>, after: multiset<Regions.Region>,
                            phdrs: seq<ProgramHeader>, file: nat)
  {
    match outcome
    case WrongEntrySize => after == before
    case Loaded => after == before + multiset(Segments(phdrs, file))
    case Hangs(k) =>
      k < |phdrs| && phdrs[k].kind == PtLoad
      && after == before + multiset(Segments(phdrs[..k], file))
    case Misplaced(k) =>
      k < |phdrs| && phdrs[k].kind == PtLoad
      && before + multiset(Segments(phdrs[..k], file)) <= after
  }

  /**
   * Loading INIT from its header and program headers (as fat_read delivers
   * them) into the vm map, with `file` the handle of the open file. A bad
   * identification is only reported. A wrong program-header size aborts
   * before anything is mapped.
   */
  method LoadProgram(regions: Regions.RegionMap, h: ElfHeader, phdrs: seq<ProgramHeader>, file: nat)
    returns (identOk: bool, outcome: LoadOutcome)
    requires regions.Valid() && 1 <= regions.count && regions.count + |phdrs| < Regions.Capacity
    requires |h.ident| == 16 && |phdrs| == h.phnum as int && file != 0
    modifies regions, regions.entries
    ensures regions.Valid() && regions.entries == old(regions.entries)
    ensures identOk == IdentValid(h.ident)
    ensures outcome == WrongEntrySize <==> h.phentsize != ProgramHeaderSize
    ensures outcome == WrongEntrySize ==> regions.Live() == old(regions.Live())
    ensures Describes(outcome, multiset(old(regions.Live())), multiset(regions.Live()), phdrs, file)
  {
    identOk := IdentValid(h.ident);
    if h.phentsize != ProgramHeaderSize {
      return identOk, WrongEntrySize;
    }
    outcome := LoadSegments(regions, phdrs, file);
  }

  /**
   * The program-header loop: each PT_LOAD header is mapped in turn, and an
   * add_vm_entry that does not answer the segment's vaddr aborts the rest.
   */
  method LoadSegments(regions: Regions.RegionMap, phdrs: seq<ProgramHeader>, file: nat)
    returns (outcome: LoadOutcome)
    requires regions.Valid() && 1 <= regions.count && regions.count + |phdrs| < Regions.Capacity
    requires file != 0
    modifies regions, regions.entries
    ensures regions.Valid() && regions.entries == old(regions.entries)
    ensures outcome != WrongEntrySize
    ensures Describes(outcome, multiset(old(regions.Live())), multiset(regions.Live()), phdrs, file)
  {
    ghost var start := multiset(regions.Live());
    var i := 0;
    while i < |phdrs|
      invariant i <= |phdrs| && regions.Valid() && regions.entries == old(regions.entries)
      invariant 1 <= regions.count <= old(regions.count) + i
      invariant multiset(regions.Live()) == start + multiset(Segments(phdrs[..i], file))
    {
      outcome := LoadHeader(regions, phdrs, i, file, start);
      if outcome != Loaded {
        return;
      }
      i := i + 1;
    }
    assert phdrs[..i] == phdrs;
    outcome := Loaded;
  }

  /**
   * One turn of the program-header loop, for header i: Loaded when the loop
   * goes on, with the segment added if the header is a PT_LOAD.
   */
  method LoadHeader(regions: Regions.RegionMap, phdrs: seq<ProgramHeader>, i: nat, file: nat,
                    ghost start: multiset<Regions.Region>)
    returns (outcome: LoadOutcome)
    requires regions.Valid() && 1 <= regions.count < Regions.Capacity && file != 0 && i < |phdrs|
    requires multiset(regions.Live()) == start + multiset(Segments(phdrs[..i], file))
    modifies regions, regions.entries
    ensures regions.Valid() && regions.entries == old(regions.entries)
    ensures regions.count <= old(regions.count) + 1 && outcome != WrongEntrySize
    ensures outcome == Loaded ==> multiset(regions.Live()) == start + multiset(Segments(phdrs[..i + 1], file))
    ensures outcome != Loaded ==> Describes(outcome, start, multiset(regions.Live()), phdrs, file)
  {
    var ph := phdrs[i];
    SegmentsStep(phdrs, i, file);
    outcome := Loaded;
    if ph.kind == PtLoad {
      var r := MapSegment(regions, ph, file);
      if r == Regions.Diverges {
        outcome := Hangs(i);
      } else if r.addr != ph.vaddr {
        outcome := Misplaced(i);
      }
    }
  }

  /** One more program header adds its segment if it is a PT_LOAD. */
  lemma SegmentsStep(phdrs: seq<ProgramHeader>, i: nat, file: nat)
    requires i < |phdrs|
    ensures multiset(Segments(phdrs[..i + 1], file)) == multiset(Segments(phdrs[..i], file))
      + (if phdrs[i].kind == PtLoad then multiset{Segment(phdrs[i], file)} else multiset{})
  {
    assert phdrs[..i + 1][..i] == phdrs[..i];
  }

  /** After a complete load, every PT_LOAD segment is a region of the vm map. */
  lemma LoadedHasEverySegment(before: seq<Regions.Region>, after: seq<Regions.Region>,
                              phdrs: seq<ProgramHeader>, file: nat)
    requires multiset(after) == multiset(before) + multiset(Segments(phdrs, file))
    ensures forall k :: 0 <= k < |phdrs| && phdrs[k].kind == PtLoad ==> Segment(phdrs[k], file) in after
    ensures forall r :: r in before ==> r in after
  {
    forall k | 0 <= k < |phdrs| && phdrs[k].kind == PtLoad
      ensures Segment(phdrs[k], file) in after
    {
      SegmentsOfLoads(phdrs, file, Segment(phdrs[k], file));
      assert Segment(phdrs[k], file) in multiset(after);
    }
    forall r | r in before
      ensures r in after
    {
      assert r in multiset(after);
    }
  }
}
