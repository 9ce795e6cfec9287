/**
 * The global descriptor table of the older kernel: the encoder that splits
 * a segment's base, limit, access byte and granularity flags into the
 * fields of an 8-byte descriptor (Intel SDM Vol. 3A, section 3.4.5,
 * "Segment Descriptors"), and the flat kernel code and data segments the
 * boot code installs.
 */
module Gdt {

  /** GDT_ENTRIES_SZ and the indices of the kernel segments. */
  const EntryCount: nat := 3
  const KernelCode: nat := 1
  const KernelData: nat := 2

  /** sizeof(struct gdt_entry). */
  const EntrySize: nat := 8

  /** `struct gdt_entry`, field by field, as the bit patterns the processor reads. */
  datatype GdtEntry = GdtEntry(limitLow: bv16, baseLow: bv16, baseMiddle: bv8, access: bv8, granularity: bv8, baseHigh: bv8)

  const Zero: GdtEntry := GdtEntry(0, 0, 0, 0, 0, 0)

  /** The 32-bit base the processor assembles from the three base fields. */
  function BaseOf(e: GdtEntry): bv32
  {
    e.baseLow as bv32 | (e.baseMiddle as bv32 << 16) | (e.baseHigh as bv32 << 24)
  }

  /** The 20-bit limit: limit_low and the low nibble of granularity. */
  function LimitOf(e: GdtEntry): bv32
  {
    e.limitLow as bv32 | ((e.granularity & 0x0F) as bv32 << 16)
  }

  /** The flags nibble (G, D/B, L, AVL): the high nibble of granularity. */
  function FlagsOf(e: GdtEntry): bv8
  {
    e.granularity >> 4
  }

  /**
   * The descriptor gdt_set_gate writes: the base split 16/8/8, the limit
   * cut to 20 bits, the flags taken from the high nibble of `gran`, and the
   * access byte as given.
   */
  function Encode(base: bv32, limit: bv32, access: bv8, gran: bv8): GdtEntry
  {
    GdtEntry((limit & 0xFFFF) as bv16, (base & 0xFFFF) as bv16, ((base >> 16) & 0xFF) as bv8, access,
             ((limit >> 16) & 0x0F) as bv8 | (gran & 0xF0), ((base >> 24) & 0xFF) as bv8)
  }

  /** The processor reads back the base, the 20-bit limit, the flags and the access byte given. */
  lemma EncodeMeans(base: bv32, limit: bv32, access: bv8, gran: bv8)
    ensures var e := Encode(base, limit, access, gran);
      BaseOf(e) == base && LimitOf(e) == limit & 0xF_FFFF
      && FlagsOf(e) == gran >> 4 && e.access == access
  {
  }

  /** Every descriptor is the encoding of its own base, limit, access and flags. */
  lemma EncodeOfDecoded(e: GdtEntry)
    ensures Encode(BaseOf(e), LimitOf(e), e.access, e.granularity) == e
  {
  }

  /** A descriptor of a flat 4 GiB segment at base 0 with 4 KiB granularity and 32-bit operands. */
  predicate Flat(e: GdtEntry)
  {
    BaseOf(e) == 0 && LimitOf(e) == 0xF_FFFF && FlagsOf(e) == 0xC
  }

  /** The descriptors setup_gdt installs for kernel code and data. */
  const CodeSegment: GdtEntry := GdtEntry(0xFFFF, 0, 0, 0x9A, 0xCF, 0)
  const DataSegment: GdtEntry := GdtEntry(0xFFFF, 0, 0, 0x92, 0xCF, 0)

  /**
   * The kernel segments are flat, with the access bytes of ring-0
   * execute/read code and read/write data.
   */
  lemma KernelSegmentsFlat()
    ensures Flat(CodeSegment) && Flat(DataSegment)
    ensures CodeSegment.access == 0x9A && DataSegment.access == 0x92
  {
  }

  /** The table `gdt_entries` and the pointer `gdt_base` handed to lgdt. */
  class GlobalDescriptorTable {
    var entries: array<GdtEntry>
    var limit: bv16
    var base: bv32

    ghost predicate Valid()
      reads this
    {
      entries.Length == EntryCount
    }

    /** The zero-initialised globals. */
    constructor ()
      ensures Valid() && fresh(entries)
      ensures entries[..] == [Zero, Zero, Zero] && limit == 0 && base == 0
    {
      entries := new GdtEntry[EntryCount](_ => Zero);
      limit, base := 0, 0;
      new;
      assert entries[..] == [entries[0], entries[1], entries[2]];
    }

    /** gdt_set_gate: writes the fields of entry num one after the other; no other entry changes. */
    method SetGate(num: nat, base: bv32, limit: bv32, access: bv8, gran: bv8)
      requires Valid() && num < EntryCount
      modifies entries
      ensures entries[..] == old(entries[..])[num := Encode(base, limit, access, gran)]
    {
      entries[num] := entries[num].(baseLow := (base & 0xFFFF) as bv16);
      entries[num] := entries[num].(baseMiddle := ((base >> 16) & 0xFF) as bv8);
      entries[num] := entries[num].(baseHigh := ((base >> 24) & 0xFF) as bv8);
      entries[num] := entries[num].(limitLow := (limit & 0xFFFF) as bv16);
      entries[num] := entries[num].(granularity := ((limit >> 16) & 0x0F) as bv8);
      entries[num] := entries[num].(granularity := entries[num].granularity | (gran & 0xF0));
      entries[num] := entries[num].(access := access);
    }

    /**
     * setup_gdt: the null descriptor, then flat ring-0 code (access 0x9A)
     * and data (access 0x92) segments, and a table limit of 3 * 8 - 1. The
     * table's address is a parameter; loading it with lgdt is not modelled.
     */
    method Setup(address: bv32)
      requires Valid()
      modifies this, entries
      ensures Valid() && entries == old(entries)
      ensures entries[..] == [Zero, CodeSegment, DataSegment]
      ensures limit as int == EntryCount * EntrySize - 1 && base == address
    {
      SetGate(0, 0, 0, 0, 0);
      SetGate(KernelCode, 0, 0xFFFF_FFFF, 0x9A, 0xCF);
      SetGate(KernelData, 0, 0xFFFF_FFFF, 0x92, 0xCF);
      assert Encode(0, 0, 0, 0) == Zero;
      assert Encode(0, 0xFFFF_FFFF, 0x9A, 0xCF) == CodeSegment;
      assert Encode(0, 0xFFFF_FFFF, 0x92, 0xCF) == DataSegment;
      base := address;
      limit := (EntrySize * EntryCount - 1) as bv16;
    }
  }
}
