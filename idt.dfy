/**
 * Interrupt descriptor table gates (Intel SDM Vol. 3A, section 6.11, "IDT
 * Descriptors") and the end-of-interrupt commands of the two cascaded 8259
 * programmable interrupt controllers, shared by both kernels' interrupt
 * code.
 */
module Idt {
  /** IDT_TABLE_SZ and sizeof(struct idt_entry). */
  const TableSize: nat := 256
  const EntrySize: nat := 8

  /** The IDT limit: the offset of the last byte of the table. */
  const TableLimit: bv16 := 0x7FF

  /** The limit covers exactly the 256 entries of 8 bytes. */
  lemma TableLimitCoversTable()
    ensures TableLimit as int + 1 == EntrySize * TableSize
  {
  }

  /** The vectors the master and the slave PIC are remapped to. */
  const MasterBase: nat := 0x20
  const SlaveBase: nat := 0x28

  /** The kernel code selector and the gate type setup_idt uses: present, DPL 0, 32-bit interrupt gate. */
  const KernelCodeSelector: bv16 := 0x08
  const InterruptGate: bv8 := 0x8E

  /** `struct idt_entry`, field by field. */
  datatype IdtEntry = IdtEntry(baseLo: bv16, sel: bv16, always0: bv8, flags: bv8, baseHi: bv16)

  const Empty: IdtEntry := IdtEntry(0, 0, 0, 0, 0)

  /** The handler address the processor assembles from the two halves. */
  function HandlerOf(e: IdtEntry): bv32
  {
    e.baseLo as bv32 | (e.baseHi as bv32 << 16)
  }

  /** The gate idt_set_gate writes for a handler address, a selector and the flags byte it stores. */
  function Gate(base: bv32, sel: bv16, flags: bv8): IdtEntry
  {
    IdtEntry((base & 0xFFFF) as bv16, sel, 0, flags, ((base >> 16) & 0xFFFF) as bv16)
  }

  /** A gate reads back as the handler, selector and flags given, with the reserved byte zero. */
  lemma GateMeans(base: bv32, sel: bv16, flags: bv8)
    ensures var e := Gate(base, sel, flags);
      HandlerOf(e) == base && e.sel == sel && e.flags == flags && e.always0 == 0
  {
  }

  /** Every entry whose reserved byte is zero is the gate of its own handler, selector and flags. */
  lemma GateOfDecoded(e: IdtEntry)
    requires e.always0 == 0
    ensures Gate(HandlerOf(e), e.sel, e.flags) == e
  {
  }

  /** The two 8259 controllers an end-of-interrupt command goes to. */
  datatype Chip = Master | Slave

  /**
   * The mask a data port holds after `value = inb(port) & ~(1 << line);
   * outb(port, value)`: the bit of the line cleared.
   */
  function Unmasked(mask: bv8, line: nat): bv8
    requires line < 8
  {
    mask & !(1 << line)
  }

  /** Unmasking clears the bit of the line and keeps every other bit. */
  lemma UnmaskedClearsOnlyLine(mask: bv8, line: nat, other: nat)
    requires line < 8 && other < 8
    ensures Unmasked(mask, line) & (1 << line) == 0
    ensures other != line ==> Unmasked(mask, line) & (1 << other) == mask & (1 << other)
  {
  }
}
