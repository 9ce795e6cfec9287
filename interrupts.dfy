/**
 * The interrupt layer of the newer kernel: IDT gates that user mode may
 * invoke, a registry of handlers for the first 48 vectors, the dispatch
 * decision of interrupt_handler, the PIC mask bits register_interrupt
 * clears, and the end-of-interrupt commands.
 *
 * The two PICs appear through their interrupt mask registers (what
 * `inb`/`outb` on their data ports read and write) and the sequence of
 * end-of-interrupt commands sent to their command ports.
 */
module Interrupts {
  import opened Words
  import opened Idt

  /** `struct inter_holder int_reg[48]`. */
  const RegistrySize: nat := 48

  /** The system-call vector. */
  const SyscallVector: nat := 128

  /** The DPL bits idt_set_gate forces on: every gate may be invoked from ring 3. */
  const UserDpl: bv8 := 0x60

  /** `struct inter_holder`: the handler and its argument are opaque handles. */
  datatype Holder = Holder(present: u8, handler: nat, ext: nat)

  const Unregistered: Holder := Holder(0, 0, 0)

  /** What interrupt_handler does for a vector before the end-of-interrupt. */
  datatype Action =
    | Call(handler: nat, vector: u32, ext: nat) // the registered handler is invoked
    | Syscall                                   // eax is replaced by the system call's result
    | DumpRegisters                             // the registers are printed

  /** The dispatch decision of interrupt_handler. */
  function Dispatch(registry: seq<Holder>, vector: u32): Action
    requires |registry| == RegistrySize
  {
    if vector < RegistrySize as u32 && registry[vector].present == 1 then
      Call(registry[vector].handler, vector, registry[vector].ext)
    else if vector == SyscallVector as u32 then Syscall
    else DumpRegisters
  }

  /**
   * The three ways out of interrupt_handler: a registered vector below 48
   * calls its handler with the vector and its argument; otherwise vector 128
   * is a system call; anything else dumps the registers.
   */
  lemma DispatchCases(registry: seq<Holder>, vector: u32)
    requires |registry| == RegistrySize
    ensures Dispatch(registry, vector).Call? <==> vector < 48 && registry[vector].present == 1
    ensures Dispatch(registry, vector).Call? ==>
      Dispatch(registry, vector) == Call(registry[vector].handler, vector, registry[vector].ext)
    ensures Dispatch(registry, vector) == Syscall <==> vector == 128
    ensures Dispatch(registry, vector) == DumpRegisters <==>
      vector != 128 && !(vector < 48 && registry[vector].present == 1)
  {
  }

  /**
   * PIC_sendEOI as written: nothing below vector 0x20 or from 0x2F up; the
   * slave then the master for 0x28 and above; the master alone otherwise.
   */
  function EoiAsWritten(irq: u8): seq<Chip>
  {
    if irq < MasterBase || irq >= SlaveBase + 7 then []
    else if irq >= SlaveBase then [Slave, Master]
    else [Master]
  }

  /** The end-of-interrupt every PIC vector 0x20..0x2F needs. */
  function Eoi(irq: u8): seq<Chip>
  {
    if irq < MasterBase || irq > SlaveBase + 7 then []
    else if irq >= SlaveBase then [Slave, Master]
    else [Master]
  }

  /**
   * Every vector of the two PICs is acknowledged, the master always and
   * last, the slave exactly for its own lines; other vectors send nothing.
   */
  lemma EoiAcknowledgesPicVectors(irq: u8)
    ensures Eoi(irq) != [] <==> MasterBase <= irq < SlaveBase + 8
    ensures Eoi(irq) != [] ==> Eoi(irq)[|Eoi(irq)| - 1] == Master
    ensures Slave in Eoi(irq) <==> SlaveBase <= irq < SlaveBase + 8
    ensures |Eoi(irq)| <= 2
  {
  }

  /**
   * The as-written test leaves out vector 0x2F, the slave's line 7, which
   * ata.c registers for the secondary ATA channel; it agrees everywhere else.
   */
  lemma LastSlaveLineNeverAcknowledged(irq: u8)
    ensures EoiAsWritten(0x2F) == [] && Eoi(0x2F) == [Slave, Master]
    ensures irq != 0x2F ==> EoiAsWritten(irq) == Eoi(irq)
  {
  }

  /** The interrupt tables and the PIC registers the newer kernel drives. */
  class InterruptController {
    var idt: array<IdtEntry>
    var registry: array<Holder>
    var limit: bv16
    var base: bv32
    var masterMask: bv8
    var slaveMask: bv8
    var acknowledged: seq<Chip>

    ghost predicate Valid()
      reads this
    {
      idt.Length == TableSize && registry.Length == RegistrySize
    }

    /** The zero-initialised globals; the PIC masks are whatever the hardware holds. */
    constructor (master: bv8, slave: bv8)
      ensures Valid() && fresh(idt) && fresh(registry)
      ensures forall v :: 0 <= v < TableSize ==> idt[v] == Empty
      ensures forall v :: 0 <= v < RegistrySize ==> registry[v] == Unregistered
      ensures masterMask == master && slaveMask == slave && acknowledged == []
      ensures limit == 0 && base == 0
    {
      idt := new IdtEntry[TableSize](_ => Empty);
      registry := new Holder[RegistrySize](_ => Unregistered);
      limit, base := 0, 0;
      masterMask, slaveMask, acknowledged := master, slave, [];
    }

    /**
     * idt_set_gate: writes the fields of gate num one after the other, with
     * the DPL bits forced to 3; no other gate changes.
     */
    method SetGate(num: u8, handler: bv32, sel: bv16, flags: bv8)
      requires Valid()
      modifies idt
      ensures idt[..] == old(idt[..])[num := Gate(handler, sel, flags | UserDpl)]
    {
      idt[num] := idt[num].(baseLo := (handler & 0xFFFF) as bv16);
      idt[num] := idt[num].(baseHi := ((handler >> 16) & 0xFFFF) as bv16);
      idt[num] := idt[num].(sel := sel);
      idt[num] := idt[num].(always0 := 0);
      idt[num] := idt[num].(flags := flags | UserDpl);
    }

    /**
     * register_interrupt: records the handler as present, then unmasks the
     * vector's line on the master (vectors 0x20..0x27) or on the slave
     * (0x28 and up); a processor exception vector changes no mask.
     */
    method Register(intno: u32, handler: nat, ext: nat)
      requires Valid() && intno < RegistrySize as u32
      modifies this, registry
      ensures Valid() && idt == old(idt) && registry == old(registry)
      ensures registry[..] == old(registry[..])[intno := Holder(1, handler, ext)]
      ensures MasterBase <= intno < SlaveBase ==>
        masterMask == Unmasked(old(masterMask), intno - MasterBase) && slaveMask == old(slaveMask)
      ensures SlaveBase <= intno ==>
        slaveMask == Unmasked(old(slaveMask), intno - SlaveBase) && masterMask == old(masterMask)
      ensures intno < MasterBase ==> masterMask == old(masterMask) && slaveMask == old(slaveMask)
      ensures unchanged(idt) && acknowledged == old(acknowledged) && limit == old(limit) && base == old(base)
    {
      registry[intno] := registry[intno].(handler := handler);
      registry[intno] := registry[intno].(ext := ext);
      registry[intno] := registry[intno].(present := 1);
      if MasterBase <= intno < SlaveBase {
        masterMask := Unmasked(masterMask, intno - MasterBase);
      } else if SlaveBase <= intno {
        slaveMask := Unmasked(slaveMask, intno - SlaveBase);
      }
    }

    /** PIC_sendEOI, with the whole PIC range acknowledged. */
    method SendEoi(irq: u8)
      modifies this
      ensures acknowledged == old(acknowledged) + Eoi(irq)
      ensures idt == old(idt) && registry == old(registry) && masterMask == old(masterMask)
      ensures slaveMask == old(slaveMask) && limit == old(limit) && base == old(base)
    {
      if irq < MasterBase || irq > SlaveBase + 7 {
        return;
      }
      if irq >= SlaveBase {
        acknowledged := acknowledged + [Slave];
      }
      acknowledged := acknowledged + [Master];
    }

    /**
     * interrupt_handler for the vector saved on the stack: dispatches, takes
     * the system call's result into eax for vector 128, and always ends with
     * an end-of-interrupt for the vector cut to a byte. The handler call,
     * the system call and the register dump happen outside the model; the
     * system call's result is a parameter.
     */
    method Handle(vector: u32, eax: u32, syscallResult: u32) returns (action: Action, eaxAfter: u32)
      requires Valid()
      modifies this
      ensures Valid() && action == Dispatch(registry[..], vector)
      ensures eaxAfter == (if action == Syscall then syscallResult else eax)
      ensures acknowledged == old(acknowledged) + Eoi((vector % 256) as u8)
      ensures idt == old(idt) && registry == old(registry) && masterMask == old(masterMask)
      ensures slaveMask == old(slaveMask) && limit == old(limit) && base == old(base)
    {
      eaxAfter := eax;
      if vector < RegistrySize as u32 && registry[vector].present == 1 {
        action := Call(registry[vector].handler, vector, registry[vector].ext);
      } else if vector == SyscallVector as u32 {
        action := Syscall;
        eaxAfter := syscallResult;
      } else {
        action := DumpRegisters;
      }
      SendEoi((vector % 256) as u8);
    }

    /**
     * setup_idt: clears the registry, installs interrupt gates for vectors
     * 0..47 and 128 (stubs[48] is the stub of vector 128) through the kernel
     * code selector, sets the IDT pointer, and masks every line of both
     * PICs. The address of the table is a parameter; the PIC remapping
     * sequence and lidt are not modelled.
     */
    method Setup(stubs: seq<bv32>, address: bv32)
      requires Valid() && |stubs| == RegistrySize + 1
      modifies this, idt, registry
      ensures Valid() && idt == old(idt) && registry == old(registry)
      ensures forall v :: 0 <= v < RegistrySize ==> registry[v] == Unregistered
      ensures forall v :: 0 <= v < RegistrySize ==> idt[v] == Gate(stubs[v], KernelCodeSelector, InterruptGate | UserDpl)
      ensures idt[SyscallVector] == Gate(stubs[RegistrySize], KernelCodeSelector, InterruptGate | UserDpl)
      ensures forall v :: RegistrySize <= v < TableSize && v != SyscallVector ==> idt[v] == old(idt[v])
      ensures limit == TableLimit && base == address
      ensures masterMask == 0xFF && slaveMask == 0xFF && acknowledged == old(acknowledged)
    {
      ClearRegistry();
      InstallGates(stubs);
      base := address;
      limit := TableLimit;
      masterMask, slaveMask := 0xFF, 0xFF;
    }

    /** The memset of int_reg: every holder absent. */
    method ClearRegistry()
      requires Valid()
      modifies registry
      ensures forall v :: 0 <= v < RegistrySize ==> registry[v] == Unregistered
    {
      var k := 0;
      while k < RegistrySize
        invariant k <= RegistrySize
        invariant forall v :: 0 <= v < k ==> registry[v] == Unregistered
      {
        registry[k] := Unregistered;
        k := k + 1;
      }
    }

    /** The idt_set_gate calls of setup_idt: vectors 0..47, then 128. */
    method InstallGates(stubs: seq<bv32>)
      requires Valid() && |stubs| == RegistrySize + 1
      modifies idt
      ensures forall v :: 0 <= v < RegistrySize ==> idt[v] == Gate(stubs[v], KernelCodeSelector, InterruptGate | UserDpl)
      ensures idt[SyscallVector] == Gate(stubs[RegistrySize], KernelCodeSelector, InterruptGate | UserDpl)
      ensures forall v :: RegistrySize <= v < TableSize && v != SyscallVector ==> idt[v] == old(idt[v])
    {
      var k := 0;
      while k < RegistrySize
        invariant k <= RegistrySize
        invariant forall v :: 0 <= v < k ==> idt[v] == Gate(stubs[v], KernelCodeSelector, InterruptGate | UserDpl)
        invariant forall v :: k <= v < TableSize ==> idt[v] == old(idt[v])
      {
        SetGate(k as u8, stubs[k], KernelCodeSelector, InterruptGate);
        k := k + 1;
      }
      SetGate(SyscallVector as u8, stubs[RegistrySize], KernelCodeSelector, InterruptGate);
    }
  }
}
