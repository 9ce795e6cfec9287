/**
 * The interrupt layer of the older kernel: IDT gates stored with the flags
 * as given, the timer countdown `tick` the sleep loop waits on, and the
 * end-of-interrupt commands. Only the timer and the keyboard are
 * serviced; every other vector dumps the registers.
 */
module OldInterrupts {
  import opened Words
  import opened Idt
  import Interrupts

  /** The timer's vector after remapping (IRQ 0) and the keyboard's (IRQ 1). */
  const TimerVector: u32 := 0x20
  const KeyboardVector: u32 := 0x21

  /** The system-call vector of the older kernel, reachable from ring 3. */
  const SyscallVector: nat := 80

  /** The highest vector below 0x80 that setup_idt gives a gate. */
  const LastHandledVector: nat := 42

  /** `0b11111000`: timer, keyboard and cascade lines open on the master. */
  const MasterMask: bv8 := 0xF8
  const SlaveMask: bv8 := 0xFF

  /** What interrupt_handler does beyond the countdown and the end-of-interrupt. */
  datatype Report =
    | Quiet          // the timer: nothing is printed
    | Registers      // the registers are dumped
    | WithScancode   // the registers and then the keyboard's scancode

  /** The countdown `tick` after one interrupt: the timer takes one off while it is positive. */
  function Tick(t: u32, vector: u32): u32
  {
    if vector == TimerVector && t > 0 then t - 1 else t
  }

  /** The countdown after a run of interrupts, in the order they arrive. */
  function Countdown(t: u32, vectors: seq<u32>): u32
  {
    if vectors == [] then t else Countdown(Tick(t, vectors[0]), vectors[1..])
  }

  /** The number of timer interrupts in a run. */
  function TimerCount(vectors: seq<u32>): nat
  {
    multiset(vectors)[TimerVector]
  }

  /**
   * The countdown never goes below zero: after a run it is the start value
   * less the timer interrupts, or zero once there were at least as many.
   */
  lemma {:induction false} CountdownIsSaturatingSubtraction(t: u32, vectors: seq<u32>)
    ensures Countdown(t, vectors) as int == if TimerCount(vectors) >= t as int then 0 else t as int - TimerCount(vectors)
    decreases |vectors|
  {
    if vectors != [] {
      assert vectors == [vectors[0]] + vectors[1..];
      assert multiset(vectors) == multiset{vectors[0]} + multiset(vectors[1..]);
      CountdownIsSaturatingSubtraction(Tick(t, vectors[0]), vectors[1..]);
    }
  }

  /** Interrupts handled in two runs count down as one run. */
  lemma {:induction false} CountdownConcat(t: u32, first: seq<u32>, second: seq<u32>)
    ensures Countdown(t, first + second) == Countdown(Countdown(t, first), second)
    decreases |first|
  {
    if first != [] {
      assert (first + second)[0] == first[0];
      assert (first + second)[1..] == first[1..] + second;
      CountdownConcat(Tick(t, first[0]), first[1..], second);
      assert Countdown(t, first) == Countdown(Tick(t, first[0]), first[1..]);
    } else {
      assert first + second == second;
    }
  }

  /** The older kernel's interrupt table, countdown and PIC registers. */
  class OldInterruptController {
    var idt: array<IdtEntry>
    var limit: bv16
    var base: bv32
    var masterMask: bv8
    var slaveMask: bv8
    var tick: u32
    var acknowledged: seq<Chip>

    ghost predicate Valid()
      reads this
    {
      idt.Length == TableSize
    }

    /** The zero-initialised globals; the PIC masks are whatever the hardware holds. */
    constructor (master: bv8, slave: bv8)
      ensures Valid() && fresh(idt)
      ensures forall v :: 0 <= v < TableSize ==> idt[v] == Empty
      ensures masterMask == master && slaveMask == slave
      ensures tick == 0 && acknowledged == [] && limit == 0 && base == 0
    {
      idt := new IdtEntry[TableSize](_ => Empty);
      limit, base, tick := 0, 0, 0;
      masterMask, slaveMask, acknowledged := master, slave, [];
    }

    /** idt_set_gate: the flags are stored as given; no other gate changes. */
    method SetGate(num: u8, handler: bv32, sel: bv16, flags: bv8)
      requires Valid()
      modifies idt
      ensures idt[..] == old(idt[..])[num := Gate(handler, sel, flags)]
    {
      idt[num] := idt[num].(baseLo := (handler & 0xFFFF) as bv16);
      idt[num] := idt[num].(baseHi := ((handler >> 16) & 0xFFFF) as bv16);
      idt[num] := idt[num].(sel := sel);
      idt[num] := idt[num].(always0 := 0);
      idt[num] := idt[num].(flags := flags);
    }

    /**
     * PIC_sendEOI: its `irq > 0x2F` test acknowledges every vector of the
     * two PICs, the rule of the corrected end-of-interrupt of the newer kernel.
     */
    method SendEoi(irq: u8)
      modifies this
      ensures acknowledged == old(acknowledged) + Interrupts.Eoi(irq)
      ensures idt == old(idt) && tick == old(tick) && masterMask == old(masterMask)
      ensures slaveMask == old(slaveMask) && limit == old(limit) && base == old(base)
    {
      if irq < MasterBase || irq > SlaveBase + 7 {
        return;
      }
      if irq >= SlaveBase {
        acknowledged := acknowledged + [Slave];
      }
      acknowledged := acknowledged + [Master];
    }

    /**
     * interrupt_handler: the timer counts `tick` down without going below
     * zero and prints nothing; every other vector dumps the registers, the
     * keyboard's also its scancode; the vector, cut to a byte, is always
     * acknowledged. The printing and the port read happen outside the model.
     */
    method Handle(vector: u32) returns (report: Report)
      modifies this
      ensures tick == Tick(old(tick), vector) && tick <= old(tick)
      ensures vector == TimerVector && old(tick) > 0 ==> tick as int == old(tick) as int - 1
      ensures report == (if vector == TimerVector then Quiet
                         else if vector == KeyboardVector then WithScancode else Registers)
      ensures acknowledged == old(acknowledged) + Interrupts.Eoi((vector % 256) as u8)
      ensures idt == old(idt) && masterMask == old(masterMask) && slaveMask == old(slaveMask)
      ensures limit == old(limit) && base == old(base)
    {
      if vector == TimerVector {
        if tick > 0 {
          tick := tick - 1;
        }
        SendEoi((vector % 256) as u8);
        return Quiet;
      }
      report := Registers;
      if vector == KeyboardVector {
        report := WithScancode;
      }
      SendEoi((vector % 256) as u8);
    }

    /**
     * setup_idt: interrupt gates (0x8E) for vectors 0..42 and a gate user
     * mode may invoke (0xEE) for vector 80, the IDT pointer, and the masks
     * that leave only the master's lines 0..2 open. stubs[43] is the stub
     * of vector 80; the table's address is a parameter; the PIC remapping
     * sequence and lidt are not modelled.
     */
    method Setup(stubs: seq<bv32>, address: bv32)
      requires Valid() && |stubs| == LastHandledVector + 2
      modifies this, idt
      ensures Valid() && idt == old(idt) && tick == old(tick) && acknowledged == old(acknowledged)
      ensures forall v :: 0 <= v <= LastHandledVector ==> idt[v] == Gate(stubs[v], KernelCodeSelector, InterruptGate)
      ensures idt[SyscallVector] == Gate(stubs[LastHandledVector + 1], KernelCodeSelector, InterruptGate | 0x60)
      ensures forall v :: LastHandledVector < v < TableSize && v != SyscallVector ==> idt[v] == old(idt[v])
      ensures limit == TableLimit && base == address
      ensures masterMask == MasterMask && slaveMask == SlaveMask
    {
      InstallGates(stubs);
      base := address;
      limit := TableLimit;
      masterMask, slaveMask := MasterMask, SlaveMask;
    }

    /** The idt_set_gate calls of setup_idt: vectors 0..42, then 80. */
    method InstallGates(stubs: seq<bv32>)
      requires Valid() && |stubs| == LastHandledVector + 2
      modifies idt
      ensures forall v :: 0 <= v <= LastHandledVector ==> idt[v] == Gate(stubs[v], KernelCodeSelector, InterruptGate)
      ensures idt[SyscallVector] == Gate(stubs[LastHandledVector + 1], KernelCodeSelector, InterruptGate | 0x60)
      ensures forall v :: LastHandledVector < v < TableSize && v != SyscallVector ==> idt[v] == old(idt[v])
    {
      var k := 0;
      while k <= LastHandledVector
        invariant k <= LastHandledVector + 1
        invariant forall v :: 0 <= v < k ==> idt[v] == Gate(stubs[v], KernelCodeSelector, InterruptGate)
        invariant forall v :: k <= v < TableSize ==> idt[v] == old(idt[v])
      {
        SetGate(k as u8, stubs[k], KernelCodeSelector, InterruptGate);
        k := k + 1;
      }
      SetGate(SyscallVector as u8, stubs[LastHandledVector + 1], KernelCodeSelector, InterruptGate | 0x60);
    }
  }

  /** The masks setup_idt leaves open exactly the master's lines 0..2 and none of the slave's. */
  lemma SetupMasksOpenTimerKeyboardCascade(line: nat)
    requires line < 8
    ensures MasterMask & (1 << line) == 0 <==> line <= 2
    ensures SlaveMask & (1 << line) != 0
  {
  }
}
