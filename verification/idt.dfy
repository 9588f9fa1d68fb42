/** The interrupt descriptor table (idt.c, idt.h): 256 gate descriptors,
    filled once at boot by idt_init. */
module Idt {
  const NUM_VEC: nat := 256
  /** Vectors 0x00..0x13 are the processor exceptions with handlers. */
  const EXCEPTION_SIZE: nat := 0x14
  const SYSTEMCALL: nat := 0x80
  const KEYBOARD: nat := 0x21
  const RTC: nat := 0x28
  /** The vector of IRQ 0 (the PIT), given the master PIC's base 0x20. */
  const PIT_VECTOR: nat := 0x20

  /** The routine a gate's offset fields point at. */
  datatype Handler =
    | Unset
    | Exception(vector: nat)   // EXP0 .. EXP13
    | SystemCallBlank
    | KeyboardIntr
    | RtcIntr

  /** One gate descriptor: reserved0..4 and size are the descriptor's type
      and reserved bits, dpl its privilege level, selector its code
      segment. */
  datatype Gate = Gate(present: bool, size: nat, reserved0: nat, reserved1: nat, reserved2: nat,
                       reserved3: nat, reserved4: nat, selector: nat, dpl: nat, handler: Handler)

  /** The 4-bit type field (bits 40-43) that size and reserved1..3 make up:
      size is bit 43, reserved1 bit 42, reserved2 bit 41, reserved3 bit 40. */
  function GateType(g: Gate): nat
  {
    g.size * 8 + g.reserved1 * 4 + g.reserved2 * 2 + g.reserved3
  }

  /** The vectors idt_init makes present. */
  predicate Installed(i: nat)
  {
    i < EXCEPTION_SIZE || i == SYSTEMCALL || i == KEYBOARD || i == RTC
  }

  /** Gate i after idt_init, given what it held before and KERNEL_CS:
      every gate gets the interrupt gate bits and the kernel code segment
      and is not present; the exception, system call, keyboard and RTC
      vectors are made present with their privilege level and handler; any
      other gate keeps its old privilege level and handler. */
  function InitialGate(i: nat, before: Gate, kernelCs: nat): (g: Gate)
  {
    var cleared := before.(present := false, size := 1, reserved0 := 0, reserved1 := 1, reserved2 := 1,
                           reserved3 := 0, reserved4 := 0, selector := kernelCs);
    if i < EXCEPTION_SIZE then cleared.(present := true, dpl := 0, handler := Exception(i))
    else if i == SYSTEMCALL then cleared.(present := true, dpl := 3, handler := SystemCallBlank)
    else if i == KEYBOARD then cleared.(present := true, dpl := 0, handler := KeyboardIntr)
    else if i == RTC then cleared.(present := true, dpl := 0, handler := RtcIntr)
    else cleared
  }

  /** Every gate idt_init writes is a 32-bit interrupt gate (type 0xE, a
      system descriptor, reserved bits zero; section 6.11 of the Intel 64
      and IA-32 Software Developer's Manual, Volume 3A) in the kernel code
      segment; it is present exactly for the installed vectors, user code
      may raise only the system call vector, and nothing else is touched. */
  lemma InitialGates(i: nat, before: Gate, kernelCs: nat)
    ensures GateType(InitialGate(i, before, kernelCs)) == 0xE
    ensures InitialGate(i, before, kernelCs).reserved0 == 0 && InitialGate(i, before, kernelCs).reserved4 == 0
    ensures InitialGate(i, before, kernelCs).selector == kernelCs
    ensures InitialGate(i, before, kernelCs).present <==> Installed(i)
    ensures Installed(i) ==> (InitialGate(i, before, kernelCs).dpl == 3 <==> i == SYSTEMCALL)
    ensures Installed(i) ==> InitialGate(i, before, kernelCs).dpl <= 3
    ensures !Installed(i) ==> InitialGate(i, before, kernelCs).dpl == before.dpl &&
                              InitialGate(i, before, kernelCs).handler == before.handler
  {
  }

  /** The handler each installed vector reaches. */
  lemma HandlerBinding(i: nat, before: Gate, kernelCs: nat)
    ensures i < EXCEPTION_SIZE ==> InitialGate(i, before, kernelCs).handler == Exception(i)
    ensures InitialGate(SYSTEMCALL, before, kernelCs).handler == SystemCallBlank
    ensures InitialGate(KEYBOARD, before, kernelCs).handler == KeyboardIntr
    ensures InitialGate(RTC, before, kernelCs).handler == RtcIntr
  {
  }

  /** The timer's vector is not installed: once IRQ 0 is unmasked, a tick
      finds a gate that is not present. */
  lemma TimerVectorNotPresent(before: Gate, kernelCs: nat)
    ensures !InitialGate(PIT_VECTOR, before, kernelCs).present
  {
  }

  class Table {
    const gates: array<Gate>
    /** Set by lidt. */
    var loaded: bool

    constructor (initial: seq<Gate>)
      requires |initial| == NUM_VEC
      ensures gates.Length == NUM_VEC && gates[..] == initial && !loaded && fresh(gates)
    {
      gates := new Gate[NUM_VEC](i requires 0 <= i < NUM_VEC => initial[i]);
      loaded := false;
      new;
      assert forall i | 0 <= i < NUM_VEC :: gates[..][i] == initial[i];
    }

    /** idt_init: fills every gate, then loads the table. */
    method Init(kernelCs: nat)
      requires gates.Length == NUM_VEC
      modifies this, gates
      ensures forall i | 0 <= i < NUM_VEC :: gates[i] == InitialGate(i, old(gates[i]), kernelCs)
      ensures loaded
    {
      var i := 0;
      while i < NUM_VEC
        invariant 0 <= i <= NUM_VEC
        invariant forall j | 0 <= j < i :: gates[j] == InitialGate(j, old(gates[j]), kernelCs)
        invariant forall j | i <= j < NUM_VEC :: gates[j] == old(gates[j])
      {
        gates[i] := gates[i].(present := false, size := 1, reserved0 := 0, reserved1 := 1, reserved2 := 1,
                              reserved3 := 0, reserved4 := 0, selector := kernelCs);
        if i < EXCEPTION_SIZE {
          gates[i] := gates[i].(present := true, dpl := 0, handler := Exception(i));
        }
        if i == SYSTEMCALL {
          gates[i] := gates[i].(present := true, dpl := 3, handler := SystemCallBlank);
        }
        if i == KEYBOARD {
          gates[i] := gates[i].(present := true, dpl := 0, handler := KeyboardIntr);
        }
        if i == RTC {
          gates[i] := gates[i].(present := true, dpl := 0, handler := RtcIntr);
        }
        i := i + 1;
      }
      loaded := true;
    }
  }
}
