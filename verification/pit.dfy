/** The 8254 programmable interval timer driver (pit.c): channel 0 in mode 3
    (square wave) with lobyte/hibyte access drives IRQ 0, and each tick runs
    the round-robin terminal scheduler, PitHandler. */
module Pit {
  import opened Types
  import opened Io
  import opened I8259
  import opened Paging
  import opened SystemCall

  /** The 8254 input clock in Hz. */
  const PIT_FREQUENCY: nat := 1193182
  /** Channel 0, lobyte/hibyte access, mode 3, binary. */
  const PIT_SQUARE_MODE: byte := 0x36
  const PIT_CHANNEL_0: int := 0x40
  const PIT_COMMAND: int := 0x43

  /** uint16_t param = PIT_FREQUENCY / frequency: the reload value, cut to
      16 bits by the assignment. */
  function Divisor(frequency: nat): (d: nat)
    requires frequency > 0
    ensures d < 0x1_0000
    ensures frequency >= 19 <==> d == PIT_FREQUENCY / frequency
  {
    (PIT_FREQUENCY / frequency) % 0x1_0000
  }

  /** (uint8_t)(param & 0xFF) */
  function LowByte(d: nat): byte { d % 0x100 }

  /** (uint8_t)((param >> 8) & 0xFF) */
  function HighByte(d: nat): byte { (d / 0x100) % 0x100 }

  /** The two bytes sent to channel 0 recombine to the 16-bit divisor, so
      the counter is loaded with exactly the computed reload value. */
  lemma BytesRecombine(frequency: nat)
    requires frequency > 0
    ensures LowByte(Divisor(frequency)) + 0x100 * HighByte(Divisor(frequency)) == Divisor(frequency)
  {
    var d := Divisor(frequency);
    assert d / 0x100 < 0x100;
  }

  /** The divisor the source computes agrees with the requested frequency
      only from 19 Hz up: below that the quotient exceeds 16 bits and is
      truncated, for example 18 Hz loads 66287 - 65536 = 751. */
  lemma SlowFrequencyTruncates()
    ensures Divisor(18) == 751
    ensures Divisor(19) == 62799
  {
  }

  /** pit_init: programs channel 0 in mode 3 and loads the divisor low byte
      first, then unmasks IRQ 0. A frequency of 0 divides by zero in the
      source, so the caller must not pass it. */
  method PitInit(pic: Pic, frequency: nat)
    requires 0 < frequency < 0x1_0000
    modifies pic, pic.hw
    ensures pic.hw.portLog == old(pic.hw.portLog) +
      [PortWrite(PIT_COMMAND, PIT_SQUARE_MODE),
       PortWrite(PIT_CHANNEL_0, LowByte(Divisor(frequency))),
       PortWrite(PIT_CHANNEL_0, HighByte(Divisor(frequency))),
       PortWrite(MASTER_DATA, pic.masterMask as int)]
    ensures pic.masterMask == Unmask(old(pic.masterMask), 0) && pic.slaveMask == old(pic.slaveMask)
    ensures pic.hw.interruptsEnabled && pic.hw.screenLog == old(pic.hw.screenLog)
  {
    var param := Divisor(frequency);
    pic.hw.Outb(PIT_SQUARE_MODE, PIT_COMMAND);
    pic.hw.Outb(LowByte(param), PIT_CHANNEL_0);
    pic.hw.Outb(HighByte(param), PIT_CHANNEL_0);
    pic.EnableIrq(0);
  }

  // ---------------------------------------------------------------------
  // The round-robin tick

  /** The terminal scheduled after terminal t. */
  function NextTerminal(t: nat): (n: nat)
    ensures n < NUM_TERMINAL
  {
    (t + 1) % NUM_TERMINAL
  }

  /** Three ticks visit every terminal once and come back. */
  lemma RoundRobin(t: nat)
    requires t < NUM_TERMINAL
    ensures NextTerminal(NextTerminal(NextTerminal(t))) == t
    ensures {t, NextTerminal(t), NextTerminal(NextTerminal(t))} == {0, 1, 2}
  {
  }

  /** The blocks after the outgoing terminal's process (pid, -1 for none)
      has its frame pointer and the TSS stack pointer saved. */
  function SaveOutgoing(pcbs: seq<Pcb>, pid: int, ebp: int, esp0: int): (r: seq<Pcb>)
    requires |pcbs| == NUM_PCB && -1 <= pid < NUM_PCB
    ensures |r| == NUM_PCB
    ensures pid == -1 ==> r == pcbs
    ensures pid != -1 ==> r[pid].ebp == ebp && r[pid].esp0 == esp0 &&
                          r[pid] == pcbs[pid].(ebp := ebp, esp0 := esp0) &&
                          forall q | 0 <= q < NUM_PCB && q != pid :: r[q] == pcbs[q]
  {
    if pid == -1 then pcbs else pcbs[pid := pcbs[pid].(ebp := ebp, esp0 := esp0)]
  }

  /** pit_handler, up to the video binding: EOI for IRQ 0 first, the
      outgoing process's frame pointer ebp and the TSS stack saved, the
      screen page of both page tables bound for the next terminal, and the
      next terminal made current. */
  method TickBookkeeping(k: Kernel, pic: Pic, ebp: int) returns (next: nat)
    requires k.Valid()
    modifies k, k.tables.table, k.tables.vidmem, pic.hw
    ensures k.Valid()
    ensures next == NextTerminal(old(k.currentTerminal))
    ensures pic.hw.portLog == old(pic.hw.portLog) + EoiWrites(0)
    ensures pic.hw.screenLog == old(pic.hw.screenLog) && pic.hw.interruptsEnabled == old(pic.hw.interruptsEnabled)
    ensures k.pcbs == SaveOutgoing(old(k.pcbs), old(k.terms[k.currentTerminal].pid), ebp, old(k.tssEsp0))
    ensures k.State() == old(k.State()).(currentTerminal := next)
    ensures k.tables.table[VIDEO_MEMORY_PTE] ==
      old(k.tables.table[VIDEO_MEMORY_PTE]).(frame := VideoFrame(next == old(k.activeTerminal), next))
    ensures k.tables.vidmem[VIDEO_MEMORY_PTE] ==
      old(k.tables.vidmem[VIDEO_MEMORY_PTE]).(frame := VideoFrame(next == old(k.activeTerminal), next))
    ensures forall j | 0 <= j < ENTRY_COUNT && j != VIDEO_MEMORY_PTE ::
      k.tables.table[j] == old(k.tables.table[j]) && k.tables.vidmem[j] == old(k.tables.vidmem[j])
  {
    pic.SendEoi(0);
    var cur := k.currentTerminal;
    next := NextTerminal(cur);
    var pid := k.terms[cur].pid;
    if pid != -1 {
      var p := k.pcbs[pid].(ebp := ebp, esp0 := k.tssEsp0);
      ConsistentSetPcb(k.pcbs, k.terms, pid, p);
      k.pcbs := k.pcbs[pid := p];
    }
    k.tables.BindVideo(VideoFrame(next == k.activeTerminal, next));
    k.currentTerminal := next;
  }

  /** pit_handler's switch to the next terminal's process np: its user
      page and video mapping, its kernel stack in the TSS, and np made the
      running block. */
  method EnterProcess(k: Kernel, np: nat)
    requires k.Valid() && np < NUM_PCB
    modifies k, k.tables.directory, k.tables.vidmem
    ensures k.Valid() && k.pcbs == old(k.pcbs)
    ensures k.State() == old(k.State()).(currentPid := np, tssEsp0 := old(k.pcbs[np]).esp0)
    ensures k.tables.directory[USER_ENTRY] == WithPageBase(old(k.tables.directory[USER_ENTRY]), PageBase(old(k.pcbs[np]).pid))
    ensures forall j | 0 <= j < ENTRY_COUNT && j != USER_ENTRY :: k.tables.directory[j] == old(k.tables.directory[j])
    ensures k.tables.vidmem[VIDEO_MEMORY_PTE] == old(k.tables.vidmem[VIDEO_MEMORY_PTE]).(present := old(k.pcbs[np]).vidmap)
    ensures forall j | 0 <= j < ENTRY_COUNT && j != VIDEO_MEMORY_PTE :: k.tables.vidmem[j] == old(k.tables.vidmem[j])
  {
    var nb := k.pcbs[np];
    k.tables.SetUserPageBase(PageBase(nb.pid));
    k.tables.SetUserVideoPresent(nb.vidmap);
    k.tssEsp0 := nb.esp0;
    k.currentPid := np;
  }

  /** pit_handler's execute("shell") for a terminal with no process:
      exactly what execute leaves (a refusal, or the new shell, which the
      current terminal then records). */
  method StartShell(k: Kernel, staleMagic: u32, staleEntry: u32, ebp: int) returns (t: Transfer)
    requires k.Valid()
    modifies k, k.tables.directory
    ensures k.Valid()
    ensures k.Executed(SHELL, staleMagic, staleEntry, ebp, t, old(k.pcbs), old(k.State()), old(k.tables.directory[..]))
    ensures k.currentTerminal == old(k.currentTerminal) && k.activeTerminal == old(k.activeTerminal)
    ensures t.Fail? || t.EnterUser?
    ensures t.EnterUser? ==> k.terms[k.currentTerminal].pid == t.pid && k.currentPid == t.pid
  {
    t := k.Execute(SHELL, staleMagic, staleEntry, ebp);
  }

  /** pit_handler's halt(128) for a terminal whose halt flag is set:
      exactly what halt leaves. halt clears the flag of the displayed
      terminal, so the current terminal's flag stays set unless it is the
      displayed one. */
  method HaltFlagged(k: Kernel, staleMagic: u32, staleEntry: u32, ebp: int) returns (t: Transfer)
    requires k.Valid() && k.terms[k.currentTerminal].halt
    modifies k, k.tables.directory
    ensures k.Valid()
    ensures k.Halted(128, staleMagic, staleEntry, ebp, t, old(k.pcbs), old(k.State()), old(k.tables.directory[..]))
    ensures k.currentTerminal == old(k.currentTerminal) && k.activeTerminal == old(k.activeTerminal)
    ensures t.Fail? || t.EnterUser? || t.ReturnToParent?
    ensures k.terms[k.currentTerminal].halt == (k.currentTerminal != k.activeTerminal)
  {
    t := k.Halt(128, staleMagic, staleEntry, ebp);
  }

  /** pit_handler. ebp is the handler's frame pointer; staleMagic,
      staleEntry and execEbp feed the execute or halt it may run. After the
      bookkeeping of a tick (EOI, the outgoing process saved, the video
      pages bound, the current terminal advanced):
      - a next terminal with no process gets "shell" executed, with
        execute's whole outcome from that state (a refused execute stops
        the model with Fail);
      - one whose halt flag is set has its process entered and continues
        as halt(128), with halt's whole outcome from that state; since halt
        clears the flag of the displayed terminal, the flag stays set
        unless next is the displayed one;
      - any other resumes its process with its user page, video mapping
        and kernel stack installed. */
  method PitHandler(k: Kernel, pic: Pic, ebp: int, staleMagic: u32, staleEntry: u32, execEbp: int) returns (t: Transfer)
    requires k.Valid()
    modifies k, k.tables.directory, k.tables.table, k.tables.vidmem, pic.hw
    ensures k.Valid()
    ensures pic.hw.portLog == old(pic.hw.portLog) + EoiWrites(0)
    ensures pic.hw.screenLog == old(pic.hw.screenLog) && pic.hw.interruptsEnabled == old(pic.hw.interruptsEnabled)
    ensures k.currentTerminal == NextTerminal(old(k.currentTerminal))
    ensures forall j | 0 <= j < ENTRY_COUNT && j != VIDEO_MEMORY_PTE ::
      k.tables.table[j] == old(k.tables.table[j]) && k.tables.vidmem[j] == old(k.tables.vidmem[j])
    ensures var next := NextTerminal(old(k.currentTerminal));
      k.tables.table[VIDEO_MEMORY_PTE].frame == VideoFrame(next == old(k.activeTerminal), next) &&
      k.tables.vidmem[VIDEO_MEMORY_PTE].frame == VideoFrame(next == old(k.activeTerminal), next)
    ensures var next := NextTerminal(old(k.currentTerminal));
      old(k.terms[next]).pid == -1 ==>
        (t.Fail? || t.EnterUser?) && (t.EnterUser? ==> k.terms[next].pid == t.pid && k.currentPid == t.pid)
    ensures var next := NextTerminal(old(k.currentTerminal));
      var saved := SaveOutgoing(old(k.pcbs), old(k.terms[k.currentTerminal].pid), ebp, old(k.tssEsp0));
      old(k.terms[next]).pid == -1 ==>
        k.Executed(SHELL, staleMagic, staleEntry, execEbp, t, saved, old(k.State()).(currentTerminal := next),
                   old(k.tables.directory[..]))
    ensures var next := NextTerminal(old(k.currentTerminal));
      var saved := SaveOutgoing(old(k.pcbs), old(k.terms[k.currentTerminal].pid), ebp, old(k.tssEsp0));
      var np := old(k.terms[next]).pid;
      np != -1 && !old(k.terms[next]).halt ==>
        t == Resume(np, saved[np].ebp) && k.pcbs == saved && k.currentPid == np &&
        k.tssEsp0 == saved[np].esp0 && k.terms == old(k.terms) &&
        k.tables.directory[USER_ENTRY] == WithPageBase(old(k.tables.directory[USER_ENTRY]), PageBase(saved[np].pid)) &&
        k.tables.vidmem[VIDEO_MEMORY_PTE].present == saved[np].vidmap &&
        k.State() == old(k.State()).(currentTerminal := next, currentPid := np, tssEsp0 := saved[np].esp0) &&
        forall j | 0 <= j < ENTRY_COUNT && j != USER_ENTRY :: k.tables.directory[j] == old(k.tables.directory[j])
    ensures var next := NextTerminal(old(k.currentTerminal));
      old(k.terms[next]).pid != -1 && old(k.terms[next]).halt ==>
        (t.Fail? || t.EnterUser? || t.ReturnToParent?) &&
        k.terms[next].halt == (next != old(k.activeTerminal))
    ensures var next := NextTerminal(old(k.currentTerminal));
      var saved := SaveOutgoing(old(k.pcbs), old(k.terms[k.currentTerminal].pid), ebp, old(k.tssEsp0));
      var np := old(k.terms[next]).pid;
      np != -1 && old(k.terms[next]).halt ==>
        k.tables.vidmem[VIDEO_MEMORY_PTE].present == saved[np].vidmap &&
        k.Halted(128, staleMagic, staleEntry, execEbp, t, saved,
                 old(k.State()).(currentTerminal := next, currentPid := np, tssEsp0 := saved[np].esp0),
                 old(k.tables.directory[..])[USER_ENTRY := WithPageBase(old(k.tables.directory[USER_ENTRY]), PageBase(saved[np].pid))])
  {
    var next := TickBookkeeping(k, pic, ebp);
    ghost var dir, pcbs1, st1 := k.tables.directory[..], k.pcbs, k.State();
    assert dir == old(k.tables.directory[..]);
    if k.terms[next].pid == -1 {
      t := StartShell(k, staleMagic, staleEntry, execEbp);
      assert k.Executed(SHELL, staleMagic, staleEntry, execEbp, t, pcbs1, st1, dir);
      return;
    }
    var np := k.terms[next].pid;
    var nb := k.pcbs[np];
    EnterProcess(k, np);
    if k.terms[next].halt {
      ghost var entered, st2 := k.tables.directory[..], k.State();
      assert entered == dir[USER_ENTRY := k.tables.directory[USER_ENTRY]];
      assert st2 == st1.(currentPid := np, tssEsp0 := nb.esp0);
      t := HaltFlagged(k, staleMagic, staleEntry, execEbp);
      assert k.Halted(128, staleMagic, staleEntry, execEbp, t, pcbs1, st2, entered);
      return;
    }
    t := Resume(np, nb.ebp);
  }
}
