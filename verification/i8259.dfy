/** The pair of cascaded 8259 programmable interrupt controllers (i8259.c):
    the master serves IRQs 0-7, the slave IRQs 8-15 through the master's
    line 2. The kernel keeps a shadow copy of each chip's interrupt mask
    register, because the register is written through the data port.

    The port numbers and initialisation words are the standard PC values
    (i8259.h is not part of this model). */
module I8259 {
  import opened Types
  import opened Io

  const MASTER_8259_PORT: int := 0x20
  const SLAVE_8259_PORT: int := 0xA0
  /** Data ports, where the mask register and ICW2-ICW4 are written. */
  const MASTER_DATA: int := 0x21
  const SLAVE_DATA: int := 0xA1

  const ICW1: byte := 0x11
  const ICW2_MASTER: byte := 0x20
  const ICW2_SLAVE: byte := 0x28
  const ICW3_MASTER: byte := 0x04
  const ICW3_SLAVE: byte := 0x02
  const ICW4: byte := 0x01
  /** Specific end-of-interrupt command; OR-ed with the line number. */
  const EOI: byte := 0x60

  /** 1 << n, the bit of line n in a mask register. */
  function Bit(n: bv3): bv8
  {
    (1 as bv8) << n
  }

  /** Line n of a mask register is masked (its interrupts are blocked). */
  predicate Masked(m: bv8, n: bv3)
  {
    m & Bit(n) != 0
  }

  /** mask &= ~(1 << n): unmasks line n and no other. */
  function Unmask(m: bv8, n: bv3): (r: bv8)
    ensures forall k: bv3 :: Masked(r, k) <==> k != n && Masked(m, k)
  {
    m & !Bit(n)
  }

  /** mask |= (1 << n): masks line n and no other. */
  function Mask(m: bv8, n: bv3): (r: bv8)
    ensures forall k: bv3 :: Masked(r, k) <==> k == n || Masked(m, k)
  {
    m | Bit(n)
  }

  /** disable_irq undoes enable_irq on a line that was masked, and
      enable_irq undoes disable_irq on a line that was unmasked. */
  lemma MaskUnmaskInverse(m: bv8, n: bv3)
    ensures Masked(m, n) ==> Mask(Unmask(m, n), n) == m
    ensures !Masked(m, n) ==> Unmask(Mask(m, n), n) == m
  {
  }

  /** The byte sent by send_eoi for line n of one chip: EOI | n. */
  function EoiCommand(n: nat): (r: byte)
    requires n < 8
    ensures r == EOI + n
  {
    (EOI as bv8 | n as bv8) as int
  }

  /** The twelve writes of i8259_init, in order: mask both chips, then ICW1 to
      each command port and ICW2, ICW3 and ICW4 to each data port, then mask
      both chips again. */
  function InitSequence(): seq<PortWrite>
  {
    InitWords() + MaskBoth()
  }

  /** One value written to the master and then one to the slave. */
  function ToBoth(masterPort: int, masterValue: byte, slavePort: int, slaveValue: byte): seq<PortWrite>
  {
    [PortWrite(masterPort, masterValue), PortWrite(slavePort, slaveValue)]
  }

  /** Masking every line of both chips. */
  function MaskBoth(): seq<PortWrite>
  {
    ToBoth(MASTER_DATA, 0xFF, SLAVE_DATA, 0xFF)
  }

  /** The writes of i8259_init before the final masking. */
  function InitWords(): seq<PortWrite>
  {
    MaskBoth() +
    ToBoth(MASTER_8259_PORT, ICW1, SLAVE_8259_PORT, ICW1) +
    ToBoth(MASTER_DATA, ICW2_MASTER, SLAVE_DATA, ICW2_SLAVE) +
    ToBoth(MASTER_DATA, ICW3_MASTER, SLAVE_DATA, ICW3_SLAVE) +
    ToBoth(MASTER_DATA, ICW4, SLAVE_DATA, ICW4)
  }

  /** Initialisation ends with every line of both chips masked, whatever
      the chips last received before it. */
  lemma InitLeavesAllMasked(before: seq<PortWrite>)
    ensures LastWrite(before + InitSequence(), MASTER_DATA) == Some(0xFF)
    ensures LastWrite(before + InitSequence(), SLAVE_DATA) == Some(0xFF)
  {
    assert before + InitSequence() == (before + InitWords()) + MaskBoth();
    LastWriteSuffix(before + InitWords(), MaskBoth(), MASTER_DATA);
    LastWriteSuffix(before + InitWords(), MaskBoth(), SLAVE_DATA);
  }

  /** The two chips and the kernel's shadow masks (master_mask,
      slave_mask). */
  class Pic {
    var masterMask: bv8
    var slaveMask: bv8
    const hw: Hardware

    /** Both shadow masks start at 0xFF: every line masked. */
    constructor (hw: Hardware)
      ensures this.hw == hw && masterMask == 0xFF && slaveMask == 0xFF
    {
      this.hw := hw;
      masterMask := 0xFF;
      slaveMask := 0xFF;
    }

    /** The mask register of each chip holds the shadow copy: the last
        value written to its data port is the shadow mask. */
    ghost predicate Synced()
      reads this, hw
    {
      LastWrite(hw.portLog, MASTER_DATA) == Some(masterMask as int) &&
      LastWrite(hw.portLog, SLAVE_DATA) == Some(slaveMask as int)
    }

    /** i8259_init: sends the initialisation words; the shadow masks are
        not touched, so the chips agree with them when they are still at
        their initial all-masked value. */
    method Init()
      modifies hw
      ensures hw.portLog == old(hw.portLog) + InitSequence()
      ensures hw.screenLog == old(hw.screenLog) && hw.interruptsEnabled == old(hw.interruptsEnabled)
      ensures masterMask == 0xFF && slaveMask == 0xFF ==> Synced()
    {
      SendBoth(MASTER_DATA, 0xFF, SLAVE_DATA, 0xFF);
      SendBoth(MASTER_8259_PORT, ICW1, SLAVE_8259_PORT, ICW1);
      SendBoth(MASTER_DATA, ICW2_MASTER, SLAVE_DATA, ICW2_SLAVE);
      SendBoth(MASTER_DATA, ICW3_MASTER, SLAVE_DATA, ICW3_SLAVE);
      SendBoth(MASTER_DATA, ICW4, SLAVE_DATA, ICW4);
      SendBoth(MASTER_DATA, 0xFF, SLAVE_DATA, 0xFF);
      InitLeavesAllMasked(old(hw.portLog));
    }

    /** Two consecutive outb of i8259_init: one to the master, then one to
        the slave. */
    method SendBoth(masterPort: int, masterValue: byte, slavePort: int, slaveValue: byte)
      modifies hw
      ensures hw.portLog == old(hw.portLog) + ToBoth(masterPort, masterValue, slavePort, slaveValue)
      ensures hw.screenLog == old(hw.screenLog) && hw.interruptsEnabled == old(hw.interruptsEnabled)
    {
      hw.Outb(masterValue, masterPort);
      hw.Outb(slaveValue, slavePort);
    }

    /** enable_irq: unmasks one line and writes the chip's new mask.
        Interrupts are disabled first; a line above 15 changes nothing and
        leaves them disabled. */
    method EnableIrq(irq: u32)
      modifies this, hw
      ensures irq > 15 ==>
        masterMask == old(masterMask) && slaveMask == old(slaveMask) &&
        hw.portLog == old(hw.portLog) && !hw.interruptsEnabled
      ensures irq < 8 ==>
        masterMask == Unmask(old(masterMask), irq as bv3) && slaveMask == old(slaveMask) &&
        hw.portLog == old(hw.portLog) + [PortWrite(MASTER_DATA, masterMask as int)] && hw.interruptsEnabled
      ensures 8 <= irq <= 15 ==>
        slaveMask == Unmask(old(slaveMask), (irq - 8) as bv3) && masterMask == old(masterMask) &&
        hw.portLog == old(hw.portLog) + [PortWrite(SLAVE_DATA, slaveMask as int)] && hw.interruptsEnabled
      ensures hw.screenLog == old(hw.screenLog)
      ensures old(Synced()) ==> Synced()
    {
      hw.Cli();
      if irq > 15 {
        return;
      }
      if irq < 8 {
        masterMask := Unmask(masterMask, irq as bv3);
        hw.Outb(masterMask as int, MASTER_DATA);
      } else {
        slaveMask := Unmask(slaveMask, (irq - 8) as bv3);
        hw.Outb(slaveMask as int, SLAVE_DATA);
      }
      hw.Sti();
      LastWriteAppend(old(hw.portLog), hw.portLog[|hw.portLog| - 1], MASTER_DATA);
      LastWriteAppend(old(hw.portLog), hw.portLog[|hw.portLog| - 1], SLAVE_DATA);
    }

    /** disable_irq: masks one line and writes the chip's new mask, with the
        same handling of interrupts and of lines above 15 as enable_irq. */
    method DisableIrq(irq: u32)
      modifies this, hw
      ensures irq > 15 ==>
        masterMask == old(masterMask) && slaveMask == old(slaveMask) &&
        hw.portLog == old(hw.portLog) && !hw.interruptsEnabled
      ensures irq < 8 ==>
        masterMask == Mask(old(masterMask), irq as bv3) && slaveMask == old(slaveMask) &&
        hw.portLog == old(hw.portLog) + [PortWrite(MASTER_DATA, masterMask as int)] && hw.interruptsEnabled
      ensures 8 <= irq <= 15 ==>
        slaveMask == Mask(old(slaveMask), (irq - 8) as bv3) && masterMask == old(masterMask) &&
        hw.portLog == old(hw.portLog) + [PortWrite(SLAVE_DATA, slaveMask as int)] && hw.interruptsEnabled
      ensures hw.screenLog == old(hw.screenLog)
      ensures old(Synced()) ==> Synced()
    {
      hw.Cli();
      if irq > 15 {
        return;
      }
      if irq < 8 {
        masterMask := Mask(masterMask, irq as bv3);
        hw.Outb(masterMask as int, MASTER_DATA);
      } else {
        slaveMask := Mask(slaveMask, (irq - 8) as bv3);
        hw.Outb(slaveMask as int, SLAVE_DATA);
      }
      hw.Sti();
      LastWriteAppend(old(hw.portLog), hw.portLog[|hw.portLog| - 1], MASTER_DATA);
      LastWriteAppend(old(hw.portLog), hw.portLog[|hw.portLog| - 1], SLAVE_DATA);
    }

    /** send_eoi: a line of the master is acknowledged on the master; a
        line of the slave on the slave and then, for the cascade line 2, on
        the master. Nothing is sent for a line above 15. */
    method SendEoi(irq: u32)
      modifies hw
      ensures hw.portLog == old(hw.portLog) + EoiWrites(irq)
      ensures hw.screenLog == old(hw.screenLog) && hw.interruptsEnabled == old(hw.interruptsEnabled)
    {
      if irq > 15 {
        return;
      }
      if irq < 8 {
        hw.Outb(EoiCommand(irq), MASTER_8259_PORT);
      } else {
        hw.Outb(EoiCommand(irq - 8), SLAVE_8259_PORT);
        hw.Outb(EoiCommand(2), MASTER_8259_PORT);
      }
    }
  }

  /** The port writes that acknowledge irq. */
  function EoiWrites(irq: int): (r: seq<PortWrite>)
    ensures irq < 0 || irq > 15 <==> r == []
    ensures 0 <= irq < 8 ==> r == [PortWrite(MASTER_8259_PORT, EOI + irq)]
    ensures 8 <= irq <= 15 ==> r == [PortWrite(SLAVE_8259_PORT, EOI + irq - 8), PortWrite(MASTER_8259_PORT, EOI + 2)]
  {
    if irq < 0 || irq > 15 then []
    else if irq < 8 then [PortWrite(MASTER_8259_PORT, EoiCommand(irq))]
    else [PortWrite(SLAVE_8259_PORT, EoiCommand(irq - 8)), PortWrite(MASTER_8259_PORT, EoiCommand(2))]
  }

  /** The last write to a port after appending writes that contain one to
      that port is the last one among the appended writes. */
  lemma {:induction false} LastWriteSuffix(log: seq<PortWrite>, tail: seq<PortWrite>, port: int)
    requires LastWrite(tail, port).Some?
    ensures LastWrite(log + tail, port) == LastWrite(tail, port)
    decreases |tail|
  {
    var n := |tail|;
    assert (log + tail)[|log + tail| - 1] == tail[n - 1];
    if tail[n - 1].port != port {
      assert (log + tail)[..|log + tail| - 1] == log + tail[..n - 1];
      LastWriteSuffix(log, tail[..n - 1], port);
    }
  }
}
