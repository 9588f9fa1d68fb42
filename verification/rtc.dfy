/** The MC146818 real-time clock driver (rtc.c, rtc.h). Register A's low
    nibble selects the periodic-interrupt rate; bit 6 of register B (PIE)
    turns periodic interrupts on. A register is reached by writing its index
    to port 0x70 and then reading or writing port 0x71; the values inb would
    read are parameters. */
module Rtc {
  import opened Types
  import opened Io
  import opened I8259

  const RTC_COMMAND: int := 0x70
  const RTC_DATA: int := 0x71
  /** Register indices; 0x80 also disables NMI. */
  const REG_A: byte := 0x8A
  const REG_B: byte := 0x8B
  const REG_C: byte := 0x0C
  const RTC_IRQ: u32 := 8

  const MIN_RATE: nat := 7
  const MAX_RATE: nat := 15

  /** x >> k on a non-negative value: k halvings, each rounding down. */
  function Shr(x: nat, k: nat): nat
  {
    if k == 0 then x else Shr(x / 2, k - 1)
  }

  function Pow2(k: nat): (p: nat)
    ensures p >= 1
  {
    if k == 0 then 1 else 2 * Pow2(k - 1)
  }

  /** 0x8000 >> (rate - 1): the periodic interrupt frequency in Hz of rate
      select value rate. */
  function Frequency(rate: nat): nat
    requires 1 <= rate
  {
    Shr(0x8000, rate - 1)
  }

  /** MIN_FREQUENCY and MAX_FREQUENCY as rtc.h computes them. */
  const MIN_FREQUENCY: nat := Frequency(MAX_RATE)
  const MAX_FREQUENCY: nat := Frequency(MIN_RATE)

  lemma Pow2Fifteen()
    ensures Pow2(15) == 0x8000
  {
    assert Pow2(4) == 16;
    assert Pow2(8) == 256;
    assert Pow2(12) == 4096;
  }

  /** Shifting a power of two right by k, for k up to its exponent, gives the
      power of two k below it. */
  lemma {:induction false} ShrPow2(n: nat, k: nat)
    requires k <= n
    ensures Shr(Pow2(n), k) == Pow2(n - k)
    decreases k
  {
    if k > 0 {
      assert Pow2(n) / 2 == Pow2(n - 1);
      ShrPow2(n - 1, k - 1);
    }
  }

  /** The frequency of rate k is 2^(16 - k) for k in 1..16. */
  lemma FrequencyIsPowerOfTwo(rate: nat)
    requires 1 <= rate <= 16
    ensures Frequency(rate) == Pow2(16 - rate)
  {
    Pow2Fifteen();
    ShrPow2(15, rate - 1);
  }

  lemma FrequencyBounds()
    ensures MIN_FREQUENCY == 2 && MAX_FREQUENCY == 512
    ensures MIN_RATE <= MAX_RATE <= 15
  {
    FrequencyIsPowerOfTwo(MIN_RATE);
    FrequencyIsPowerOfTwo(MAX_RATE);
    assert Pow2(9) == 512;
  }

  /** Every advertised rate, MIN_RATE to MAX_RATE, gives a power of two
      between MIN_FREQUENCY and MAX_FREQUENCY, each rate half the frequency
      of the one below it, and passes rtc_set_rate's range check. */
  lemma AdvertisedRates(rate: nat)
    requires MIN_RATE <= rate <= MAX_RATE
    ensures exists k: nat :: Frequency(rate) == Pow2(k)
    ensures MIN_FREQUENCY <= Frequency(rate) <= MAX_FREQUENCY
    ensures rate < MAX_RATE ==> Frequency(rate + 1) * 2 == Frequency(rate)
    ensures 0 <= rate <= 15
  {
    FrequencyIsPowerOfTwo(rate);
    FrequencyBounds();
    FrequencyIsPowerOfTwo(MIN_RATE);
    FrequencyIsPowerOfTwo(MAX_RATE);
    Pow2Monotone(16 - MAX_RATE, 16 - rate);
    Pow2Monotone(16 - rate, 16 - MIN_RATE);
    if rate < MAX_RATE {
      FrequencyIsPowerOfTwo(rate + 1);
    }
  }

  lemma {:induction false} Pow2Monotone(i: nat, j: nat)
    requires i <= j
    ensures Pow2(i) <= Pow2(j)
    decreases j - i
  {
    if i < j {
      Pow2Monotone(i, j - 1);
    }
  }

  /** (prev & 0xF0) | rate: the new value of register A, whose upper
      nibble (update-in-progress flag and divider) is kept and whose lower
      nibble becomes the rate select. */
  function RateRegister(prev: bv8, rate: bv8): (r: bv8)
    requires rate <= 15
    ensures r & 0xF0 == prev & 0xF0 && r & 0x0F == rate
  {
    (prev & 0xF0) | rate
  }

  /** prev | 0x40: register B with bit 6 (PIE) set and every other bit
      kept. */
  function WithPie(prev: bv8): (r: bv8)
    ensures r & 0x40 == 0x40 && r & !0x40 == prev & !0x40
  {
    prev | 0x40
  }

  /** rtc_set_rate: a rate outside 0..15 is refused before any port I/O;
      otherwise register A is rewritten with its upper nibble kept and the
      rate in its lower nibble. regA is the value read back from register A. */
  method RtcSetRate(hw: Hardware, rate: int, regA: byte) returns (r: int)
    modifies hw
    ensures r == -1 <==> rate < 0 || rate > 15
    ensures r == -1 ==> hw.portLog == old(hw.portLog) && hw.interruptsEnabled == old(hw.interruptsEnabled)
    ensures r == 0 ==>
      hw.portLog == old(hw.portLog) + [PortWrite(RTC_COMMAND, REG_A), PortWrite(RTC_COMMAND, REG_A),
                                       PortWrite(RTC_DATA, RateRegister(regA as bv8, rate as bv8) as int)] &&
      hw.interruptsEnabled
    ensures r == 0 || r == -1
    ensures hw.screenLog == old(hw.screenLog)
  {
    if rate < 0 || rate > 15 {
      return -1;
    }
    hw.Cli();
    hw.Outb(REG_A, RTC_COMMAND);
    var prev := regA as bv8;
    var newValue := RateRegister(prev, rate as bv8);
    hw.Outb(REG_A, RTC_COMMAND);
    hw.Outb(newValue as int, RTC_DATA);
    hw.Sti();
    return 0;
  }

  /** rtc_init: sets PIE in register B keeping its other bits, unmasks IRQ 8
      on the slave PIC, and sets rate 0. regB and regA are the values read
      back from registers B and A. */
  method RtcInit(pic: Pic, regB: byte, regA: byte)
    modifies pic, pic.hw
    ensures pic.hw.portLog == old(pic.hw.portLog) +
      [PortWrite(RTC_COMMAND, REG_B), PortWrite(RTC_COMMAND, REG_B), PortWrite(RTC_DATA, WithPie(regB as bv8) as int),
       PortWrite(SLAVE_DATA, pic.slaveMask as int),
       PortWrite(RTC_COMMAND, REG_A), PortWrite(RTC_COMMAND, REG_A), PortWrite(RTC_DATA, RateRegister(regA as bv8, 0) as int)]
    ensures pic.slaveMask == Unmask(old(pic.slaveMask), 0) && pic.masterMask == old(pic.masterMask)
    ensures pic.hw.interruptsEnabled && pic.hw.screenLog == old(pic.hw.screenLog)
  {
    var hw := pic.hw;
    hw.Cli();
    hw.Outb(REG_B, RTC_COMMAND);
    var prev := regB as bv8;
    hw.Outb(REG_B, RTC_COMMAND);
    hw.Outb(WithPie(prev) as int, RTC_DATA);
    pic.EnableIrq(RTC_IRQ);
    hw.Sti();
    var _ := RtcSetRate(hw, 0, regA);
  }

  /** rtc_handler: selects and reads register C (which acknowledges the
      clock), prints "RTC interrupt\n", and sends EOI for IRQ 8. */
  method RtcHandler(pic: Pic)
    modifies pic.hw
    ensures pic.hw.portLog == old(pic.hw.portLog) + [PortWrite(RTC_COMMAND, REG_C)] + EoiWrites(RTC_IRQ)
    ensures pic.hw.screenLog == old(pic.hw.screenLog) + Puts(RtcMessage())
    ensures pic.hw.interruptsEnabled
  {
    var hw := pic.hw;
    hw.Cli();
    hw.Outb(REG_C, RTC_COMMAND);
    hw.Print(RtcMessage());
    pic.SendEoi(RTC_IRQ);
    hw.Sti();
  }

  /** "RTC interrupt\n" as bytes. */
  function RtcMessage(): seq<byte>
  {
    [0x52, 0x54, 0x43, 0x20, 0x69, 0x6E, 0x74, 0x65, 0x72, 0x72, 0x75, 0x70, 0x74, 0x0A]
  }

  function RtcOpen(filename: Option<seq<byte>>): int { 0 }
  function RtcClose(fd: int): int { 0 }
  function RtcWrite(fd: int, buf: seq<byte>, nbytes: int): int { 0 }
  function RtcRead(fd: int, nbytes: int): int { 0 }

  /** The RTC file operations succeed whatever their arguments; rtc_write
      does not validate or apply a rate. */
  lemma RtcFileOpsSucceed(filename: Option<seq<byte>>, fd: int, buf: seq<byte>, nbytes: int)
    ensures RtcOpen(filename) == 0 && RtcClose(fd) == 0
    ensures RtcWrite(fd, buf, nbytes) == 0 && RtcRead(fd, nbytes) == 0
  {
  }
}
