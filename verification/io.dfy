/** The parts of the machine the kernel touches through I/O instructions and
    the screen: every outb is appended to a port log, every character put on
    the screen to a screen log, and cli/sti set the interrupt flag. Values
    that inb would return are passed to the drivers as parameters. */
module Io {
  import opened Types

  /** One outb(value, port). */
  datatype PortWrite = PortWrite(port: int, value: byte)

  /** One effect of the text-mode output routines. */
  datatype ScreenOp = Put(c: byte) | Clear

  /** The screen effect of printing the bytes of s one by one. */
  function Puts(s: seq<byte>): (r: seq<ScreenOp>)
    ensures |r| == |s|
    ensures forall k | 0 <= k < |s| :: r[k] == Put(s[k])
  {
    if s == [] then [] else [Put(s[0])] + Puts(s[1..])
  }

  /** Printing two strings one after the other prints their
      concatenation. */
  lemma PutsAppend(a: seq<byte>, b: seq<byte>)
    ensures Puts(a + b) == Puts(a) + Puts(b)
  {
  }

  /** The value most recently written to port, if any: what a write-only
      register of a device last received. */
  function LastWrite(log: seq<PortWrite>, port: int): (r: Option<byte>)
    ensures r.None? <==> forall k | 0 <= k < |log| :: log[k].port != port
    ensures r.Some? ==> exists k | 0 <= k < |log| :: log[k] == PortWrite(port, r.value)
  {
    if log == [] then None
    else if log[|log| - 1].port == port then Some(log[|log| - 1].value)
    else LastWrite(log[..|log| - 1], port)
  }

  /** Appending a write to one port leaves what every other port last
      received unchanged. */
  lemma LastWriteAppend(log: seq<PortWrite>, w: PortWrite, port: int)
    ensures LastWrite(log + [w], port) == if w.port == port then Some(w.value) else LastWrite(log, port)
  {
    assert (log + [w])[..|log|] == log;
  }

  class Hardware {
    var portLog: seq<PortWrite>
    var screenLog: seq<ScreenOp>
    /** EFLAGS.IF: cleared by cli, set by sti. */
    var interruptsEnabled: bool

    constructor ()
      ensures portLog == [] && screenLog == [] && !interruptsEnabled
    {
      portLog := [];
      screenLog := [];
      interruptsEnabled := false;
    }

    method Outb(value: byte, port: int)
      modifies this
      ensures portLog == old(portLog) + [PortWrite(port, value)]
      ensures screenLog == old(screenLog) && interruptsEnabled == old(interruptsEnabled)
    {
      portLog := portLog + [PortWrite(port, value)];
    }

    method Putc(c: byte)
      modifies this
      ensures screenLog == old(screenLog) + [Put(c)]
      ensures portLog == old(portLog) && interruptsEnabled == old(interruptsEnabled)
    {
      screenLog := screenLog + [Put(c)];
    }

    method ClearScreen()
      modifies this
      ensures screenLog == old(screenLog) + [Clear]
      ensures portLog == old(portLog) && interruptsEnabled == old(interruptsEnabled)
    {
      screenLog := screenLog + [Clear];
    }

    /** printf of a string without conversions. */
    method Print(text: seq<byte>)
      modifies this
      ensures screenLog == old(screenLog) + Puts(text)
      ensures portLog == old(portLog) && interruptsEnabled == old(interruptsEnabled)
    {
      screenLog := screenLog + Puts(text);
    }

    method Cli()
      modifies this
      ensures !interruptsEnabled
      ensures portLog == old(portLog) && screenLog == old(screenLog)
    {
      interruptsEnabled := false;
    }

    method Sti()
      modifies this
      ensures interruptsEnabled
      ensures portLog == old(portLog) && screenLog == old(screenLog)
    {
      interruptsEnabled := true;
    }
  }
}
