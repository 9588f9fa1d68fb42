/** The terminal driver (terminal.c): terminal_read hands its buffer to
    end_of_line, which the keyboard side calls when a line is complete, and
    waits until that has copied the line; terminal_write prints a buffer. */
module Terminal {
  import opened Types
  import opened Io

  const NEWLINE: byte := 0x0A

  /** The first count bytes of the keyboard buffer, 0 past its end. */
  function Prefix(kbuf: seq<byte>, count: nat): (p: seq<byte>)
    ensures |p| == count
    ensures forall j | 0 <= j < count :: p[j] == CharAt(kbuf, j)
  {
    seq(count, j => CharAt(kbuf, j))
  }

  /** How many bytes end_of_line delivers when it may take up to count:
      up to and including the first newline of the keyboard buffer, or
      count bytes when none comes first; none at all for count <= 0. */
  function LineLength(kbuf: seq<byte>, count: int): (n: nat)
  {
    LineFrom(kbuf, count, 0)
  }

  /** The position end_of_line's loop stops at when started at i. */
  function LineFrom(kbuf: seq<byte>, count: int, i: nat): (n: nat)
    ensures i <= count ==> i <= n <= count
    ensures i > count ==> n == i
    ensures forall j | i <= j < n - 1 :: CharAt(kbuf, j) != NEWLINE
    ensures i < n < count ==> CharAt(kbuf, n - 1) == NEWLINE
    ensures i < n == count && CharAt(kbuf, count - 1) != NEWLINE ==>
      forall j | i <= j < count :: CharAt(kbuf, j) != NEWLINE
    decreases count - i
  {
    if i >= count then i
    else if CharAt(kbuf, i) == NEWLINE then i + 1
    else LineFrom(kbuf, count, i + 1)
  }

  /** The line holds the first newline within count bytes, at its end,
      whenever one exists; otherwise it is count bytes long (or empty). */
  lemma LineLengthFindsFirstNewline(kbuf: seq<byte>, count: int)
    ensures LineLength(kbuf, count) <= (if count > 0 then count else 0)
    ensures forall j | 0 <= j < LineLength(kbuf, count) - 1 :: CharAt(kbuf, j) != NEWLINE
    ensures (exists j | 0 <= j < count :: CharAt(kbuf, j) == NEWLINE) <==>
      LineLength(kbuf, count) > 0 && CharAt(kbuf, LineLength(kbuf, count) - 1) == NEWLINE
    ensures !(exists j | 0 <= j < count :: CharAt(kbuf, j) == NEWLINE) ==>
      LineLength(kbuf, count) == (if count > 0 then count else 0)
  {
    var n := LineLength(kbuf, count);
    if n > 0 && CharAt(kbuf, n - 1) == NEWLINE {
      assert 0 <= n - 1 < count;
    }
  }

  /** What the read buffer starts with after end_of_line delivered n > 0
      bytes: the bytes before the end of the line, then a newline (which
      replaces the last byte when the line was cut at count). */
  function Line(kbuf: seq<byte>, n: nat): (l: seq<byte>)
    ensures |l| == n
    ensures n > 0 ==> l[n - 1] == NEWLINE && l[..n - 1] == Prefix(kbuf, n - 1)
  {
    if n == 0 then [] else Prefix(kbuf, n - 1) + [NEWLINE]
  }

  /** Where end_of_line as written stores the newline: readbuf[i - 1] with
      i the loop's final index. */
  function NewlineIndexAsWritten(kbuf: seq<byte>, count: int): int
  {
    LineLength(kbuf, count) - 1
  }

  /** A read of zero (or a negative number of) bytes makes end_of_line as
      written store its newline at readbuf[-1], one byte before the
      caller's buffer; every positive count stays inside it. */
  lemma EmptyReadWritesBeforeBuffer(kbuf: seq<byte>, count: int)
    ensures count <= 0 ==> NewlineIndexAsWritten(kbuf, count) == -1
    ensures count > 0 ==> 0 <= NewlineIndexAsWritten(kbuf, count) < count
  {
    if count > 0 {
      assert LineFrom(kbuf, count, 0) >= 1;
    }
  }

  /** The read buffer after the copy loop stopped at i > 0 and the newline
      was stored at i - 1: the line, then the untouched rest. */
  lemma LineAssembled(copied: seq<byte>, kbuf: seq<byte>, i: nat, orig: seq<byte>)
    requires 0 < i <= |copied| == |orig|
    requires forall j | 0 <= j < i - 1 :: copied[j] == CharAt(kbuf, j)
    requires forall j | i <= j < |copied| :: copied[j] == orig[j]
    ensures copied[i - 1 := NEWLINE] == Line(kbuf, i) + orig[i..]
  {
    var l := Line(kbuf, i);
    forall k | 0 <= k < |copied| ensures copied[i - 1 := NEWLINE][k] == (l + orig[i..])[k] {
      if k >= i {
        assert (l + orig[i..])[k] == orig[k];
      }
    }
  }

  class Terminal {
    /** 1 while no terminal_read is waiting for a line. */
    var idle: bool
    /** The buffer of the waiting terminal_read. */
    var readbuf: array<byte>
    /** The byte count it asked for; the count delivered once the line is in. */
    var readcount: int
    const hw: Hardware

    constructor (hw: Hardware, initial: array<byte>)
      ensures idle && readbuf == initial && readcount == 0 && this.hw == hw
    {
      idle := true;
      readbuf := initial;
      readcount := 0;
      this.hw := hw;
    }

    /** end_of_line with the newline store skipped when no byte was
        delivered: copies the keyboard buffer into the waiting reader's
        buffer up to the first newline or readcount bytes, ends it with a
        newline, records the count and marks the terminal idle. Nothing
        happens when no read is waiting. */
    method EndOfLine(kbuf: seq<byte>)
      requires readcount <= readbuf.Length
      modifies this, readbuf
      ensures readbuf == old(readbuf) && idle
      ensures old(idle) ==> readcount == old(readcount) && readbuf[..] == old(readbuf[..])
      ensures !old(idle) ==>
        readcount == LineLength(kbuf, old(readcount)) &&
        readbuf[..] == Line(kbuf, readcount) + old(readbuf[..])[readcount..]
    {
      if idle {
        return;
      }
      var b, count := readbuf, readcount;
      var i := 0;
      while i < count
        invariant 0 <= i <= b.Length
        invariant i == 0 || i <= count
        invariant readbuf == b
        invariant LineFrom(kbuf, count, i) == LineFrom(kbuf, count, 0)
        invariant forall j | 0 <= j < i :: b[j] == CharAt(kbuf, j)
        invariant forall j | i <= j < b.Length :: b[j] == old(b[j])
        decreases count - i
      {
        if CharAt(kbuf, i) == NEWLINE {
          i := i + 1;
          break;
        }
        b[i] := CharAt(kbuf, i);
        i := i + 1;
      }
      assert i == LineLength(kbuf, count);
      if i > 0 {
        ghost var copied := b[..];
        b[i - 1] := NEWLINE;
        LineAssembled(copied, kbuf, i, old(b[..]));
      } else {
        assert b[..] == Line(kbuf, 0) + old(b[..])[0..];
      }
      readcount := i;
      idle := true;
    }

    /** terminal_read: waits for one line of at most nbytes bytes in buf and
        returns its length. kbuf is the keyboard buffer at the moment the
        line is complete; the wait ends with the end_of_line call made
        then. */
    method TerminalRead(fd: int, buf: array<byte>, nbytes: int, kbuf: seq<byte>) returns (r: int)
      requires nbytes <= buf.Length
      modifies this, buf
      ensures r == LineLength(kbuf, nbytes)
      ensures buf[..] == Line(kbuf, r) + old(buf[..])[r..]
      ensures idle && readbuf == buf && readcount == r
    {
      readbuf := buf;
      readcount := nbytes;
      idle := false;
      EndOfLine(kbuf);
      return readcount;
    }
  }

  /** The bytes of s that are not NUL, in order. */
  function NonNul(s: seq<byte>): (r: seq<byte>)
    ensures |r| <= |s|
    ensures forall k | 0 <= k < |r| :: r[k] != 0
  {
    if s == [] then []
    else NonNul(s[..|s| - 1]) + (if s[|s| - 1] != 0 then [s[|s| - 1]] else [])
  }

  lemma NonNulSnoc(s: seq<byte>, x: byte)
    ensures NonNul(s + [x]) == NonNul(s) + (if x != 0 then [x] else [])
  {
    assert (s + [x])[..|s|] == s;
  }

  /** What one more iteration of terminal_write's loop adds to the
      screen. */
  lemma PrintedStep(s: seq<byte>, i: nat)
    requires i < |s|
    ensures Puts(NonNul(s[..i + 1])) == Puts(NonNul(s[..i])) + (if s[i] != 0 then [Put(s[i])] else [])
  {
    assert s[..i + 1] == s[..i] + [s[i]];
    NonNulSnoc(s[..i], s[i]);
    PutsAppend(NonNul(s[..i]), if s[i] != 0 then [s[i]] else []);
  }

  /** A buffer without NUL bytes is printed whole. */
  lemma {:induction false} NonNulKeepsText(s: seq<byte>)
    requires forall k | 0 <= k < |s| :: s[k] != 0
    ensures NonNul(s) == s
  {
    if s != [] {
      NonNulKeepsText(s[..|s| - 1]);
    }
  }

  /** Dropping NULs twice drops nothing more. */
  lemma NonNulIdempotent(s: seq<byte>)
    ensures NonNul(NonNul(s)) == NonNul(s)
  {
    NonNulKeepsText(NonNul(s));
  }

  /** terminal_write: with interrupts off, prints every non-NUL byte of the
      first nbytes of buf, and returns nbytes whatever it printed. */
  method TerminalWrite(hw: Hardware, fd: int, buf: array<byte>, nbytes: int) returns (r: int)
    requires nbytes <= buf.Length
    modifies hw
    ensures r == nbytes
    ensures hw.screenLog == old(hw.screenLog) + Puts(NonNul(buf[..if nbytes > 0 then nbytes else 0]))
    ensures hw.portLog == old(hw.portLog) && hw.interruptsEnabled
  {
    hw.Cli();
    var i := 0;
    while i < nbytes
      invariant 0 <= i <= buf.Length && (i == 0 || i <= nbytes)
      invariant hw.screenLog == old(hw.screenLog) + Puts(NonNul(buf[..i]))
      invariant hw.portLog == old(hw.portLog)
    {
      PrintedStep(buf[..], i);
      if buf[i] != 0 {
        hw.Putc(buf[i]);
      }
      i := i + 1;
    }
    assert i == (if nbytes > 0 then nbytes else 0);
    hw.Sti();
    return nbytes;
  }

  function TerminalOpen(filename: Option<seq<byte>>): int { 0 }
  function TerminalClose(fd: int): int { 0 }

  /** terminal_open and terminal_close succeed whatever their argument. */
  lemma TerminalOpenCloseSucceed(filename: Option<seq<byte>>, fd: int)
    ensures TerminalOpen(filename) == 0 && TerminalClose(fd) == 0
  {
  }
}
