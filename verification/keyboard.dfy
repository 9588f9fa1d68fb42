/** The PS/2 keyboard driver (keyboard.c): each IRQ 1 reads a scan code
    from port 0x60, looks it up in a table of printable characters and
    echoes it on a cleared screen. */
module Keyboard {
  import opened Types
  import opened Io
  import opened I8259

  const KEYBOARD_IRQ: u32 := 1
  const KEYBOARD_PORT: int := 0x60
  /** The number of entries the table is declared with. */
  const KEYS_LENGTH: nat := 54

  /** The table as the source declares it (keys[54]), indexed by scan code,
      eight entries per row as in the source; 0 marks a key that prints
      nothing. Between codes 0x0F and 0x16 the entries are one position
      late: the tab key's code 0x0F holds 0, 0x10 holds '\t', 'q'..'y' sit
      one code above their keys, and 'u' is missing. */
  function KeysAsWritten(): (t: seq<char>)
    ensures |t| == KEYS_LENGTH
  {
    [0 as char, 0 as char, '1', '2', '3', '4', '5', '6'] +
    ['7', '8', '9', '0', '-', '=', 0 as char, 0 as char] +
    ['\t', 'q', 'w', 'e', 'r', 't', 'y', 'i'] +
    ['o', 'p', '[', ']', '\n', 0 as char, 'a', 's'] +
    ['d', 'f', 'g', 'h', 'j', 'k', 'l', ';'] +
    ['\'', '`', 0 as char, '\\', 'z', 'x', 'c', 'v'] +
    ['b', 'n', 'm', ',', '.', '/']
  }

  /** The table with the top letter row where scan code set 1 puts it: tab
      at 0x0F and "qwertyuiop" at 0x10..0x19. */
  function Keys(): (t: seq<char>)
    ensures |t| == KEYS_LENGTH
  {
    [0 as char, 0 as char, '1', '2', '3', '4', '5', '6'] +
    ['7', '8', '9', '0', '-', '=', 0 as char, '\t'] +
    ['q', 'w', 'e', 'r', 't', 'y', 'u', 'i'] +
    ['o', 'p', '[', ']', '\n', 0 as char, 'a', 's'] +
    ['d', 'f', 'g', 'h', 'j', 'k', 'l', ';'] +
    ['\'', '`', 0 as char, '\\', 'z', 'x', 'c', 'v'] +
    ['b', 'n', 'm', ',', '.', '/']
  }

  /** The entries both tables share with scan code set 1 outside the top
      letter row: the digits at 0x02..0x0B, Enter (newline) at 0x1C and 'a'
      at 0x1E. */
  lemma DigitsAndHomeRow()
    ensures KeysAsWritten()[0x02..0x0C] == "1234567890" && Keys()[0x02..0x0C] == "1234567890"
    ensures KeysAsWritten()[0x1C] == '\n' && KeysAsWritten()[0x1E] == 'a'
    ensures Keys()[0x1C] == '\n' && Keys()[0x1E] == 'a'
  {
    var t, c := KeysAsWritten(), Keys();
    assert t[2] == '1' && t[3] == '2' && t[4] == '3' && t[5] == '4' && t[6] == '5' &&
           t[7] == '6' && t[8] == '7' && t[9] == '8' && t[10] == '9' && t[11] == '0';
    assert c[2] == '1' && c[3] == '2' && c[4] == '3' && c[5] == '4' && c[6] == '5' &&
           c[7] == '6' && c[8] == '7' && c[9] == '8' && c[10] == '9' && c[11] == '0';
  }

  /** As written, scan code 0x0F (Tab) prints nothing, 0x10 (Q) prints a
      tab, 0x16 (U) prints 'y', and no code prints 'u'. */
  lemma TopRowShifted()
    ensures KeysAsWritten()[0x0F] == 0 as char && KeysAsWritten()[0x10] == '\t' && KeysAsWritten()[0x16] == 'y'
    ensures 'u' !in KeysAsWritten()
  {
    var t := KeysAsWritten();
    forall k | 0 <= k < |t| ensures t[k] != 'u' {
      assert k < KEYS_LENGTH;
    }
  }

  /** The corrected table holds tab and the whole top row in order from
      0x0F, and agrees with the source's table at every other code. */
  lemma TopRowRestored()
    ensures Keys()[0x0F..0x1A] == "\tqwertyuiop"
    ensures forall k | 0 <= k < KEYS_LENGTH && !(0x0F <= k <= 0x16) :: Keys()[k] == KeysAsWritten()[k]
  {
    var c := Keys();
    assert c[0x0F] == '\t' && c[0x10] == 'q' && c[0x11] == 'w' && c[0x12] == 'e' && c[0x13] == 'r' &&
           c[0x14] == 't' && c[0x15] == 'y' && c[0x16] == 'u' && c[0x17] == 'i' && c[0x18] == 'o' && c[0x19] == 'p';
  }

  /** (char)code: the scan code as the signed char the source keeps it
      in. */
  function AsChar(code: byte): (r: int)
    ensures -128 <= r < 128
    ensures code < 0x80 ==> r == code
  {
    if code < 0x80 then code else code - 0x100
  }

  /** The table index keyboard_handler reads as written, when its sc < 54
      test passes: the signed value of the code. */
  function IndexAsWritten(code: byte): (r: Option<int>)
  {
    if AsChar(code) < KEYS_LENGTH as int then Some(AsChar(code)) else None
  }

  /** Every key release (codes 0x80 and above, the press code plus 0x80)
      passes the test as written and indexes 128 down to 1 entries before
      the table; only codes 0x36..0x7F are rejected. */
  lemma ReleaseCodesIndexBeforeTable(code: byte)
    ensures code >= 0x80 ==> IndexAsWritten(code) == Some(code - 0x100) && code - 0x100 < 0
    ensures IndexAsWritten(code).None? <==> KEYS_LENGTH <= code < 0x80
    ensures code < 0x80 ==> IndexAsWritten(code) == (if code < KEYS_LENGTH then Some(code as int) else None)
  {
  }

  /** The character keyboard_handler prints for code, as written. below
      holds the 128 bytes that lie in memory just before the table, below[j]
      being keys[j - 128]: the bytes a negative index reads. A code prints
      exactly when it is a press code that indexes the table or any release
      code; a press prints its table entry and a release a byte from before
      the table. */
  function Printed(code: byte, below: seq<char>): (c: Option<char>)
    requires |below| == 128
    ensures c.Some? <==> code < KEYS_LENGTH || code >= 0x80
    ensures code < KEYS_LENGTH ==> c == Some(KeysAsWritten()[code])
    ensures code >= 0x80 ==> c == Some(below[code - 0x80])
  {
    match IndexAsWritten(code)
    case None => None
    case Some(i) => if i >= 0 then Some(KeysAsWritten()[i]) else Some(below[i + 128])
  }

  /** The character the handler would print with the corrected table and
      the code compared as the unsigned byte it is. */
  function Echo(code: byte): Option<char>
  {
    if code < KEYS_LENGTH then Some(Keys()[code]) else None
  }

  /** The unsigned test admits exactly the codes whose signed index lies
      inside the table, so releases print nothing. */
  lemma UnsignedTestMatchesTable(code: byte)
    ensures Echo(code).Some? <==> IndexAsWritten(code).Some? && IndexAsWritten(code).value >= 0
  {
  }

  /** The corrected handler and the one as written print the same thing
      for every code except the shifted top row (0x0F..0x16) and the
      release codes, which the corrected one ignores. */
  lemma CorrectedDiffersOnlyThere(code: byte, below: seq<char>)
    requires |below| == 128
    ensures Echo(code) != Printed(code, below) ==> 0x0F <= code <= 0x16 || code >= 0x80
    ensures code >= 0x80 ==> Echo(code).None? && Printed(code, below).Some?
    ensures Echo(0x10) == Some('q') && Printed(0x10, below) == Some('\t')
  {
  }

  /** keyboard_init: unmasks IRQ 1. */
  method KeyboardInit(pic: Pic)
    modifies pic, pic.hw
    ensures pic.masterMask == Unmask(old(pic.masterMask), 1) && pic.slaveMask == old(pic.slaveMask)
    ensures pic.hw.portLog == old(pic.hw.portLog) + [PortWrite(MASTER_DATA, pic.masterMask as int)]
    ensures pic.hw.interruptsEnabled && pic.hw.screenLog == old(pic.hw.screenLog)
  {
    pic.EnableIrq(KEYBOARD_IRQ);
  }

  /** keyboard_handler: code is the byte read from port 0x60, kept in the
      signed char sc, and below the bytes before the table (see Printed).
      A code that passes sc < 54 clears the screen and prints what the
      table holds at sc; every interrupt, printed or not, is acknowledged
      with EOI for IRQ 1. */
  method KeyboardHandler(pic: Pic, code: byte, below: seq<char>)
    requires |below| == 128
    modifies pic.hw
    ensures pic.hw.screenLog == old(pic.hw.screenLog) +
      (if Printed(code, below).Some? then [Clear, Put(Printed(code, below).value as int % 0x100)] else [])
    ensures pic.hw.portLog == old(pic.hw.portLog) + EoiWrites(KEYBOARD_IRQ)
    ensures pic.hw.interruptsEnabled == old(pic.hw.interruptsEnabled)
  {
    var sc := AsChar(code);
    if sc < KEYS_LENGTH as int {
      var c := if sc >= 0 then KeysAsWritten()[sc] else below[sc + 128];
      pic.hw.ClearScreen();
      pic.hw.Putc(c as int % 0x100);
    }
    pic.SendEoi(KEYBOARD_IRQ);
  }
}
