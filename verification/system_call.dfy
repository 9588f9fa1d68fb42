/** The system calls (system_call.c, system_call.h): execute and halt, the
    per-process file descriptor table behind open, close, read and write,
    getargs and vidmap. The process control blocks sit at fixed addresses
    below the kernel stack top; they are modelled as a pid-indexed sequence
    of three records, and the running process, which the source recovers
    from the stack pointer, as an explicit pid. */
module SystemCall {
  import opened Types
  import opened FileSys
  import opened Paging
  import opened Rtc
  import opened Terminal

  const MAX_FILES: nat := 8
  const MAGIC_SIZE: nat := 4
  const MAGIC_NUM: u32 := 0x7F45_4C46
  /** execute only looks for a free pid below this bound. */
  const MAX_TASKS: nat := 2
  /** The number of process control blocks: the scheduler builds pids 0, 1
      and 2. */
  const NUM_PCB: nat := 3
  const NUM_TERMINAL: nat := 3
  const READBUF_SIZE: nat := 128
  const SPACE: byte := 0x20
  /** The byte offset of the entry point in an executable (e_entry of the
      ELF32 header). */
  const ENTRY_OFFSET: nat := 24
  /** What halt hands back when the process died of an exception. */
  const EXCEPTION_STATUS: nat := 0x100
  /** The user address vidmap hands out:
      (VIDEO_MEMORY_PTE << 22) | (VIDEO_MEMORY_PTE << 12). */
  const VIDMAP_ADDR: nat := 0x2E0B_8000

  // ---------------------------------------------------------------------
  // Process control block addresses

  /** GET_PCB(pid): the block at the bottom of pid's 8 KiB kernel stack. */
  function GetPcb(pid: nat): int
  {
    0x7F_E000 - 0x2000 * pid
  }

  /** Distinct pids get distinct blocks 8 KiB apart, and the blocks of
      pids 0..2 lie inside the kernel's 4 MiB page at 0x400000. */
  lemma PcbPlacement(p: nat, q: nat)
    ensures p != q ==> GetPcb(p) != GetPcb(q)
    ensures GetPcb(p) - GetPcb(p + 1) == 0x2000
    ensures p < NUM_PCB ==> 0x40_0000 <= GetPcb(p) && GetPcb(p) + 0x2000 <= 0x80_0000
  {
  }

  /** The user program's directory entry covers 128 MiB up to 132 MiB. */
  lemma UserPageAt128MiB()
    ensures USER_ENTRY * 0x40_0000 == 0x800_0000
    ensures VIDMAP_ADDR / 0x40_0000 == VIDEO_MEMORY_PTE && VIDMAP_ADDR / 0x1000 % 0x400 == VIDEO_MEMORY_PTE
  {
  }

  // ---------------------------------------------------------------------
  // Process state

  /** The fields of a process control block the code uses: its descriptor
      table, the pid of its parent (NULL for a root shell), whether it is in
      use, its pid, the saved frame pointers, its kernel stack, whether it
      mapped video memory or opened the RTC, and its argument string. */
  datatype Pcb = Pcb(fds: seq<FileDescriptor>, parent: Option<nat>, present: bool, pid: nat,
                     ebp: int, eebp: int, esp0: int, ss0: int, vidmap: bool, rtc: bool,
                     args: seq<byte>)

  /** A terminal's foreground pid (-1 when none has been started) and
      whether its process is to be halted at its next turn. */
  datatype TermSlot = TermSlot(pid: int, halt: bool)

  /** Where control goes when a call that never returns normally is done. */
  datatype Transfer =
    | Fail                                            // the call returns -1
    | EnterUser(pid: nat, eip: u32)                   // iret into a freshly loaded program
    | ReturnToParent(pid: nat, value: int, ebp: int)  // the parent's execute returns value
    | Resume(pid: nat, ebp: int)                      // leave/ret onto pid's kernel stack

  /** The descriptor table execute installs: stdin and stdout open on 0 and
      1, the null operations bound to 2..7 whose flags stay as they were. */
  function ExecFds(fds: seq<FileDescriptor>): (r: seq<FileDescriptor>)
    requires |fds| == MAX_FILES
    ensures |r| == MAX_FILES
  {
    seq(MAX_FILES, k requires 0 <= k < MAX_FILES =>
      if k == 0 then fds[0].(ops := StdinOps, flags := 1)
      else if k == 1 then fds[1].(ops := StdoutOps, flags := 1)
      else fds[k].(ops := NullOps))
  }

  /** The descriptor table initiate_shells installs: as execute's, with
      descriptors 2..7 also closed. */
  function ShellFds(fds: seq<FileDescriptor>): (r: seq<FileDescriptor>)
    requires |fds| == MAX_FILES
    ensures |r| == MAX_FILES
  {
    seq(MAX_FILES, k requires 0 <= k < MAX_FILES =>
      if k < 2 then ExecFds(fds)[k] else fds[k].(ops := NullOps, flags := 0))
  }

  /** Both tables open exactly stdin on 0 and stdout on 1 and bind the null
      operations elsewhere; inode and position are never touched, and only
      the boot table closes 2..7. */
  lemma StartupDescriptors(fds: seq<FileDescriptor>, k: nat)
    requires |fds| == MAX_FILES && k < MAX_FILES
    ensures ExecFds(fds)[k].ops == (if k == 0 then StdinOps else if k == 1 then StdoutOps else NullOps)
    ensures ShellFds(fds)[k].ops == ExecFds(fds)[k].ops
    ensures ExecFds(fds)[k].flags == (if k < 2 then 1 else fds[k].flags)
    ensures ShellFds(fds)[k].flags == (if k < 2 then 1 else 0)
    ensures ExecFds(fds)[k].inode == ShellFds(fds)[k].inode == fds[k].inode
    ensures ExecFds(fds)[k].position == ShellFds(fds)[k].position == fds[k].position
  {
  }

  /** halt's reclaim: not present, no video mapping, no RTC, every
      descriptor closed. */
  function Reclaimed(p: Pcb): (r: Pcb)
  {
    p.(present := false, vidmap := false, rtc := false,
       fds := seq(|p.fds|, k requires 0 <= k < |p.fds| => p.fds[k].(flags := 0)))
  }

  lemma ReclaimClosesAll(p: Pcb)
    ensures !Reclaimed(p).present && !Reclaimed(p).vidmap && !Reclaimed(p).rtc
    ensures |Reclaimed(p).fds| == |p.fds|
    ensures forall k | 0 <= k < |p.fds| :: Reclaimed(p).fds[k] == p.fds[k].(flags := 0)
    ensures Reclaimed(p).pid == p.pid && Reclaimed(p).parent == p.parent && Reclaimed(p).args == p.args
  {
  }

  /** movb %b0, %al: the low byte of eax replaced by b. */
  function MovAl(eax: u32, b: byte): u32
  {
    eax - eax % 0x100 + b
  }

  /** The value halt leaves in eax for the parent's execute to return:
      0x100 after an exception, otherwise 0 with the status moved into al.
      The parent can tell an exception from every status, and recovers the
      status from the low byte. */
  function HaltValue(status: byte, exception: bool): (v: int)
    ensures v == EXCEPTION_STATUS <==> exception
    ensures 0 <= v <= EXCEPTION_STATUS
    ensures !exception ==> v % 0x100 == status
  {
    if exception then EXCEPTION_STATUS else MovAl(0, status)
  }

  // ---------------------------------------------------------------------
  // Command line parsing

  /** The three kinds of run execute's parser scans over. */
  datatype RunKind = SpaceRun | WordRun | TextRun

  predicate Continues(kind: RunKind, c: byte)
  {
    match kind
    case SpaceRun => c == SPACE
    case WordRun => c != 0 && c != SPACE
    case TextRun => c != 0
  }

  /** Byte j of the string that starts at offset at of command. */
  function At(command: seq<byte>, at: nat, j: int): byte
  {
    CharAt(command, at + j)
  }

  /** The length of the run of kind starting at command[at + i], counted
      from i and capped at READBUF_SIZE. */
  function RunFrom(command: seq<byte>, at: nat, kind: RunKind, i: nat): (n: nat)
    requires i <= READBUF_SIZE
    ensures i <= n <= READBUF_SIZE
    ensures forall j | i <= j < n :: Continues(kind, At(command, at, j))
    ensures n < READBUF_SIZE ==> !Continues(kind, At(command, at, n))
    decreases READBUF_SIZE - i
  {
    if i == READBUF_SIZE || !Continues(kind, At(command, at, i)) then i
    else RunFrom(command, at, kind, i + 1)
  }

  function Run(command: seq<byte>, at: nat, kind: RunKind): (n: nat)
    ensures n <= READBUF_SIZE
  {
    RunFrom(command, at, kind, 0)
  }

  /** A run is determined by where it stops: any n that only passes over
      bytes of the kind and stops at one that is not (or at the cap) is the
      run's length. */
  lemma RunUnique(command: seq<byte>, at: nat, kind: RunKind, n: nat)
    requires n <= READBUF_SIZE
    requires forall j | 0 <= j < n :: Continues(kind, At(command, at, j))
    requires n < READBUF_SIZE ==> !Continues(kind, At(command, at, n))
    ensures n == Run(command, at, kind)
  {
  }

  /** The n bytes of command from at on. */
  function Slice(command: seq<byte>, at: nat, n: nat): (s: seq<byte>)
    ensures |s| == n && forall j | 0 <= j < n :: s[j] == At(command, at, j)
  {
    seq(n, j requires 0 <= j < n => At(command, at, j))
  }

  /** s in a zero-filled READBUF_SIZE buffer. */
  function Padded(s: seq<byte>): (p: seq<byte>)
    requires |s| <= READBUF_SIZE
    ensures |p| == READBUF_SIZE
    ensures forall j | 0 <= j < READBUF_SIZE :: p[j] == (if j < |s| then s[j] else 0)
  {
    seq(READBUF_SIZE, j requires 0 <= j < READBUF_SIZE => if j < |s| then s[j] else 0)
  }

  datatype Command = Command(name: seq<byte>, args: seq<byte>)

  /** execute's parse: skip leading spaces (a NUL among them refuses the
      command), the name is the following run of bytes that are neither
      space nor NUL, then the spaces after it are skipped and the arguments
      are everything up to the NUL; each scan is capped at READBUF_SIZE. */
  function ParseCommand(command: seq<byte>): Option<Command>
  {
    var lead := Run(command, 0, SpaceRun);
    if lead < READBUF_SIZE && At(command, 0, lead) == 0 then None
    else Some(ParseName(command, lead))
  }

  /** The name and arguments of a command whose name starts at lead. */
  function ParseName(command: seq<byte>, lead: nat): Command
  {
    var nameLen := Run(command, lead, WordRun);
    var gap := Run(command, lead + nameLen, SpaceRun);
    Command(Slice(command, lead, nameLen), Slice(command, lead + nameLen + gap, Run(command, lead + nameLen + gap, TextRun)))
  }

  /** A command is refused exactly when a NUL comes within the first
      READBUF_SIZE bytes with only spaces before it. Otherwise the name
      holds no space or NUL and is as long as it can be, and the arguments
      hold no NUL and keep their trailing spaces; each is at most
      READBUF_SIZE bytes. */
  lemma ParseCommandMeaning(command: seq<byte>)
    ensures ParseCommand(command).None? <==>
      exists k | 0 <= k < READBUF_SIZE :: At(command, 0, k) == 0 && forall j | 0 <= j < k :: At(command, 0, j) == SPACE
    ensures ParseCommand(command).Some? ==>
      var c := ParseCommand(command).value;
      |c.name| <= READBUF_SIZE && |c.args| <= READBUF_SIZE &&
      (forall j | 0 <= j < |c.name| :: c.name[j] != 0 && c.name[j] != SPACE) &&
      (forall j | 0 <= j < |c.args| :: c.args[j] != 0)
  {
    var lead := Run(command, 0, SpaceRun);
    if lead < READBUF_SIZE && At(command, 0, lead) == 0 {
    } else {
      forall k | 0 <= k < READBUF_SIZE && At(command, 0, k) == 0
        ensures exists j | 0 <= j < k :: At(command, 0, j) != SPACE
      {
        assert k >= lead;
        if k == lead {
          assert false;
        }
        assert At(command, 0, lead) != SPACE;
      }
    }
  }

  /** "  shell  a b " parses to the name "shell" and the arguments "a b ",
      trailing space kept; "   " is refused, since past its spaces the
      command holds only its terminating NUL. */
  lemma ParseExamples()
    ensures ParseCommand([SPACE, SPACE, 0x73, 0x68, 0x65, 0x6C, 0x6C, SPACE, SPACE, 0x61, SPACE, 0x62, SPACE]) ==
      Some(Command([0x73, 0x68, 0x65, 0x6C, 0x6C], [0x61, SPACE, 0x62, SPACE]))
    ensures ParseCommand([SPACE, SPACE, SPACE]) == None
  {
    var c: seq<byte> := [SPACE, SPACE, 0x73, 0x68, 0x65, 0x6C, 0x6C, SPACE, SPACE, 0x61, SPACE, 0x62, SPACE];
    RunUnique(c, 0, SpaceRun, 2);
    RunUnique(c, 2, WordRun, 5);
    RunUnique(c, 7, SpaceRun, 2);
    RunUnique(c, 9, TextRun, 4);
    assert Slice(c, 2, 5) == [0x73, 0x68, 0x65, 0x6C, 0x6C];
    assert Slice(c, 9, 4) == [0x61, SPACE, 0x62, SPACE];
    RunUnique([SPACE, SPACE, SPACE], 0, SpaceRun, 3);
  }

  /** execute's first loop: skips the leading spaces and refuses the
      command at a NUL. */
  method SkipLeading(command: seq<byte>) returns (ok: bool, n: nat)
    ensures n == Run(command, 0, SpaceRun)
    ensures ok <==> !(n < READBUF_SIZE && At(command, 0, n) == 0)
  {
    n := 0;
    while n < READBUF_SIZE
      invariant 0 <= n <= READBUF_SIZE
      invariant forall j | 0 <= j < n :: At(command, 0, j) == SPACE
    {
      if At(command, 0, n) == 0 {
        RunUnique(command, 0, SpaceRun, n);
        return false, n;
      } else if At(command, 0, n) != SPACE {
        break;
      }
      n := n + 1;
    }
    RunUnique(command, 0, SpaceRun, n);
    ok := true;
  }

  /** execute's third loop: skips the spaces between name and arguments. */
  method SkipSpaces(command: seq<byte>, at: nat) returns (n: nat)
    ensures n == Run(command, at, SpaceRun)
  {
    n := 0;
    while n < READBUF_SIZE
      invariant 0 <= n <= READBUF_SIZE
      invariant forall j | 0 <= j < n :: At(command, at, j) == SPACE
    {
      if At(command, at, n) == 0 || At(command, at, n) != SPACE {
        break;
      }
      n := n + 1;
    }
    RunUnique(command, at, SpaceRun, n);
  }

  /** execute's second and fourth loops: copy a run into a zeroed
      READBUF_SIZE buffer. */
  method CopyRun(command: seq<byte>, at: nat, kind: RunKind) returns (n: nat, buf: seq<byte>)
    requires kind != SpaceRun
    ensures n == Run(command, at, kind)
    ensures buf == Padded(Slice(command, at, n))
  {
    buf := Padded([]);
    n := 0;
    while n < READBUF_SIZE
      invariant 0 <= n <= READBUF_SIZE
      invariant |buf| == READBUF_SIZE
      invariant forall j | 0 <= j < n :: Continues(kind, At(command, at, j))
      invariant forall j | 0 <= j < READBUF_SIZE :: buf[j] == (if j < n then At(command, at, j) else 0)
    {
      if !Continues(kind, At(command, at, n)) {
        break;
      }
      buf := buf[n := At(command, at, n)];
      n := n + 1;
    }
    RunUnique(command, at, kind, n);
  }

  /** execute's four scanning loops: the filename and args buffers come out
      as the parsed name and arguments, zero-filled. */
  method ParseLoops(command: seq<byte>) returns (ok: bool, filename: seq<byte>, args: seq<byte>)
    ensures ok <==> ParseCommand(command).Some?
    ensures ok ==> filename == Padded(ParseCommand(command).value.name) &&
                   args == Padded(ParseCommand(command).value.args)
  {
    var lead;
    ok, lead := SkipLeading(command);
    if !ok {
      return false, Padded([]), Padded([]);
    }
    filename, args := ScanName(command, lead);
  }

  /** The last three loops, from the first byte of the name. */
  method ScanName(command: seq<byte>, lead: nat) returns (filename: seq<byte>, args: seq<byte>)
    ensures filename == Padded(ParseName(command, lead).name)
    ensures args == Padded(ParseName(command, lead).args)
  {
    var nameLen, gap, argsLen;
    nameLen, filename := CopyRun(command, lead, WordRun);
    gap := SkipSpaces(command, lead + nameLen);
    argsLen, args := CopyRun(command, lead + nameLen + gap, TextRun);
    NameFromRuns(command, lead, nameLen, gap, argsLen);
  }

  /** ParseName's result from the lengths of its three runs. */
  lemma NameFromRuns(command: seq<byte>, lead: nat, nameLen: nat, gap: nat, argsLen: nat)
    requires nameLen == Run(command, lead, WordRun) && gap == Run(command, lead + nameLen, SpaceRun)
    requires argsLen == Run(command, lead + nameLen + gap, TextRun)
    ensures ParseName(command, lead).name == Slice(command, lead, nameLen)
    ensures ParseName(command, lead).args == Slice(command, lead + nameLen + gap, argsLen)
  {
  }

  // Reading the executable

  /** Byte k of a 4-byte variable after read_data(n, offset, &var, 4): the
      file's byte where read_data copied one, the variable's earlier
      content elsewhere. */
  ghost function LoadedByte(img: Image, n: nat, offset: nat, stale: u32, k: nat): byte
    requires k < 4
  {
    if k < Copied(img, n, offset, 4) then FileByte(img, n, offset + k) else LeByte(stale, k)
  }

  /** The word the variable then holds, as the CPU loads it. */
  ghost function LoadedWord(img: Image, n: nat, offset: nat, stale: u32): u32
  {
    Le32(LoadedByte(img, n, offset, stale, 0), LoadedByte(img, n, offset, stale, 1),
         LoadedByte(img, n, offset, stale, 2), LoadedByte(img, n, offset, stale, 3))
  }

  /** read_data into a 4-byte variable that held stale. */
  method ReadWord(img: Image, inode: u32, offset: u32, stale: u32) returns (r: int, w: u32)
    ensures r == ReadDataResult(img, inode, offset, 4)
    ensures w == LoadedWord(img, inode, offset, stale)
  {
    var buf := new byte[4](k requires 0 <= k < 4 => LeByte(stale, k));
    ghost var before := buf[..];
    r := ReadData(img, inode, offset, buf, 4);
    ghost var c := Copied(img, inode, offset, 4);
    forall k | 0 <= k < 4 ensures buf[k] == LoadedByte(img, inode, offset, stale, k) {
      if k < c {
        assert buf[k] == buf[..c][k];
        FileBytesAt(img, inode, offset, c, k);
      } else {
        assert buf[k] == buf[c..][k - c] == before[c..][k - c];
      }
    }
    w := Le32(buf[0], buf[1], buf[2], buf[3]);
  }

  /** The magic word is read lowest address first: a file passes only when
      it starts with the bytes 46 4C 45 7F, so an ELF file, which starts
      with 7F 45 4C 46, is refused. */
  lemma MagicByteOrder(b0: byte, b1: byte, b2: byte, b3: byte)
    ensures Le32(b0, b1, b2, b3) == MAGIC_NUM <==> b0 == 0x46 && b1 == 0x4C && b2 == 0x45 && b3 == 0x7F
    ensures Le32(0x7F, 0x45, 0x4C, 0x46) != MAGIC_NUM
  {
    LeDecodeEncode(b0, b1, b2, b3);
  }

  /** When all four bytes are copied the stale content does not matter. */
  lemma LoadedWordWhole(img: Image, n: nat, offset: nat, stale: u32, other: u32)
    requires Copied(img, n, offset, 4) == 4
    ensures LoadedWord(img, n, offset, stale) == LoadedWord(img, n, offset, other) ==
      Le32(FileByte(img, n, offset), FileByte(img, n, offset + 1), FileByte(img, n, offset + 2), FileByte(img, n, offset + 3))
  {
  }

  // ---------------------------------------------------------------------
  // Process allocation

  /** The lowest pid below MAX_TASKS whose block is not in use. */
  function LowestFreePid(pcbs: seq<Pcb>): (r: Option<nat>)
    requires |pcbs| == NUM_PCB
    ensures r.Some? ==> r.value < MAX_TASKS && !pcbs[r.value].present &&
                        forall q | 0 <= q < r.value :: pcbs[q].present
    ensures r.None? <==> forall q | 0 <= q < MAX_TASKS :: pcbs[q].present
  {
    if !pcbs[0].present then Some(0) else if !pcbs[1].present then Some(1) else None
  }

  /** execute never hands out pid 2 or above. */
  lemma AllocationBelowMaxTasks(pcbs: seq<Pcb>)
    requires |pcbs| == NUM_PCB
    ensures LowestFreePid(pcbs).Some? ==> LowestFreePid(pcbs).value < MAX_TASKS < NUM_PCB
    ensures pcbs[0].present && pcbs[1].present && !pcbs[2].present ==> LowestFreePid(pcbs).None?
  {
  }

  /** execute's pid search loop. */
  method FindFreePid(pcbs: seq<Pcb>) returns (pid: nat)
    requires |pcbs| == NUM_PCB
    ensures pid <= MAX_TASKS
    ensures pid == MAX_TASKS <==> LowestFreePid(pcbs).None?
    ensures pid < MAX_TASKS ==> LowestFreePid(pcbs) == Some(pid)
  {
    pid := 0;
    while pid < MAX_TASKS
      invariant pid <= MAX_TASKS
      invariant forall q | 0 <= q < pid :: pcbs[q].present
    {
      if !pcbs[pid].present {
        break;
      }
      pid := pid + 1;
    }
  }

  /** What execute admits: the executable's inode, the pid it gets, and
      the argument buffer; None when it returns -1 (a blank command, a name
      that does not resolve, a failed or wrong magic read, or no free
      pid). */
  datatype Admission = Admission(inode: u32, pid: nat, args: seq<byte>)

  ghost function Admit(img: Image, command: seq<byte>, staleMagic: u32, pcbs: seq<Pcb>): Option<Admission>
    requires |pcbs| == NUM_PCB
  {
    match ParseCommand(command)
    case None => None
    case Some(c) =>
      var found := Lookup(img, Padded(c.name));
      if found.None? then None
      else
        var inode := DentryAt(img, found.value).inode;
        if ReadDataResult(img, inode, 0, MAGIC_SIZE) == -1 || LoadedWord(img, inode, 0, staleMagic) != MAGIC_NUM then None
        else if LowestFreePid(pcbs).None? then None
        else Some(Admission(inode, LowestFreePid(pcbs).value, Padded(c.args)))
  }

  /** What an admitted command satisfies: it parses, its padded name
      resolves to the admitted inode, the magic word read from the file's
      first bytes is MAGIC_NUM, the pid is the lowest free one below
      MAX_TASKS, and the arguments are the parsed ones, zero-filled. */
  lemma AdmitMeaning(img: Image, command: seq<byte>, staleMagic: u32, pcbs: seq<Pcb>)
    requires |pcbs| == NUM_PCB
    ensures var a := Admit(img, command, staleMagic, pcbs);
      a.Some? ==>
        ParseCommand(command).Some? &&
        Lookup(img, Padded(ParseCommand(command).value.name)).Some? &&
        a.value.inode == DentryAt(img, Lookup(img, Padded(ParseCommand(command).value.name)).value).inode &&
        ReadDataResult(img, a.value.inode, 0, MAGIC_SIZE) != -1 &&
        LoadedWord(img, a.value.inode, 0, staleMagic) == MAGIC_NUM &&
        a.value.pid < MAX_TASKS && !pcbs[a.value.pid].present &&
        (forall q | 0 <= q < a.value.pid :: pcbs[q].present) &&
        a.value.args == Padded(ParseCommand(command).value.args)
  {
  }

  /** Once the blocks of pids 0 and 1 are in use, as they are after the
      three shells boot, execute refuses every command: a shell can start
      no program, and a halted root shell can only be replaced in pid 0 or
      1, never in pid 2. */
  lemma ExecuteRefusedWhileRootsRun(img: Image, command: seq<byte>, staleMagic: u32, pcbs: seq<Pcb>)
    requires |pcbs| == NUM_PCB && pcbs[0].present && pcbs[1].present
    ensures Admit(img, command, staleMagic, pcbs).None?
    ensures Admit(img, command, staleMagic, pcbs[2 := Reclaimed(pcbs[2])]).None?
  {
    assert LowestFreePid(pcbs).None?;
    assert LowestFreePid(pcbs[2 := Reclaimed(pcbs[2])]).None?;
  }

  /** execute's checks, parse to pid search, as a method over the image and
      the control blocks. */
  method CheckCommand(img: Image, command: seq<byte>, staleMagic: u32, pcbs: seq<Pcb>) returns (a: Option<Admission>)
    requires |pcbs| == NUM_PCB
    ensures a == Admit(img, command, staleMagic, pcbs)
    ensures a.Some? ==> a.value.pid < MAX_TASKS && |a.value.args| == READBUF_SIZE
  {
    var ok, filename, args := ParseLoops(command);
    if !ok {
      return None;
    }
    var dentry := ReadDentryByName(img, Some(filename));
    if dentry.None? {
      return None;
    }
    var inode := dentry.value.inode;
    var r, magic := ReadWord(img, inode, 0, staleMagic);
    if r == -1 || magic != MAGIC_NUM {
      return None;
    }
    var pid := FindFreePid(pcbs);
    if pid == MAX_TASKS {
      return None;
    }
    return Some(Admission(inode, pid, args));
  }

  /** The block execute builds for pid: descriptors as ExecFds, no parent
      unless pid > 2, in use, its pid, kernel stack esp0, both saved frame
      pointers ebp, and the arguments; ss0 and the video and RTC flags stay. */
  function ExecPcb(p: Pcb, pid: nat, current: nat, args: seq<byte>, esp0: int, ebp: int): (r: Pcb)
    requires |p.fds| == MAX_FILES
    ensures r.present && r.pid == pid && r.args == args && r.esp0 == esp0 && r.ebp == r.eebp == ebp
    ensures r.parent.None? <==> pid <= 2
    ensures r.fds == ExecFds(p.fds) && r.ss0 == p.ss0 && r.vidmap == p.vidmap && r.rtc == p.rtc
  {
    p.(fds := ExecFds(p.fds), parent := if pid > 2 then Some(current) else None, present := true,
       pid := pid, esp0 := esp0, ebp := ebp, eebp := ebp, args := args)
  }

  // ---------------------------------------------------------------------
  // Descriptor operations

  /** The operations open binds for a file type: 0 the RTC, 1 the
      directory, 2 a regular file; any other type keeps what the descriptor
      had. */
  function OpsForType(fileType: u32, before: Ops): Ops
  {
    if fileType == 0 then RtcOps else if fileType == 1 then DirOps else if fileType == 2 then FileOps else before
  }

  /** What the open of an operations table returns for filename: the
      terminal and RTC opens always succeed, the directory and file opens
      when the name resolves, and the null operations never. NoOps, the
      NULL table of a block never set up, is taken to fail as well. */
  ghost function DeviceOpen(img: Image, ops: Ops, filename: Option<seq<byte>>): int
  {
    match ops
    case NoOps => -1
    case StdinOps => TerminalOpen(filename)
    case StdoutOps => TerminalOpen(filename)
    case NullOps => NullOpen(filename)
    case RtcOps => RtcOpen(filename)
    case DirOps => if filename.Some? && Lookup(img, filename.value).Some? then 0 else -1
    case FileOps => if filename.Some? && Lookup(img, filename.value).Some? then 0 else -1
  }

  /** What the close of an operations table returns. */
  function DeviceClose(ops: Ops, fd: int): int
  {
    match ops
    case NoOps => -1
    case StdinOps => TerminalClose(fd)
    case StdoutOps => TerminalClose(fd)
    case NullOps => NullClose(fd)
    case RtcOps => RtcClose(fd)
    case DirOps => DirClose(fd)
    case FileOps => FileClose(fd)
  }

  /** For a name that resolves, a device open fails exactly for the null
      operations (or a NULL table); close fails exactly for those too. */
  lemma DeviceResults(img: Image, ops: Ops, name: seq<byte>, fd: int)
    requires Lookup(img, name).Some?
    ensures DeviceOpen(img, ops, Some(name)) == (if ops == NullOps || ops == NoOps then -1 else 0)
    ensures DeviceClose(ops, fd) == (if ops == NullOps || ops == NoOps then -1 else 0)
  {
  }

  /** The lowest descriptor from i on (i >= 2) whose flags are 0. */
  function LowestClosedFrom(fds: seq<FileDescriptor>, i: nat): (r: Option<nat>)
    requires |fds| == MAX_FILES && 2 <= i <= MAX_FILES
    ensures r.Some? ==> i <= r.value < MAX_FILES && fds[r.value].flags == 0 &&
                        forall k | i <= k < r.value :: fds[k].flags != 0
    ensures r.None? ==> forall k | i <= k < MAX_FILES :: fds[k].flags != 0
    decreases MAX_FILES - i
  {
    if i == MAX_FILES then None
    else if fds[i].flags == 0 then Some(i)
    else LowestClosedFrom(fds, i + 1)
  }

  function LowestClosed(fds: seq<FileDescriptor>): Option<nat>
    requires |fds| == MAX_FILES
  {
    LowestClosedFrom(fds, 2)
  }

  /** Closing a descriptor when all below it are open makes it the one the
      next open takes. */
  lemma ClosedDescriptorReused(fds: seq<FileDescriptor>, fd: nat)
    requires |fds| == MAX_FILES && 2 <= fd < MAX_FILES
    requires forall k | 2 <= k < fd :: fds[k].flags != 0
    ensures LowestClosed(fds[fd := fds[fd].(flags := 0)]) == Some(fd)
  {
  }

  /** open's result as written: the descriptor, or 0 when the device's
      open failed. */
  function OpenResultAsWritten(fd: nat, devResult: int): (r: int)
    requires 2 <= fd
    ensures devResult == 0 <==> r >= 2
    ensures devResult != 0 ==> r == 0
  {
    if devResult != 0 then 0 else fd
  }

  /** open's result as intended: the descriptor, or -1 when the device's
      open failed. */
  function OpenResult(fd: nat, devResult: int): (r: int)
    requires 2 <= fd
    ensures devResult == 0 <==> r >= 2
    ensures devResult == 0 ==> r == fd
  {
    if devResult != 0 then -1 else fd
  }

  /** A name whose directory entry has a type other than 0, 1 or 2, opened
      onto a descriptor still bound to the null operations, is refused by
      null_open; as written open then returns 0, stdin's descriptor, which
      the caller cannot tell from success. Descriptors 2..7 are the only
      ones open hands out, so the intended result is -1. */
  lemma FailedOpenReturnsStdin(img: Image, name: seq<byte>, fd: nat, fileType: u32)
    requires 2 <= fd < MAX_FILES && fileType > 2
    ensures DeviceOpen(img, OpsForType(fileType, NullOps), Some(name)) == -1
    ensures OpenResultAsWritten(fd, DeviceOpen(img, OpsForType(fileType, NullOps), Some(name))) == 0
    ensures OpenResult(fd, DeviceOpen(img, OpsForType(fileType, NullOps), Some(name))) == -1
  {
  }

  /** The descriptor guard of read and write, and the stricter one of close
      (which never closes stdin or stdout). */
  predicate UsableFd(fds: seq<FileDescriptor>, fd: int)
    requires |fds| == MAX_FILES
  {
    0 <= fd < MAX_FILES && fds[fd].flags != 0
  }

  predicate ClosableFd(fds: seq<FileDescriptor>, fd: int)
    requires |fds| == MAX_FILES
  {
    2 <= fd < MAX_FILES && fds[fd].flags != 0
  }

  /** read adds the handler's result to the position as a uint32_t, so a
      failing read (-1) moves the position back by one. */
  function AdvancedPosition(position: u32, result: int): (p: u32)
    ensures result >= 0 && position + result < TWO_32 ==> p == position + result
    ensures result == -1 && position > 0 ==> p == position - 1
  {
    Wrap32(position + Wrap32(result))
  }

  /** The set_handler, sigreturn and null_* stubs. */
  function SetHandler(signum: int, handlerAddress: nat): int { -1 }
  function Sigreturn(): int { -1 }
  function NullRead(fd: int, nbytes: int): int { -1 }
  function NullWrite(fd: int, nbytes: int): int { -1 }
  function NullOpen(filename: Option<seq<byte>>): int { -1 }
  function NullClose(fd: int): int { -1 }

  /** Every stub fails whatever its arguments. */
  lemma StubsFail(signum: int, handlerAddress: nat, fd: int, nbytes: int, filename: Option<seq<byte>>)
    ensures SetHandler(signum, handlerAddress) == -1 && Sigreturn() == -1
    ensures NullRead(fd, nbytes) == -1 && NullWrite(fd, nbytes) == -1
    ensures NullOpen(filename) == -1 && NullClose(fd) == -1
  {
  }

  /** The length of the argument string: up to its first NUL. */
  function ArgLength(args: seq<byte>): (n: nat)
    ensures n <= |args|
    ensures forall j | 0 <= j < n :: args[j] != 0
    ensures n < |args| ==> args[n] == 0
  {
    ArgLengthFrom(args, 0)
  }

  function ArgLengthFrom(args: seq<byte>, i: nat): (n: nat)
    requires i <= |args|
    ensures i <= n <= |args|
    ensures forall j | i <= j < n :: args[j] != 0
    ensures n < |args| ==> args[n] == 0
    decreases |args| - i
  {
    if i == |args| || args[i] == 0 then i else ArgLengthFrom(args, i + 1)
  }

  /** A descriptor call's return value and the descriptor table after it. */
  datatype FdOutcome = FdOutcome(result: int, fds: seq<FileDescriptor>)

  /** open(filename) on the table fds: -1 for a NULL or unknown name or a
      full table; otherwise the lowest closed descriptor from 2 on is opened
      at position 0 on the entry's inode with the operations of its type,
      and closed again if the device refuses (open then gives 0, as
      written; OpenResult is the intended -1). */
  ghost function OpenOutcome(img: Image, fds: seq<FileDescriptor>, filename: Option<seq<byte>>): FdOutcome
    requires |fds| == MAX_FILES
  {
    if filename.None? || Lookup(img, filename.value).None? then FdOutcome(-1, fds)
    else OpenEntry(img, fds, DentryAt(img, Lookup(img, filename.value).value), filename)
  }

  /** open once the name has resolved to the entry d. */
  ghost function OpenEntry(img: Image, fds: seq<FileDescriptor>, d: Dentry, filename: Option<seq<byte>>): FdOutcome
    requires |fds| == MAX_FILES
  {
    if LowestClosed(fds).None? then FdOutcome(-1, fds)
    else
      var i := LowestClosed(fds).value;
      var e := fds[i].(flags := 1, inode := d.inode, position := 0, ops := OpsForType(d.fileType, fds[i].ops));
      var res := DeviceOpen(img, e.ops, filename);
      FdOutcome(OpenResultAsWritten(i, res), fds[i := if res == 0 then e else e.(flags := 0)])
  }

  /** open gives -1 exactly when the name does not resolve or descriptors
      2..7 are all open. Otherwise it takes the lowest closed one: when the
      device accepts, open returns it (so at least 2), open on the entry's
      inode at position 0; when the device refuses, the descriptor is
      closed again and open returns 0, stdin's number. Only that
      descriptor can change, and a result below 2 leaves every flag as it
      was. */
  lemma OpenMeaning(img: Image, fds: seq<FileDescriptor>, filename: Option<seq<byte>>)
    requires |fds| == MAX_FILES
    ensures var o := OpenOutcome(img, fds, filename);
      |o.fds| == MAX_FILES &&
      (o.result == -1 <==> filename.None? || Lookup(img, filename.value).None? || LowestClosed(fds).None?) &&
      (o.result != -1 ==>
         (o.result >= 2 <==> DeviceOpen(img, o.fds[LowestClosed(fds).value].ops, filename) == 0) &&
         (o.result < 2 ==> o.result == 0) &&
         o.fds[LowestClosed(fds).value].position == 0 &&
         o.fds[LowestClosed(fds).value].inode == DentryAt(img, Lookup(img, filename.value).value).inode) &&
      (o.result >= 2 ==> o.result == LowestClosed(fds).value && o.result < MAX_FILES && o.fds[o.result].flags == 1) &&
      (forall k | 0 <= k < MAX_FILES && (LowestClosed(fds).None? || k != LowestClosed(fds).value) :: o.fds[k] == fds[k]) &&
      (forall k | 0 <= k < MAX_FILES && o.result < 2 :: o.fds[k].flags == fds[k].flags)
  {
  }

  /** close(fd): -1 with nothing changed unless 2 <= fd < 8 and fd is open;
      otherwise fd is closed and the device's close result returned. */
  function CloseOutcome(fds: seq<FileDescriptor>, fd: int): FdOutcome
    requires |fds| == MAX_FILES
  {
    if !ClosableFd(fds, fd) then FdOutcome(-1, fds)
    else FdOutcome(DeviceClose(fds[fd].ops, fd), fds[fd := fds[fd].(flags := 0)])
  }

  /** Closing an open descriptor makes the next open take it, provided the
      ones below it stay open; stdin and stdout are never closed. */
  lemma CloseThenOpen(img: Image, fds: seq<FileDescriptor>, fd: int, name: seq<byte>)
    requires |fds| == MAX_FILES && ClosableFd(fds, fd)
    requires forall k | 2 <= k < fd :: fds[k].flags != 0
    requires Lookup(img, name).Some?
    ensures CloseOutcome(fds, fd).fds[fd].flags == 0
    ensures LowestClosed(CloseOutcome(fds, fd).fds) == Some(fd)
    ensures CloseOutcome(fds, 0).result == CloseOutcome(fds, 1).result == -1
    ensures CloseOutcome(fds, 0).fds == CloseOutcome(fds, 1).fds == fds
  {
    ClosedDescriptorReused(fds, fd);
  }

  /** read(fd) given the handler's 32-bit result: -1 with nothing changed
      for a bad or closed descriptor; otherwise the handler's result, added
      to the position as a uint32_t. */
  function ReadCall(fds: seq<FileDescriptor>, fd: int, handlerResult: int): FdOutcome
    requires |fds| == MAX_FILES
  {
    if !UsableFd(fds, fd) then FdOutcome(-1, fds)
    else FdOutcome(handlerResult, fds[fd := fds[fd].(position := AdvancedPosition(fds[fd].position, handlerResult))])
  }

  /** write(fd) given the handler's result: -1 for a bad or closed
      descriptor, otherwise the handler's result. */
  function WriteResult(fds: seq<FileDescriptor>, fd: int, handlerResult: int): int
    requires |fds| == MAX_FILES
  {
    if !UsableFd(fds, fd) then -1 else handlerResult
  }

  /** read and write accept exactly the same descriptors, 0..7 and open;
      only read moves a position, only on the descriptor read, and a failed
      read (-1) moves it back by one. */
  lemma ReadWriteGuards(fds: seq<FileDescriptor>, fd: int, handlerResult: int)
    requires |fds| == MAX_FILES && -0x8000_0000 <= handlerResult < 0x8000_0000
    ensures (ReadCall(fds, fd, handlerResult).result == -1 && WriteResult(fds, fd, handlerResult) == -1) <==>
            (!UsableFd(fds, fd) || handlerResult == -1)
    ensures |ReadCall(fds, fd, handlerResult).fds| == MAX_FILES
    ensures forall k | 0 <= k < MAX_FILES && k != fd ::
      ReadCall(fds, fd, handlerResult).fds[k] == fds[k]
    ensures forall k | 0 <= k < MAX_FILES ::
      ReadCall(fds, fd, handlerResult).fds[k] == fds[k].(position := ReadCall(fds, fd, handlerResult).fds[k].position)
    ensures UsableFd(fds, fd) && handlerResult == -1 && fds[fd].position > 0 ==>
      ReadCall(fds, fd, handlerResult).fds[fd].position == fds[fd].position - 1
  {
  }

  /** The bytes getargs stores: the argument string and its NUL, or only
      nbytes bytes of it when it does not fit. */
  function ArgsWritten(args: seq<byte>, nbytes: int): (w: seq<byte>)
    ensures |w| <= |args| + 1
  {
    var len := ArgLength(args);
    if 0 < nbytes <= len then args[..nbytes] else args[..len] + [0]
  }

  /** What getargs returns: 0 only when there is a buffer, an argument
      string, and room for its terminator. */
  function GetArgsResult(bufGiven: bool, args: seq<byte>, nbytes: int): int
  {
    if !bufGiven || nbytes == 0 then -1
    else if ArgLength(args) == 0 then -1
    else if 0 < nbytes <= ArgLength(args) then -1
    else 0
  }

  /** On success the buffer holds the arguments as a C string: the same
      bytes up to the first NUL, then the NUL. A truncated copy has no NUL
      at all, and an empty argument string leaves a lone NUL. */
  lemma GetArgsMeaning(args: seq<byte>, nbytes: int)
    ensures GetArgsResult(true, args, nbytes) == 0 ==>
      ArgLength(ArgsWritten(args, nbytes)) == ArgLength(args) &&
      ArgsWritten(args, nbytes) == args[..ArgLength(args)] + [0]
    ensures 0 < nbytes <= ArgLength(args) ==>
      |ArgsWritten(args, nbytes)| == nbytes && forall j | 0 <= j < nbytes :: ArgsWritten(args, nbytes)[j] != 0
    ensures ArgLength(args) == 0 ==> ArgsWritten(args, nbytes) == [0] && GetArgsResult(true, args, nbytes) == -1
  {
    var w := ArgsWritten(args, nbytes);
    var len := ArgLength(args);
    if GetArgsResult(true, args, nbytes) == 0 {
      ArgLengthOfTerminated(args[..len]);
    }
  }

  /** A string with no NUL followed by one has its own length. */
  lemma ArgLengthOfTerminated(s: seq<byte>)
    requires forall j | 0 <= j < |s| :: s[j] != 0
    ensures ArgLength(s + [0]) == |s|
  {
    var t := s + [0];
    assert forall j | 0 <= j < |s| :: t[j] == s[j];
    assert t[|s|] == 0;
  }

  /** The frame behind virtual video memory for terminal or process index
      i: the screen itself when i's output is displayed, else the backup
      page 0xB8 + i + 2 (a 20-bit field). The scheduler indexes by
      terminal, vidmap by pid. */
  function VideoFrame(displayed: bool, i: nat): (f: nat)
    ensures displayed ==> f == VIDEO_MEMORY_PTE
    ensures !displayed && i < 3 ==> f == VIDEO_MEMORY_PTE + 2 + i && VIDEO_MEMORY_PTE + 2 <= f <= VIDEO_MEMORY_PTE + 4
  {
    if displayed then VIDEO_MEMORY_PTE else (VIDEO_MEMORY_PTE + i + 2) % 0x10_0000
  }

  /** vidmap's address check: the pointer must lie in the user program's
      4 MiB page. */
  predicate VidmapAccepts(screenStart: u32)
  {
    screenStart != 0 && screenStart / 0x40_0000 == USER_ENTRY
  }

  lemma VidmapAcceptsMeaning(screenStart: u32)
    ensures VidmapAccepts(screenStart) <==> 0x800_0000 <= screenStart < 0x840_0000
    ensures VidmapAccepts(VIDMAP_ADDR - 0x2600_0000)
  {
  }

  /** The page base a PDE bitfield receives for 2 + pid: ten bits. */
  function PageBase(pid: nat): (b: nat)
    ensures b < 0x400
    ensures pid < 0x3FE ==> b == 2 + pid
  {
    (2 + pid) % 0x400
  }

  /** The NUL-terminated command halt re-executes. */
  const SHELL: seq<byte> := [0x73, 0x68, 0x65, 0x6C, 0x6C]

  /** A program image copied into the user page whose base is base. */
  datatype Load = Load(inode: u32, base: nat)

  /** Everything the kernel keeps besides the process control blocks:
      terminal slots, the running pid, the scheduled and displayed
      terminals, the TSS stack fields, the exception flag, the interrupt
      flag and the program images loaded so far. */
  datatype Sched = Sched(terms: seq<TermSlot>, currentPid: nat, currentTerminal: nat, activeTerminal: nat,
                         tssEsp0: int, tssSs0: int, exceptionOccurred: bool, interrupts: bool, loads: seq<Load>)

  /** The fields of a control block the code relies on being in range. */
  predicate WellFormed(p: Pcb)
  {
    |p.fds| == MAX_FILES && |p.args| == READBUF_SIZE &&
    (p.pid >= 3 ==> p.parent.Some? && p.parent.value < NUM_PCB)
  }

  /** Every block well formed; a block that halt treats as a child (pid
      field 3 or more) has a root block as parent; every terminal's pid is
      -1 or a block's. */
  predicate Consistent(pcbs: seq<Pcb>, terms: seq<TermSlot>)
  {
    |pcbs| == NUM_PCB && |terms| == NUM_TERMINAL &&
    (forall i | 0 <= i < NUM_PCB :: WellFormed(pcbs[i])) &&
    (forall i | 0 <= i < NUM_PCB && pcbs[i].pid >= 3 :: pcbs[pcbs[i].parent.value].pid < 3) &&
    (forall i | 0 <= i < NUM_TERMINAL :: terms[i].pid == -1 || 0 <= terms[i].pid < NUM_PCB)
  }

  /** Replacing one block keeps the kernel consistent when the new block
      is well formed and is a root block, or keeps its pid and parent. */
  lemma ConsistentSetPcb(pcbs: seq<Pcb>, terms: seq<TermSlot>, i: nat, p: Pcb)
    requires Consistent(pcbs, terms) && i < NUM_PCB && WellFormed(p)
    requires p.pid < 3 || (p.pid == pcbs[i].pid && p.parent == pcbs[i].parent)
    ensures Consistent(pcbs[i := p], terms)
  {
  }

  /** Replacing one terminal slot keeps the kernel consistent when its pid
      is -1 or a block's. */
  lemma ConsistentSetTerm(pcbs: seq<Pcb>, terms: seq<TermSlot>, t: nat, slot: TermSlot)
    requires Consistent(pcbs, terms) && t < NUM_TERMINAL
    requires slot.pid == -1 || 0 <= slot.pid < NUM_PCB
    ensures Consistent(pcbs, terms[t := slot])
  {
  }

  class Kernel {
    const img: Image
    const tables: PageTables
    const kstackStart: int
    const kstackSize: int
    const kernelDs: int
    var pcbs: seq<Pcb>
    var terms: seq<TermSlot>
    /** The pid whose kernel stack is in use (what current_pcb finds). */
    var currentPid: nat
    var currentTerminal: nat
    var activeTerminal: nat
    var tssEsp0: int
    var tssSs0: int
    var exceptionOccurred: bool
    var interrupts: bool
    var loads: seq<Load>

    ghost predicate Valid()
      reads this, tables, tables.directory
    {
      tables.Valid() && tables.directory[USER_ENTRY].frame < 0x10_0000 &&
      Consistent(pcbs, terms) && currentPid < NUM_PCB &&
      currentTerminal < NUM_TERMINAL && activeTerminal < NUM_TERMINAL
    }

    ghost function State(): Sched
      reads this
    {
      Sched(terms, currentPid, currentTerminal, activeTerminal, tssEsp0, tssSs0, exceptionOccurred, interrupts, loads)
    }

    constructor (img: Image, tables: PageTables, kstackStart: int, kstackSize: int, kernelDs: int,
                 pcbs: seq<Pcb>, terms: seq<TermSlot>)
      requires tables.Valid() && tables.directory[USER_ENTRY].frame < 0x10_0000
      requires Consistent(pcbs, terms)
      ensures Valid()
      ensures this.img == img && this.tables == tables && this.kstackStart == kstackStart &&
              this.kstackSize == kstackSize && this.kernelDs == kernelDs
      ensures this.pcbs == pcbs && this.terms == terms
      ensures State() == Sched(terms, 0, 0, 0, 0, 0, false, false, [])
    {
      this.img := img;
      this.tables := tables;
      this.kstackStart := kstackStart;
      this.kstackSize := kstackSize;
      this.kernelDs := kernelDs;
      this.pcbs := pcbs;
      this.terms := terms;
      currentPid := 0;
      currentTerminal := 0;
      activeTerminal := 0;
      tssEsp0 := 0;
      tssSs0 := 0;
      exceptionOccurred := false;
      interrupts := false;
      loads := [];
    }

    /** The kernel stack top of pid. */
    function StackTop(pid: nat): int
    {
      kstackStart - kstackSize * pid
    }

    /** execute(command). staleMagic and staleEntry are what the
        uninitialised magic_check and entry variables hold before read_data
        fills them; ebp is the frame pointer execute saves. Refused
        commands change nothing but the interrupt flag (left cleared). An
        admitted one takes the lowest free pid, maps its user page, loads
        its image, builds its control block, points the TSS and the current
        terminal at it and enters it at the word read from byte 24. */
    method Execute(command: seq<byte>, staleMagic: u32, staleEntry: u32, ebp: int) returns (t: Transfer)
      requires Valid()
      modifies this, tables.directory
      ensures Valid()
      ensures Executed(command, staleMagic, staleEntry, ebp, t, old(pcbs), old(State()), old(tables.directory[..]))
    {
      interrupts := false;
      var admitted := CheckCommand(img, command, staleMagic, pcbs);
      if admitted.None? {
        return Fail;
      }
      t := Install(admitted.value, staleEntry, ebp);
    }

    /** What execute(command) leaves, starting from the blocks oldPcbs,
        the scheduler state oldState and the page directory oldDir: a
        refusal exactly when the admission rule refuses, with only
        interrupts switched off, or else the admitted program installed.
        The directory changes at most in the user program's entry. */
    ghost predicate Executed(command: seq<byte>, staleMagic: u32, staleEntry: u32, ebp: int, t: Transfer,
                             oldPcbs: seq<Pcb>, oldState: Sched, oldDir: seq<Entry>)
      reads this, tables.directory
      requires Consistent(oldPcbs, oldState.terms) && oldState.currentTerminal < NUM_TERMINAL
      requires tables.directory.Length == ENTRY_COUNT && |oldDir| == ENTRY_COUNT && oldDir[USER_ENTRY].frame < 0x10_0000
    {
      (t.Fail? || t.EnterUser?) &&
      (t.Fail? <==> Admit(img, command, staleMagic, oldPcbs).None?) &&
      (t.Fail? ==> pcbs == oldPcbs && State() == oldState.(interrupts := false) && tables.directory[..] == oldDir) &&
      (t.EnterUser? ==> Installed(Admit(img, command, staleMagic, oldPcbs).value, staleEntry, ebp, t,
                                  oldPcbs, oldState, oldDir[USER_ENTRY])) &&
      (forall j | 0 <= j < ENTRY_COUNT && j != USER_ENTRY :: tables.directory[j] == oldDir[j])
    }

    /** What halt(status) leaves, starting from oldPcbs, oldState and
        oldDir: the running block reclaimed and the displayed terminal's
        halt flag cleared; then a root shell (pid field below 3) has "shell"
        executed in its place, and any other process returns to its parent
        with the user page, TSS and terminal given back to the parent. */
    ghost predicate Halted(status: byte, staleMagic: u32, staleEntry: u32, ebp: int, t: Transfer,
                           oldPcbs: seq<Pcb>, oldState: Sched, oldDir: seq<Entry>)
      reads this, tables.directory
      requires Consistent(oldPcbs, oldState.terms) && oldState.currentPid < NUM_PCB
      requires oldState.currentTerminal < NUM_TERMINAL && oldState.activeTerminal < NUM_TERMINAL
      requires tables.directory.Length == ENTRY_COUNT && |oldDir| == ENTRY_COUNT && oldDir[USER_ENTRY].frame < 0x10_0000
    {
      var p := oldState.currentPid;
      var reclaimed := oldPcbs[p := Reclaimed(oldPcbs[p])];
      var cleared := HaltFlagCleared(oldState);
      ConsistentSetPcb(oldPcbs, oldState.terms, p, Reclaimed(oldPcbs[p]));
      ConsistentSetTerm(reclaimed, oldState.terms, oldState.activeTerminal,
                        oldState.terms[oldState.activeTerminal].(halt := false));
      if oldPcbs[p].pid < 3 then
        Executed(SHELL, staleMagic, staleEntry, ebp, t, reclaimed, cleared, oldDir)
      else
        var q := oldPcbs[p].parent.value;
        t == ReturnToParent(q, HaltValue(status, oldState.exceptionOccurred), oldPcbs[p].eebp) &&
        pcbs == reclaimed &&
        State() == cleared.(terms := cleared.terms[cleared.currentTerminal := cleared.terms[cleared.currentTerminal].(pid := oldPcbs[q].pid)],
                            currentPid := q, tssEsp0 := oldPcbs[q].esp0, tssSs0 := kernelDs,
                            exceptionOccurred := false, interrupts := true) &&
        tables.directory[USER_ENTRY] == WithPageBase(oldDir[USER_ENTRY], PageBase(oldPcbs[q].pid)) &&
        (forall j | 0 <= j < ENTRY_COUNT && j != USER_ENTRY :: tables.directory[j] == oldDir[j])
    }

    /** The state after execute admits a: the transfer into the program,
        its control block, the scheduler fields and the user page entry. */
    ghost predicate Installed(a: Admission, staleEntry: u32, ebp: int, t: Transfer,
                              oldPcbs: seq<Pcb>, oldState: Sched, oldUserPde: Entry)
      reads this, tables.directory
      requires |oldPcbs| == NUM_PCB && a.pid < NUM_PCB && |oldPcbs[a.pid].fds| == MAX_FILES
      requires oldState.currentTerminal < |oldState.terms|
      requires tables.directory.Length == ENTRY_COUNT && oldUserPde.frame < 0x10_0000
    {
      var top := StackTop(a.pid);
      t == EnterUser(a.pid, LoadedWord(img, a.inode, ENTRY_OFFSET, staleEntry)) &&
      pcbs == oldPcbs[a.pid := ExecPcb(oldPcbs[a.pid], a.pid, oldState.currentPid, a.args, top, ebp)] &&
      State() == oldState.(terms := oldState.terms[oldState.currentTerminal := oldState.terms[oldState.currentTerminal].(pid := a.pid)],
                           currentPid := a.pid, tssEsp0 := top, tssSs0 := kernelDs, interrupts := true,
                           loads := oldState.loads + [Load(a.inode, PageBase(a.pid))]) &&
      tables.directory[USER_ENTRY] ==
        WithPageBase(oldUserPde.(present := true, user := true, readWrite := true), PageBase(a.pid))
    }

    /** execute past its checks: paging, image load, control block, TSS,
        terminal and the jump to user mode. */
    method Install(a: Admission, staleEntry: u32, ebp: int) returns (t: Transfer)
      requires Valid() && a.pid < MAX_TASKS && |a.args| == READBUF_SIZE
      modifies this, tables.directory
      ensures Valid()
      ensures Installed(a, staleEntry, ebp, t, old(pcbs), old(State()), old(tables.directory[USER_ENTRY]))
      ensures forall j | 0 <= j < ENTRY_COUNT && j != USER_ENTRY :: tables.directory[j] == old(tables.directory[j])
    {
      var pid := a.pid;
      tables.MapUserPage(PageBase(pid));
      loads := loads + [Load(a.inode, PageBase(pid))];
      var top := StackTop(pid);
      ConsistentSetPcb(pcbs, terms, pid, ExecPcb(pcbs[pid], pid, currentPid, a.args, top, ebp));
      pcbs := pcbs[pid := ExecPcb(pcbs[pid], pid, currentPid, a.args, top, ebp)];
      var _, eip := ReadWord(img, a.inode, ENTRY_OFFSET as u32, staleEntry);
      tssEsp0 := top;
      tssSs0 := kernelDs;
      ConsistentSetTerm(pcbs, terms, currentTerminal, terms[currentTerminal].(pid := pid));
      terms := terms[currentTerminal := terms[currentTerminal].(pid := pid)];
      currentPid := pid;
      interrupts := true;
      t := EnterUser(pid, eip);
    }

    /** halt's first steps: interrupts off, the running block reclaimed and
        the displayed terminal's halt flag cleared. */
    method Reclaim()
      requires Valid()
      modifies this
      ensures Valid()
      ensures pcbs == old(pcbs)[old(currentPid) := Reclaimed(old(pcbs[currentPid]))]
      ensures State() == HaltFlagCleared(old(State()))
    {
      interrupts := false;
      ConsistentSetPcb(pcbs, terms, currentPid, Reclaimed(pcbs[currentPid]));
      pcbs := pcbs[currentPid := Reclaimed(pcbs[currentPid])];
      ConsistentSetTerm(pcbs, terms, activeTerminal, terms[activeTerminal].(halt := false));
      terms := terms[activeTerminal := terms[activeTerminal].(halt := false)];
    }

    /** halt's return to the parent q: the current terminal, the user page
        and the TSS go back to q, and q's execute receives the status (or
        0x100 after an exception, whose flag is cleared) on the frame the
        child's execute saved. */
    method ReturnTo(q: nat, status: byte) returns (t: Transfer)
      requires Valid() && q < NUM_PCB && pcbs[q].pid < NUM_PCB
      modifies this, tables.directory
      ensures Valid()
      ensures t == ReturnToParent(q, HaltValue(status, old(exceptionOccurred)), old(pcbs[currentPid]).eebp)
      ensures pcbs == old(pcbs)
      ensures State() == old(State()).(terms := old(terms)[old(currentTerminal) := old(terms[currentTerminal]).(pid := old(pcbs[q]).pid)],
                                       currentPid := q, tssEsp0 := old(pcbs[q]).esp0, tssSs0 := kernelDs,
                                       exceptionOccurred := false, interrupts := true)
      ensures tables.directory[USER_ENTRY] == WithPageBase(old(tables.directory[USER_ENTRY]), PageBase(old(pcbs[q]).pid))
      ensures forall j | 0 <= j < ENTRY_COUNT && j != USER_ENTRY :: tables.directory[j] == old(tables.directory[j])
    {
      ConsistentSetTerm(pcbs, terms, currentTerminal, terms[currentTerminal].(pid := pcbs[q].pid));
      terms := terms[currentTerminal := terms[currentTerminal].(pid := pcbs[q].pid)];
      tables.SetUserPageBase(PageBase(pcbs[q].pid));
      tssEsp0 := pcbs[q].esp0;
      tssSs0 := kernelDs;
      var value := HaltValue(status, exceptionOccurred);
      exceptionOccurred := false;
      interrupts := true;
      t := ReturnToParent(q, value, pcbs[currentPid].eebp);
      currentPid := q;
    }

    /** halt(status). A root shell (pid field below 3) is reclaimed and
        "shell" executed again in its place; any other process is reclaimed
        and control returns to its parent's execute. */
    method Halt(status: byte, staleMagic: u32, staleEntry: u32, ebp: int) returns (t: Transfer)
      requires Valid()
      modifies this, tables.directory
      ensures Valid()
      ensures Halted(status, staleMagic, staleEntry, ebp, t, old(pcbs), old(State()), old(tables.directory[..]))
    {
      Reclaim();
      var p := pcbs[currentPid];
      if p.pid < 3 {
        t := Execute(SHELL, staleMagic, staleEntry, ebp);
      } else {
        t := ReturnTo(p.parent.value, status);
      }
    }

    /** open(filename). */
    method Open(filename: Option<seq<byte>>) returns (r: int)
      requires Valid()
      modifies this
      ensures Valid()
      ensures FdOutcome(r, pcbs[old(currentPid)].fds) == OpenOutcome(img, old(pcbs[currentPid].fds), filename)
      ensures pcbs == old(pcbs)[old(currentPid) := old(pcbs[currentPid]).(fds := pcbs[old(currentPid)].fds)]
      ensures State() == old(State())
    {
      var fds := pcbs[currentPid].fds;
      var o := OpenDescriptor(img, fds, filename);
      pcbs := pcbs[currentPid := pcbs[currentPid].(fds := o.fds)];
      r := o.result;
    }

    /** close(fd). */
    method Close(fd: int) returns (r: int)
      requires Valid()
      modifies this
      ensures Valid()
      ensures FdOutcome(r, pcbs[old(currentPid)].fds) == CloseOutcome(old(pcbs[currentPid].fds), fd)
      ensures pcbs == old(pcbs)[old(currentPid) := old(pcbs[currentPid]).(fds := pcbs[old(currentPid)].fds)]
      ensures State() == old(State())
    {
      var fds := pcbs[currentPid].fds;
      if fd < 2 || fd >= MAX_FILES as int || fds[fd].flags == 0 {
        return -1;
      }
      pcbs := pcbs[currentPid := pcbs[currentPid].(fds := fds[fd := fds[fd].(flags := 0)])];
      r := DeviceClose(fds[fd].ops, fd);
    }

    /** read(fd, buf, nbytes); the handler's own effect is left to the
        device and only its 32-bit result, handlerResult, is taken. */
    method Read(fd: int, handlerResult: int) returns (r: int)
      requires Valid() && -0x8000_0000 <= handlerResult < 0x8000_0000
      modifies this
      ensures Valid()
      ensures FdOutcome(r, pcbs[old(currentPid)].fds) == ReadCall(old(pcbs[currentPid].fds), fd, handlerResult)
      ensures pcbs == old(pcbs)[old(currentPid) := old(pcbs[currentPid]).(fds := pcbs[old(currentPid)].fds)]
      ensures State() == old(State())
    {
      var fds := pcbs[currentPid].fds;
      if fd < 0 || fd >= MAX_FILES as int || fds[fd].flags == 0 {
        return -1;
      }
      var result := Wrap32(handlerResult);
      pcbs := pcbs[currentPid := pcbs[currentPid].(fds := fds[fd := fds[fd].(position := Wrap32(fds[fd].position + result))])];
      r := AsInt32(result);
    }

    /** write(fd, buf, nbytes), given the handler's result. */
    function Write(fd: int, handlerResult: int): (r: int)
      requires Valid()
      reads this, tables, tables.directory
      ensures !UsableFd(pcbs[currentPid].fds, fd) ==> r == -1
      ensures UsableFd(pcbs[currentPid].fds, fd) ==> r == handlerResult
    {
      WriteResult(pcbs[currentPid].fds, fd, handlerResult)
    }

    /** getargs(buf, nbytes): buf None is the NULL pointer; the caller's
        buffer must hold what is written. */
    method GetArgs(buf: Option<array<byte>>, nbytes: int) returns (r: int)
      requires Valid()
      requires buf.Some? && nbytes != 0 ==> buf.value.Length >= |ArgsWritten(pcbs[currentPid].args, nbytes)|
      modifies if buf.Some? then {buf.value} else {}
      ensures r == GetArgsResult(buf.Some?, pcbs[currentPid].args, nbytes)
      ensures buf.Some? && nbytes != 0 ==>
        var w := ArgsWritten(pcbs[currentPid].args, nbytes);
        buf.value[..|w|] == w && buf.value[|w|..] == old(buf.value[|w|..])
      ensures buf.Some? && nbytes == 0 ==> buf.value[..] == old(buf.value[..])
    {
      if buf.None? || nbytes == 0 {
        return -1;
      }
      r := CopyArgs(pcbs[currentPid].args, buf.value, nbytes);
    }

    /** vidmap(screen_start): stored is what is written to *screen_start. */
    method Vidmap(screenStart: u32) returns (r: int, stored: Option<u32>)
      requires Valid()
      modifies this, tables.vidmem
      ensures Valid()
      ensures !VidmapAccepts(screenStart) ==>
        r == -1 && stored.None? && pcbs == old(pcbs) && tables.vidmem[..] == old(tables.vidmem[..])
      ensures VidmapAccepts(screenStart) ==>
        r == 0 && stored == Some(VIDMAP_ADDR as u32) &&
        pcbs == old(pcbs)[old(currentPid) := old(pcbs[currentPid]).(vidmap := true)] &&
        tables.vidmem[VIDEO_MEMORY_PTE] == old(tables.vidmem[VIDEO_MEMORY_PTE]).(present := true,
          frame := VideoFrame(old(activeTerminal) == old(currentTerminal), old(pcbs[currentPid]).pid))
      ensures forall j | 0 <= j < ENTRY_COUNT && j != VIDEO_MEMORY_PTE :: tables.vidmem[j] == old(tables.vidmem[j])
      ensures State() == old(State())
    {
      if screenStart == 0 || screenStart / 0x40_0000 != USER_ENTRY as u32 {
        return -1, None;
      }
      pcbs := pcbs[currentPid := pcbs[currentPid].(vidmap := true)];
      tables.MapUserVideo(VideoFrame(activeTerminal == currentTerminal, pcbs[currentPid].pid));
      r, stored := 0, Some(VIDMAP_ADDR as u32);
    }
  }

  /** open's search and device call on a descriptor table. */
  method OpenDescriptor(img: Image, fds: seq<FileDescriptor>, filename: Option<seq<byte>>) returns (o: FdOutcome)
    requires |fds| == MAX_FILES
    ensures o == OpenOutcome(img, fds, filename)
  {
    var dentry := ReadDentryByName(img, filename);
    if dentry.None? {
      return FdOutcome(-1, fds);
    }
    o := OpenSlot(img, fds, dentry.value, filename);
  }

  /** open's search for a closed descriptor and the device call. */
  method OpenSlot(img: Image, fds: seq<FileDescriptor>, d: Dentry, filename: Option<seq<byte>>) returns (o: FdOutcome)
    requires |fds| == MAX_FILES
    ensures o == OpenEntry(img, fds, d, filename)
  {
    var i := 2;
    while i < MAX_FILES
      invariant 2 <= i <= MAX_FILES
      invariant forall k | 2 <= k < i :: fds[k].flags != 0
    {
      if fds[i].flags == 0 {
        break;
      }
      i := i + 1;
    }
    if i == MAX_FILES {
      return FdOutcome(-1, fds);
    }
    var e := fds[i].(flags := 1, inode := d.inode, position := 0, ops := OpsForType(d.fileType, fds[i].ops));
    var res := CallOpen(img, e.ops, filename);
    if res != 0 {
      return FdOutcome(OpenResultAsWritten(i, res), fds[i := e.(flags := 0)]);
    }
    return FdOutcome(i, fds[i := e]);
  }

  /** The call through a descriptor's operations table to its open. */
  method CallOpen(img: Image, ops: Ops, filename: Option<seq<byte>>) returns (res: int)
    ensures res == DeviceOpen(img, ops, filename)
  {
    match ops {
      case NoOps => res := -1;
      case StdinOps => res := TerminalOpen(filename);
      case StdoutOps => res := TerminalOpen(filename);
      case NullOps => res := NullOpen(filename);
      case RtcOps => res := RtcOpen(filename);
      case DirOps => res := DirOpen(img, filename);
      case FileOps => res := FileOpen(img, filename);
    }
  }

  /** getargs's copy loop onto a non-NULL buffer with nbytes != 0. */
  method CopyArgs(args: seq<byte>, buf: array<byte>, nbytes: int) returns (r: int)
    requires nbytes != 0 && buf.Length >= |ArgsWritten(args, nbytes)|
    modifies buf
    ensures r == GetArgsResult(true, args, nbytes)
    ensures var w := ArgsWritten(args, nbytes);
      buf[..|w|] == w && buf[|w|..] == old(buf[|w|..])
  {
    ghost var len := ArgLength(args);
    if CharAt(args, 0) == 0 {
      buf[0] := 0;
      assert ArgsWritten(args, nbytes) == [0];
      return -1;
    }
    var src := 0;
    var n := nbytes;
    while n != 0 && CharAt(args, src) != 0
      invariant 0 <= src <= len
      invariant n == nbytes - src
      invariant nbytes > 0 ==> src <= nbytes
      invariant buf[..src] == args[..src]
      invariant forall j | src <= j < buf.Length :: buf[j] == old(buf[j])
      decreases len - src
    {
      buf[src] := args[src];
      src := src + 1;
      n := n - 1;
    }
    if n == 0 {
      assert buf[..src] == ArgsWritten(args, nbytes);
      return -1;
    }
    buf[src] := 0;
    assert buf[..src + 1] == args[..len] + [0];
    r := 0;
  }

  /** halt's reclaim and halt-flag clearing on the scheduler fields. */
  function HaltFlagCleared(s: Sched): (r: Sched)
    requires s.activeTerminal < |s.terms|
    ensures |r.terms| == |s.terms| && !r.terms[s.activeTerminal].halt && !r.interrupts
    ensures forall i | 0 <= i < |s.terms| && i != s.activeTerminal :: r.terms[i] == s.terms[i]
  {
    s.(terms := s.terms[s.activeTerminal := s.terms[s.activeTerminal].(halt := false)], interrupts := false)
  }
}