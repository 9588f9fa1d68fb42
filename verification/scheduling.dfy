/** The scheduler's boot and switch (scheduling.c): initiate_shells builds
    the three root shells, pids 2, 1 and 0, and enters pid 0;
    context_switch moves the user page and the TSS from the running block
    to another. */
module Scheduling {
  import opened Types
  import opened FileSys
  import opened Paging
  import opened SystemCall

  /** The bytes pushed on a new shell's kernel stack: the iret frame (user
      data segment, user stack, eflags, user code segment, entry point) and
      two return addresses, seven 32-bit words. */
  const BOOT_FRAME_BYTES: nat := 28

  /** What initiate_shells needs before it touches anything: the shell's
      inode and its entry point; None when "shell" does not resolve, its
      first four bytes cannot be read or are not the magic word, or bytes
      24..27 cannot be read. */
  datatype Boot = Boot(inode: u32, eip: u32)

  ghost function BootCheck(img: Image, staleMagic: u32, staleEntry: u32): Option<Boot>
  {
    var found := Lookup(img, SHELL);
    if found.None? then None
    else
      var inode := DentryAt(img, found.value).inode;
      if ReadDataResult(img, inode, 0, MAGIC_SIZE) == -1 || LoadedWord(img, inode, 0, staleMagic) != MAGIC_NUM then None
      else if ReadDataResult(img, inode, ENTRY_OFFSET, 4) == -1 then None
      else Some(Boot(inode, LoadedWord(img, inode, ENTRY_OFFSET, staleEntry)))
  }

  /** The block initiate_shells builds for pid: in use, no parent, its pid,
      the boot descriptor table, kernel stack esp0 in segment ss0, and the
      saved frame pointer at the bottom of the boot frame. */
  function ShellPcb(p: Pcb, pid: nat, esp0: int, ss0: int): (r: Pcb)
    requires |p.fds| == MAX_FILES
    ensures r.present && r.parent.None? && r.pid == pid && r.fds == ShellFds(p.fds)
    ensures r.esp0 == esp0 && r.ss0 == ss0 && r.ebp == esp0 - BOOT_FRAME_BYTES
    ensures r.args == p.args && r.vidmap == p.vidmap && r.rtc == p.rtc && r.eebp == p.eebp
  {
    p.(present := true, parent := None, pid := pid, fds := ShellFds(p.fds), esp0 := esp0, ss0 := ss0,
       ebp := esp0 - BOOT_FRAME_BYTES)
  }

  /** The image loads of the boot loop once it has done the pids above pid:
      one per pid from 2 down, each into the user page of that pid. */
  function BootLoads(inode: u32, pid: int): (r: seq<Load>)
    requires -1 <= pid <= 2
    ensures |r| == 2 - pid
    ensures forall j | 0 <= j < |r| :: r[j] == Load(inode, PageBase(2 - j))
    decreases 2 - pid
  {
    if pid == 2 then [] else BootLoads(inode, pid + 1) + [Load(inode, PageBase(pid + 1))]
  }

  /** The three shells are loaded, in order, into the user pages at 16, 12
      and 8 MiB (bases 4, 3 and 2), one per pid. */
  lemma BootLoadOrder(inode: u32)
    ensures BootLoads(inode, -1) == [Load(inode, 4), Load(inode, 3), Load(inode, 2)]
  {
  }

  /** initiate_shells. Nothing changes if the shell cannot be checked;
      otherwise every block 0..2 becomes a root shell on its own kernel
      stack, the user page ends at pid 0's, the TSS holds pid 0's stack
      and control enters pid 0's shell. The terminals are not touched. */
  method InitiateShells(k: Kernel, staleMagic: u32, staleEntry: u32) returns (t: Transfer)
    requires k.Valid()
    modifies k, k.tables.directory
    ensures k.Valid()
    ensures t.Fail? <==> BootCheck(k.img, staleMagic, staleEntry).None?
    ensures t.Fail? ==> k.pcbs == old(k.pcbs) && k.State() == old(k.State()) &&
                        k.tables.directory[..] == old(k.tables.directory[..])
    ensures t.EnterUser? ==>
      var b := BootCheck(k.img, staleMagic, staleEntry).value;
      t == EnterUser(0, b.eip) &&
      (forall q | 0 <= q < NUM_PCB :: k.pcbs[q] == ShellPcb(old(k.pcbs[q]), q, k.StackTop(q), k.kernelDs)) &&
      k.State() == old(k.State()).(currentPid := 0, tssEsp0 := k.StackTop(0), tssSs0 := k.kernelDs,
                                   loads := old(k.loads) + BootLoads(b.inode, -1)) &&
      k.tables.directory[USER_ENTRY] ==
        WithPageBase(old(k.tables.directory[USER_ENTRY]).(present := true, user := true, readWrite := true), PageBase(0))
    ensures t.Fail? || t.EnterUser?
    ensures forall j | 0 <= j < ENTRY_COUNT && j != USER_ENTRY :: k.tables.directory[j] == old(k.tables.directory[j])
  {
    var b := ShellCheck(k.img, staleMagic, staleEntry);
    if b.None? {
      return Fail;
    }
    var inode := b.value.inode;
    k.tables.SetUserPageFlags();
    BootLoop(k, inode);
    k.tssEsp0 := k.pcbs[0].esp0;
    k.tssSs0 := k.pcbs[0].ss0;
    k.currentPid := 0;
    t := EnterUser(0, b.value.eip);
  }

  /** initiate_shells's checks. */
  method ShellCheck(img: Image, staleMagic: u32, staleEntry: u32) returns (b: Option<Boot>)
    ensures b == BootCheck(img, staleMagic, staleEntry)
  {
    var dentry := ReadDentryByName(img, Some(SHELL));
    if dentry.None? {
      return None;
    }
    var inode := dentry.value.inode;
    var r, magic := ReadWord(img, inode, 0, staleMagic);
    if r == -1 || magic != MAGIC_NUM {
      return None;
    }
    var r2, eip := ReadWord(img, inode, ENTRY_OFFSET as u32, staleEntry);
    if r2 == -1 {
      return None;
    }
    return Some(Boot(inode, eip));
  }

  /** The loop over pids 2, 1, 0: point the user page at the pid's page,
      load the shell there and build the pid's block. */
  method BootLoop(k: Kernel, inode: u32)
    requires k.Valid() && k.tables.directory[USER_ENTRY].frame < 0x10_0000
    modifies k, k.tables.directory
    ensures k.Valid()
    ensures forall q | 0 <= q < NUM_PCB :: k.pcbs[q] == ShellPcb(old(k.pcbs[q]), q, k.StackTop(q), k.kernelDs)
    ensures k.State() == old(k.State()).(loads := old(k.loads) + BootLoads(inode, -1))
    ensures k.tables.directory[USER_ENTRY] == WithPageBase(old(k.tables.directory[USER_ENTRY]), PageBase(0))
    ensures forall j | 0 <= j < ENTRY_COUNT && j != USER_ENTRY :: k.tables.directory[j] == old(k.tables.directory[j])
  {
    var pid: int := 2;
    while pid >= 0
      invariant -1 <= pid <= 2
      invariant k.Valid()
      invariant forall q | pid < q < NUM_PCB :: k.pcbs[q] == ShellPcb(old(k.pcbs[q]), q, k.StackTop(q), k.kernelDs)
      invariant forall q | 0 <= q <= pid :: k.pcbs[q] == old(k.pcbs[q])
      invariant k.State() == old(k.State()).(loads := old(k.loads) + BootLoads(inode, pid))
      invariant pid < 2 ==> k.tables.directory[USER_ENTRY] == WithPageBase(old(k.tables.directory[USER_ENTRY]), PageBase(pid + 1))
      invariant pid == 2 ==> k.tables.directory[USER_ENTRY] == old(k.tables.directory[USER_ENTRY])
      invariant forall j | 0 <= j < ENTRY_COUNT && j != USER_ENTRY :: k.tables.directory[j] == old(k.tables.directory[j])
    {
      BootStep(k, inode, pid);
      pid := pid - 1;
    }
  }

  /** One pass of the boot loop for pid. */
  method BootStep(k: Kernel, inode: u32, pid: nat)
    requires k.Valid() && pid < NUM_PCB && k.tables.directory[USER_ENTRY].frame < 0x10_0000
    modifies k, k.tables.directory
    ensures k.Valid()
    ensures k.pcbs == old(k.pcbs)[pid := ShellPcb(old(k.pcbs[pid]), pid, k.StackTop(pid), k.kernelDs)]
    ensures k.State() == old(k.State()).(loads := old(k.loads) + [Load(inode, PageBase(pid))])
    ensures k.tables.directory[USER_ENTRY] == WithPageBase(old(k.tables.directory[USER_ENTRY]), PageBase(pid))
    ensures forall j | 0 <= j < ENTRY_COUNT && j != USER_ENTRY :: k.tables.directory[j] == old(k.tables.directory[j])
  {
    k.tables.SetUserPageBase(PageBase(pid));
    k.loads := k.loads + [Load(inode, PageBase(pid))];
    var p := ShellPcb(k.pcbs[pid], pid, k.StackTop(pid), k.kernelDs);
    ConsistentSetPcb(k.pcbs, k.terms, pid, p);
    k.pcbs := k.pcbs[pid := p];
  }

  /** context_switch(nextPid), with the running block's frame pointer left
      unsaved as the code leaves it. Switching to the running pid returns
      at once with interrupts off and nothing else changed. Otherwise the
      user page moves to nextPid's, the running block takes the TSS stack
      fields, the TSS takes nextPid's, and control resumes on nextPid's
      saved frame with interrupts on. None means the call returns to its
      caller. */
  method ContextSwitch(k: Kernel, nextPid: nat) returns (t: Option<Transfer>)
    requires k.Valid() && nextPid < NUM_PCB
    modifies k, k.tables.directory
    ensures k.Valid()
    ensures var cur := old(k.currentPid);
      if old(k.pcbs[cur].pid) == old(k.pcbs[nextPid].pid) then
        t.None? && k.pcbs == old(k.pcbs) && k.State() == old(k.State()).(interrupts := false) &&
        k.tables.directory[..] == old(k.tables.directory[..])
      else
        var saved := old(k.pcbs)[cur := old(k.pcbs[cur]).(esp0 := old(k.tssEsp0), ss0 := old(k.tssSs0))];
        t == Some(Resume(nextPid, saved[nextPid].ebp)) &&
        k.pcbs == saved &&
        k.State() == old(k.State()).(currentPid := nextPid, tssEsp0 := saved[nextPid].esp0,
                                     tssSs0 := saved[nextPid].ss0, interrupts := true) &&
        k.tables.directory[USER_ENTRY] == WithPageBase(old(k.tables.directory[USER_ENTRY]), PageBase(nextPid))
    ensures forall j | 0 <= j < ENTRY_COUNT && j != USER_ENTRY :: k.tables.directory[j] == old(k.tables.directory[j])
  {
    k.interrupts := false;
    var current := k.pcbs[k.currentPid];
    if current.pid == k.pcbs[nextPid].pid {
      return None;
    }
    k.tables.SetUserPageBase(PageBase(nextPid));
    var p := current.(esp0 := k.tssEsp0, ss0 := k.tssSs0);
    ConsistentSetPcb(k.pcbs, k.terms, k.currentPid, p);
    k.pcbs := k.pcbs[k.currentPid := p];
    k.tssEsp0 := k.pcbs[nextPid].esp0;
    k.tssSs0 := k.pcbs[nextPid].ss0;
    k.interrupts := true;
    k.currentPid := nextPid;
    t := Some(Resume(nextPid, k.pcbs[nextPid].ebp));
  }

  /** After the boot every block is a root shell, so execute refuses every
      command until one of pids 0 and 1 halts. */
  lemma BootFillsPids(pcbs: seq<Pcb>, esp0: seq<int>, ss0: int, img: Image, command: seq<byte>, staleMagic: u32)
    requires |pcbs| == NUM_PCB && |esp0| == NUM_PCB && forall q | 0 <= q < NUM_PCB :: |pcbs[q].fds| == MAX_FILES
    ensures var booted := seq(NUM_PCB, q requires 0 <= q < NUM_PCB => ShellPcb(pcbs[q], q, esp0[q], ss0));
      (forall q | 0 <= q < NUM_PCB :: booted[q].present && booted[q].parent.None? && booted[q].pid == q) &&
      Admit(img, command, staleMagic, booted).None?
  {
    var booted := seq(NUM_PCB, q requires 0 <= q < NUM_PCB => ShellPcb(pcbs[q], q, esp0[q], ss0));
    ExecuteRefusedWhileRootsRun(img, command, staleMagic, booted);
  }
}
