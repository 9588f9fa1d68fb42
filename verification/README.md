# student-distrib kernel core in Dafny

This project models the core of *student-distrib*, a small x86 teaching
kernel. Three root shells run on three terminals. The programmable
interval timer switches between them round robin. User programs are loaded
from a read-only in-memory file system and reach the kernel through ten
system calls. The model covers:

- the system calls (`halt`, `execute`, `read`, `write`, `open`, `close`,
  `getargs`, `vidmap` and the stubs);
- the boot of the three shells and the context switch;
- the timer's tick handler;
- the file system driver;
- the kernel heap;
- paging and the interrupt descriptor table;
- the 8259 interrupt controllers, the real-time clock, the terminal and the keyboard.

Each C file becomes one Dafny module:

| module | file | form |
|---|---|---|
| `FileSys` | filesys.c | functions over the image, loops proved against them |
| `SystemCall` | system_call.c | class `Kernel` for the kernel's globals, functions for the rules |
| `Scheduling` | scheduling.c | methods on `Kernel` |
| `Pit` | pit.c | methods on `Kernel` and `Pic` |
| `Malloc` | malloc.c | class `Heap`; the free list as a sequence of blocks |
| `Paging` | paging.c | class `PageTables` over three 1024-entry arrays |
| `Idt` | idt.c | class `Table` over the 256-gate array |
| `I8259` | i8259.c | class `Pic` with the two shadow masks |
| `Rtc`, `Terminal`, `Keyboard` | rtc.c, terminal.c, keyboard.c | methods over the port and screen logs |

`Types` holds bytes, 32-bit words and little-endian packing. `Io` holds
the machine the drivers talk to:

- every `outb` is appended to a port log;
- every character printed is appended to a screen log;
- the interrupt flag is a field.

Several things are modelled as parameters or plain values rather than
executed:

- **Control transfers.** The assembly that moves to user mode or onto
  another kernel stack becomes a `Transfer` value. It names where control
  goes and with which frame pointer.
- **The file system image.** It is a value: the memory from the boot
  block on, as the CPU reads it through 8-bit and 32-bit loads. A 32-bit
  load returns the four bytes at its address, lowest first. Every address
  holds some byte, so the model has no end of image to fall off.
- **Uninitialised variables.** What they held before (`staleMagic`,
  `staleEntry`) and the frame pointers the assembly reads (`ebp`) are
  parameters.
- **Rules and implementations.** Each system call is a rule: a function of
  the old state, with its properties proved as lemmas. The method that
  changes the state is proved to follow that rule.

## Model

| member | source | states |
|---|---|---|
| FileSys.DentryRoundTrip | student-distrib/filesys.h:18-23 | a 64-byte directory entry decodes to the entry it was encoded from, and encodes back to the same 64 bytes |
| FileSys.BootBlockLayout | student-distrib/filesys.h:26-32 | all 63 directory entries sit after the 64-byte boot header and inside the 4 KiB boot block, the last one ending exactly at 4096 |
| FileSys.InodeLayout | student-distrib/filesys.h:36-38 | data block slot k of inode n lies inside that inode's 4 KiB block; the word just past the last slot is the next inode's size |
| FileSys.CompareName | student-distrib/filesys.c:34 | the loop's byte comparison is exactly strncmp over 32 bytes: equal up to the first NUL or for all 32 bytes |
| FileSys.LookupFrom | student-distrib/filesys.c:31-40 | the search from entry i returns the first matching index at or after i, and none iff no entry from i up to num_dir_entries matches |
| FileSys.ReadDentryByName | student-distrib/filesys.c:28-41 | NULL name fails; otherwise it finds an entry iff some entry among the first num_dir_entries matches, and then returns the first match |
| FileSys.OwnNameFindsEntry | student-distrib/filesys.c:28-41 | looking up the name stored in entry i finds an entry at index i or lower (a duplicate name earlier in the directory shadows it) |
| FileSys.IndexAndNameAgree | student-distrib/filesys.c:51-57 | ReadDentryByIndex (read_dentry_by_index) fails exactly for index >= num_dir_entries; the name it returns is found by name lookup at that index or earlier |
| FileSys.ReadData | student-distrib/filesys.c:69-101 | returns the specified result (-1, bytes copied, or length); the buffer's first Copied bytes are the file's bytes from offset; nothing after them changes |
| FileSys.ReadWalk | student-distrib/filesys.c:79-100 | the block-walking loop produces exactly the outcome of the walk over the code's own counters (block number, block offset, data pointer) |
| FileSys.CounterWraps | student-distrib/filesys.c:87-89 | the code's block counter reaches a multiple of 4096 exactly when the next byte starts a new block of the file |
| FileSys.Avail | student-distrib/filesys.c:82-85 | the bytes available: at most length, at most the rest of the file, 0 at or past its end, and otherwise one of the two |
| FileSys.ReadWalkMeetsSpec | student-distrib/filesys.c:79-100 | that walk's result and bytes equal the declarative ones: the file's bytes from offset up to the end, the length, or a bad block index |
| FileSys.WalkMeetsSpec | student-distrib/filesys.c:82-99 | from any intermediate walk state, the remaining walk completes the bytes copied so far into the declarative result |
| FileSys.ReadDataCount | student-distrib/filesys.c:82-100 | without a bad block the result is min(length, size - offset), or 0 past the end; with one it is -1 after copying up to the failing byte |
| FileSys.FirstBlockUnchecked | student-distrib/filesys.c:81-95 | a read that never crosses a block boundary cannot fail: the first block index is never checked against num_data_blocks |
| FileSys.FileOpen | student-distrib/filesys.c:111-117 | returns 0 iff the name is found, otherwise -1 |
| FileSys.DirOpen | student-distrib/filesys.c:182-189 | returns 0 iff the name is found, otherwise -1 |
| FileSys.ReadOnlyFileOps | student-distrib/filesys.c:159-172 | file and directory writes return -1; closes return 0 |
| FileSys.FileRead | student-distrib/filesys.c:130-148 | returns 0 iff directory entry 0 has file type 2, else -1; the caller's buffer is left unchanged |
| FileSys.DirRead | student-distrib/filesys.c:201-213 | past the last entry returns 0 and changes nothing; otherwise copies that entry's 32-byte name, advances the position by one and returns 1 |
| FileSys.DirRead2IsFileSize | student-distrib/filesys.c:223-230 | dir_read2(k) returns the size field of the inode named in entry k, as a signed 32-bit value |
| Paging.WithPageBase | student-distrib/system_call.c:171 | writing a 10-bit base leaves the low bits of the 20-bit frame and every flag unchanged |
| Paging.PageTables.Init | student-distrib/paging.c:17-101 | the three tables end in the initial layout; CR3 holds the directory; PSE is set in CR4, and PE and PG in CR0, with their other bits unchanged |
| Paging.PageTables.Clear | student-distrib/paging.c:22-24 | every entry of the table becomes zero |
| Paging.PageTables.EnablePaging | student-distrib/paging.c:67-100 | CR3 holds the directory; PSE is set in CR4, and PE and PG in CR0, their other bits unchanged |
| Paging.PageTables.FillEntries | student-distrib/paging.c:26-44 | directory entries 0 and 1 point at the page table and the kernel; every other entry is an absent 4 MiB page i; table entries hold frame i |
| Paging.PageTables.MapVideo | student-distrib/paging.c:46-62 | video pages 0xB8-0xBC present; page 0xB9 points at 0xB8; the user video table entry is user-writable; directory entry 0xB8 uses it |
| Paging.KernelIdentityMapped | student-distrib/paging.c:31-34 | after paging_init, virtual 4-8 MiB translates to itself for the kernel and is refused to user mode |
| Paging.VideoMemoryMapped | student-distrib/paging.c:46-53 | the five video pages translate to themselves, except 0xB9000-0xB9FFF, which maps onto the screen at 0xB8000; user mode is refused |
| Paging.EverythingElseUnmapped | student-distrib/paging.c:36-44 | every other address is unmapped after paging_init |
| Paging.UserProgramPage | student-distrib/system_call.c:168-171 | with the user directory entry present, 128-132 MiB translates into the 4 MiB frame the entry's base names |
| Paging.UserVideoPage | student-distrib/system_call.c:398-416 | with the vidmap entry present, the address vidmap hands out translates to the frame in the user video table |
| Paging.VidmapAddress | student-distrib/system_call.c:415 | (0xB8 << 22) OR (0xB8 << 12) is 0x2E0B8000; its directory and table indices are both 0xB8 |
| Paging.PageTables.MapUserPage | student-distrib/system_call.c:168-171 | the user directory entry becomes present, user and writable, with base changed; no other entry changes |
| Paging.PageTables.SetUserPageFlags | student-distrib/scheduling.c:27-29 | the user directory entry becomes present, user and writable; no other entry changes |
| Paging.PageTables.SetUserPageBase | student-distrib/pit.c:64 | only the base of the user directory entry changes |
| Paging.PageTables.MapUserVideo | student-distrib/system_call.c:407-411 | the user video entry becomes present with the given frame; no other entry changes |
| Paging.PageTables.BindVideo | student-distrib/pit.c:48-54 | entry 0xB8 of both the kernel and user video tables takes the frame; nothing else changes |
| Paging.PageTables.SetUserVideoPresent | student-distrib/pit.c:65 | only the present bit of the user video entry changes |
| Idt.InitialGates | student-distrib/idt.c:153-182 | every gate is a 32-bit interrupt gate with kernel CS; present exactly for exceptions 0-19, 0x21, 0x28 and 0x80; only 0x80 has DPL 3; other gates keep their DPL and handler |
| Idt.HandlerBinding | student-distrib/idt.c:162-181 | exception i is bound to EXPi, 0x80 to systemcall_blank, 0x21 to keyboard_intr and 0x28 to rtc_intr |
| Idt.TimerVectorNotPresent | student-distrib/idt.c:153-182 | vector 0x20, which IRQ 0 (the timer) raises, is left not present |
| Idt.Table.Init | student-distrib/idt.c:150-184 | each gate becomes the initial gate computed from its previous content; the table is loaded |
| I8259.Unmask | student-distrib/i8259.c:48 | line n becomes unmasked and every other line keeps its state |
| I8259.Mask | student-distrib/i8259.c:62 | line n becomes masked and every other line keeps its state |
| I8259.MaskUnmaskInverse | student-distrib/i8259.c:44-69 | disable_irq undoes enable_irq on a masked line, and the converse on an unmasked line |
| I8259.InitLeavesAllMasked | student-distrib/i8259.c:13-41 | whatever was written before, the last byte written to each data port after initialisation is 0xFF |
| I8259.Pic.Init | student-distrib/i8259.c:13-41 | the port log gains exactly the twelve initialisation writes, in order; when both shadow masks are 0xFF (as the constructor leaves them) the chips' masks equal them |
| I8259.Pic.EnableIrq | student-distrib/i8259.c:44-55 | out-of-range IRQ: nothing written, interrupts left off; otherwise the chip's shadow mask loses bit n and is written; the chips' masks stay in sync |
| I8259.Pic.DisableIrq | student-distrib/i8259.c:58-69 | out-of-range IRQ: nothing written, interrupts left off; otherwise the chip's shadow mask gains bit n and is written; the chips' masks stay in sync |
| I8259.Pic.SendEoi | student-distrib/i8259.c:72-80 | the port log gains exactly EoiWrites(irq) |
| I8259.EoiWrites | student-distrib/i8259.c:72-80 | no write iff irq is out of range; EOI or n to the master for n < 8; EOI or (n-8) to the slave then EOI or 2 to the master otherwise |
| I8259.EoiCommand | student-distrib/i8259.c:75 | the EOI byte for line n is EOI plus n |
| Rtc.FrequencyIsPowerOfTwo | student-distrib/rtc.h:21-22 | 0x8000 >> (rate - 1) is 2^(16 - rate) for rates 1..16 |
| Rtc.FrequencyBounds | student-distrib/rtc.h:18-22 | MIN_FREQUENCY is 2 Hz and MAX_FREQUENCY 512 Hz, and rates 7..15 fit register A |
| Rtc.AdvertisedRates | student-distrib/rtc.h:18-22 | every rate in 7..15 gives a power of two between 2 and 512 Hz; each step up halves the frequency |
| Rtc.RateRegister | student-distrib/rtc.c:55 | the new register A keeps the high nibble of the old one and holds the rate in the low nibble |
| Rtc.WithPie | student-distrib/rtc.c:17 | bit 6 is set and every other bit of register B is kept |
| Rtc.RtcSetRate | student-distrib/rtc.c:48-60 | returns -1 iff the rate is outside 0..15, writing nothing; otherwise writes select, reselect and the new register A, returns 0 and enables interrupts |
| Rtc.RtcInit | student-distrib/rtc.c:12-21 | the exact port writes: register B with PIE, unmasking IRQ 8 on the slave, then rtc_set_rate(0); IRQ 8 becomes unmasked |
| Rtc.RtcHandler | student-distrib/rtc.c:31-38 | selects register C, prints "RTC interrupt" and a newline, sends the EOI for IRQ 8, and leaves interrupts on |
| Rtc.RtcFileOpsSucceed | student-distrib/rtc.c:62-76 | the four file operations return 0 |
| Pit.Divisor | student-distrib/pit.c:19 | the divisor fits in 16 bits and is 1193182 / f exactly when f >= 19; below that it is truncated |
| Pit.BytesRecombine | student-distrib/pit.c:22-23 | the bytes sent, LowByte (param & 0xFF) then HighByte ((param >> 8) & 0xFF), recombine to the divisor |
| Pit.SlowFrequencyTruncates | student-distrib/pit.c:19 | 18 Hz gives divisor 751 (about 1589 Hz) while 19 Hz gives 62799 |
| Pit.PitInit | student-distrib/pit.c:18-26 | mode 0x36, the divisor's low byte then high byte, then IRQ 0 unmasked on the master, in that order |
| Pit.RoundRobin | student-distrib/pit.c:36 | three ticks return to the starting terminal, after visiting all three |
| Pit.NextTerminal | student-distrib/pit.c:36 | the next terminal is always one of the three |
| Pit.SaveOutgoing | student-distrib/pit.c:37-46 | with no process on the terminal nothing changes; otherwise only the outgoing block's ebp and esp0 are replaced |
| Pit.TickBookkeeping | student-distrib/pit.c:34-57 | EOI for IRQ 0 first; the outgoing process's frame pointer and TSS stack are saved; both video entries bound for the next terminal; only currentTerminal changes |
| Pit.EnterProcess | student-distrib/pit.c:62-67 | user page base set to 2 + pid and the video entry's present bit to the process's vidmap flag; TSS stack set to its esp0; nothing else changes |
| Pit.StartShell | student-distrib/pit.c:59-60 | execute("shell")'s whole outcome (Executed): refused with only interrupts cleared, or the shell installed and entered, which the current terminal now records |
| Pit.HaltFlagged | student-distrib/pit.c:69-82 | halt(128)'s whole outcome (Halted): reclaim, then re-execute "shell" for a root shell or return to the parent; the terminal's halt flag stays set unless it is the displayed one |
| Pit.PitHandler | student-distrib/pit.c:33-97 | EOI first, with the screen and interrupt flag untouched; the current terminal advances round robin; video bound per next terminal, no other page-table entry changing; then an empty terminal gets execute("shell")'s whole outcome, a flagged one halt(128)'s after its page, video bit and stack are set, and any other is resumed with its saved ebp, page, video bit and stack, the rest of the scheduler state and the other directory entries unchanged |
| Terminal.LineLengthFindsFirstNewline | student-distrib/terminal.c:85-93 | LineLength, where end_of_line's loop stops: just after the first newline among the first readcount keyboard bytes, or readcount when there is none, and 0 for readcount <= 0 |
| Terminal.Line | student-distrib/terminal.c:85-92 | the n bytes the read buffer starts with: the keyboard bytes before the line's end, then a newline in the last place |
| Terminal.EmptyReadWritesBeforeBuffer | student-distrib/terminal.c:85-92 | as written, a read of 0 or fewer bytes puts the newline at index -1; otherwise the index lies in the buffer |
| Terminal.Terminal.EndOfLine | student-distrib/terminal.c:81-95 | when idle, nothing changes; otherwise the read buffer gets the line ending in a newline, the rest is untouched, readcount becomes its length and the terminal goes idle |
| Terminal.Terminal.TerminalRead | student-distrib/terminal.c:20-27 | returns the line length; the buffer holds the line with a newline at its end and nothing after it changes |
| Terminal.TerminalWrite | student-distrib/terminal.c:39-47 | returns nbytes; prints the first nbytes bytes with NULs skipped, in order; leaves interrupts on |
| Terminal.NonNulIdempotent | student-distrib/terminal.c:42-44 | skipping NULs twice is skipping them once |
| Terminal.NonNulKeepsText | student-distrib/terminal.c:42-44 | a buffer without NULs is printed whole |
| Terminal.TerminalOpenCloseSucceed | student-distrib/terminal.c:57-71 | open and close return 0 |
| Keyboard.DigitsAndHomeRow | student-distrib/keyboard.c:6-13 | codes 0x02-0x0B are the digits, 0x1C is Enter and 0x1E is 'a' |
| Keyboard.TopRowShifted | student-distrib/keyboard.c:6-13 | in KeysAsWritten, the table as declared, code 0x0F maps to NUL, 0x10 (Q) to tab and 0x16 (U) to 'y', and 'u' is nowhere in the table |
| Keyboard.TopRowRestored | student-distrib/keyboard.c:6-13 | Keys, the corrected table, has tab and "qwertyuiop" at 0x0F-0x19 and agrees with KeysAsWritten outside 0x0F-0x16 |
| Keyboard.ReleaseCodesIndexBeforeTable | student-distrib/keyboard.c:5-37 | IndexAsWritten, the index the signed test lets through: every code 0x80 and above indexes the table at code - 256, below its start; codes 54-127 are ignored; a code below 54 is its own index |
| Keyboard.Printed | student-distrib/keyboard.c:5-39 | as written, a code prints exactly when it is below 54 or 0x80 and above; a press below 54 prints its KeysAsWritten entry, a release the byte that far before the table |
| Keyboard.UnsignedTestMatchesTable | student-distrib/keyboard.c:36-37 | the corrected unsigned test echoes exactly the codes whose signed index lies inside the table |
| Keyboard.CorrectedDiffersOnlyThere | student-distrib/keyboard.c:6-39 | Echo, the corrected lookup (Keys and an unsigned test), prints what the written handler prints except for codes 0x0F-0x16 and the release codes, which it ignores; Q prints 'q' instead of tab |
| Keyboard.KeyboardInit | student-distrib/keyboard.c:23-25 | unmasks IRQ 1 on the master and writes the new mask |
| Keyboard.KeyboardHandler | student-distrib/keyboard.c:35-42 | as written: when Printed gives a character, the screen is cleared and that character printed, so release codes print bytes from before the table; nothing is printed for codes 54-0x7F; the EOI for IRQ 1 is sent either way |
| Malloc.AlignedSizeBounds | student-distrib/malloc.c:3 | the aligned size is a multiple of 128, strictly above n and at most n + 128; a multiple of 128 still grows by 128 |
| Malloc.AlignedSizeExamples | student-distrib/malloc.c:3 | 1 and 127 round to 128, 128 rounds to 256, and the whole capacity to 0x6000080 |
| Malloc.FirstFitIsFirst | student-distrib/malloc.c:29-30 | the walk stops at the first block large enough; none is found iff no block is large enough |
| Malloc.FirstFitFrom | student-distrib/malloc.c:29-30 | the walk from block i stops at the first block whose size is at least the real size, none before it being large enough; None iff no block from i is |
| Malloc.CarveSorted | student-distrib/malloc.c:31-55 | taking a block keeps the free list ordered, non-overlapping and inside the heap |
| Malloc.CarveBlocks | student-distrib/malloc.c:31-55 | Carve, malloc's taking of the chosen block: the free list loses it and gains the leftover when split; no other block changes |
| Malloc.TakenDisjoint | student-distrib/malloc.c:31-55 | the block handed out lies in the heap and overlaps no block left free |
| Malloc.FreeKeepsOrder | student-distrib/malloc.c:77-101 | FreeInto, free's effect on the list: freeing a non-overlapping block keeps the list ordered; the block joins iff the list is empty or it lies below the last free block |
| Malloc.InsertedKeepsOrder | student-distrib/malloc.c:92-100 | Inserted, the walk's linking, keeps the list ordered and its head, and adds the block iff some free block lies above it |
| Malloc.FreeAboveLastLeaks | student-distrib/malloc.c:92-100 | a block freed above the last free block is linked nowhere: the list is unchanged |
| Malloc.MallocKeepsInvariant | student-distrib/malloc.c:29-55 | a first-fit allocation keeps every free and allocated block disjoint, inside the heap and the free list ordered |
| Malloc.FreeKeepsInvariant | student-distrib/malloc.c:77-101 | freeing an allocated block keeps the same invariant |
| Malloc.FirstCallInvariant | student-distrib/malloc.c:62-70 | the first allocation leaves one allocated block at the base and one free block after it, satisfying the invariant |
| Malloc.AllocAsWritten | student-distrib/malloc.c:29-55 | as written, the allocation fails exactly when no free block is large enough |
| Malloc.ExactFitHeadHandedOutTwice | student-distrib/malloc.c:31-38 | malloc(1), free, then two malloc(1) calls both return 0xCA000010 because the head stays linked |
| Malloc.FirstCallWraps | student-distrib/malloc.c:62-67 | FirstFreeAsWritten, the first call's leftover: the first block and header overflow the heap exactly for size >= 0x5FFFF80; then the leftover block lies outside the heap, of size 0xFFFFFF60 for the full capacity |
| Malloc.Heap.Malloc | student-distrib/malloc.c:19-71 | (corrected, see Left out) NULL exactly for size 0, size above capacity, no room on the first call, or no large-enough free block; otherwise a fresh block of at least RealSize(size) taken first fit, the heap invariant kept |
| Malloc.Heap.Calloc | student-distrib/malloc.c:73-75 | exactly malloc(Wrap32(each*count)): NULL under the same conditions with nothing changed, otherwise the same first-call block or first-fit carve of the free list and the same new allocation |
| Malloc.Heap.Free | student-distrib/malloc.c:77-104 | NULL changes nothing; otherwise the block leaves the allocated map and the free list becomes FreeInto of it |
| Malloc.Heap.Linked | student-distrib/malloc.c:92-100 | the linking loop computes FreeInto |
| SystemCall.PcbPlacement | student-distrib/system_call.h:15 | distinct pids have distinct blocks 8 KiB apart; the three blocks lie inside the kernel's 4-8 MiB page |
| SystemCall.UserPageAt128MiB | student-distrib/system_call.h:12 | directory entry 32 covers 128 MiB; the vidmap address uses directory and table index 0xB8 |
| SystemCall.StartupDescriptors | student-distrib/system_call.c:191-206 | ExecFds (execute's table): descriptors 0 and 1 become stdin and stdout, open, the rest get the null operations; ShellFds (the shell boot's) also closes 2..7; inodes and positions untouched |
| SystemCall.ReclaimClosesAll | student-distrib/system_call.c:25-32 | halt marks the block absent, clears vidmap and rtc, closes every descriptor, and keeps pid, parent and arguments |
| SystemCall.HaltValue | student-distrib/system_call.c:57-75 | the value left in eax: 0x100 exactly after an exception; otherwise 0..0xFF with the status as its low byte (movb into the cleared eax, MovAl) |
| SystemCall.ParseCommandMeaning | student-distrib/system_call.c:110-140 | refused iff a NUL comes within 128 bytes with only spaces before it; name has no space or NUL, args no NUL, each at most 128 bytes |
| SystemCall.ParseExamples | student-distrib/system_call.c:110-140 | "  shell  a b " gives name "shell" and args "a b " (trailing space kept); three spaces alone are refused |
| SystemCall.SkipLeading | student-distrib/system_call.c:110-117 | stops after the leading spaces, and refuses iff it stops at a NUL within 128 bytes |
| SystemCall.SkipSpaces | student-distrib/system_call.c:126-130 | stops after the spaces, and at most 128 bytes on |
| SystemCall.CopyRun | student-distrib/system_call.c:118-140 | copies the run into the zeroed 128-byte buffer and returns its length |
| SystemCall.ScanName | student-distrib/system_call.c:118-140 | the name and argument loops fill both buffers with the parsed name and args, zero-padded to 128 bytes |
| SystemCall.ParseLoops | student-distrib/system_call.c:110-140 | the four loops refuse exactly what ParseCommand refuses, and otherwise fill filename and args with the parsed name and arguments, zero-padded |
| SystemCall.ReadWord | student-distrib/system_call.c:151-154 | read_data's result for 4 bytes, and the word the variable then holds: file bytes where copied, its stale content elsewhere |
| SystemCall.MagicByteOrder | student-distrib/system_call.h:11 | the word matches MAGIC_NUM iff the file starts 46 4C 45 7F, so an ELF file (7F 45 4C 46) is refused |
| SystemCall.LoadedWordWhole | student-distrib/system_call.c:151-154 | when all four bytes are copied, the stale content does not matter |
| SystemCall.LowestFreePid | student-distrib/system_call.c:157-162 | the lowest pid below MAX_TASKS whose block is free; none iff all those blocks are in use |
| SystemCall.AllocationBelowMaxTasks | student-distrib/system_call.h:13 | pids above 1 are never allocated; with pids 0 and 1 in use execute finds no pid even though block 2 is free |
| SystemCall.FindFreePid | student-distrib/system_call.c:157-162 | the search loop returns the lowest free pid, or MAX_TASKS iff there is none |
| SystemCall.AdmitMeaning | student-distrib/system_call.c:110-162 | Admit, execute's admission rule: it goes ahead only for a parsed command whose name is found, whose magic read succeeds and matches, and a lowest free pid; args are the parsed args |
| SystemCall.ExecuteRefusedWhileRootsRun | student-distrib/system_call.c:157-162 | with pids 0 and 1 in use every execute is refused, also after pid 2 halts |
| SystemCall.CheckCommand | student-distrib/system_call.c:110-162 | the checks in code compute exactly the admission rule |
| SystemCall.ExecPcb | student-distrib/system_call.c:191-206 | the new block is present, with its pid, args, esp0 and saved ebp; the parent is set iff pid > 2 |
| SystemCall.DeviceResults | student-distrib/system_call.c:332 | DeviceOpen and DeviceClose, the calls through a descriptor's operations: for a name that is found, the null or missing operations return -1, any driver 0 |
| SystemCall.ClosedDescriptorReused | student-distrib/system_call.c:315-316 | closing descriptor fd, with 2..fd-1 open, makes fd the next one open picks |
| SystemCall.LowestClosedFrom | student-distrib/system_call.c:315-316 | the lowest closed descriptor from i on, or none iff all from i to 7 are open |
| SystemCall.OpenMeaning | student-distrib/system_call.c:306-341 | OpenOutcome, open's rule as written (OpenEntry, OpsForType, DeviceOpen): -1 iff the name is NULL or not found or 2..7 are all open; otherwise the lowest closed descriptor is set at position 0 on the entry's inode, and open returns it (>= 2) iff the device open returned 0, else closes it again and returns 0; no other descriptor changes |
| SystemCall.OpenResultAsWritten | student-distrib/system_call.c:333-337 | as written, the result is at least 2 iff the device open returned 0, and 0 otherwise |
| SystemCall.CloseThenOpen | student-distrib/system_call.c:350-357 | CloseOutcome, close's rule: close frees fd, making it the lowest free; closing 0 or 1 fails and changes nothing |
| SystemCall.ReadWriteGuards | student-distrib/system_call.c:269-296 | ReadCall and WriteResult, read's and write's rules: they fail iff the fd is out of range or closed, or the handler fails; read moves only that descriptor's position, which a failed handler moves back by one |
| SystemCall.AdvancedPosition | student-distrib/system_call.c:276 | the position grows by the result in 32 bits; a result of -1 moves it back by one |
| SystemCall.FailedOpenReturnsStdin | student-distrib/system_call.c:333-336 | as written, a failed device open returns 0 (stdin's number); the corrected open returns -1 |
| SystemCall.OpenResult | student-distrib/system_call.c:333-337 | the corrected result is the descriptor (at least 2) iff the device open succeeded, else -1 |
| SystemCall.StubsFail | student-distrib/system_call.c:436-493 | set_handler, sigreturn and the null operations return -1 |
| SystemCall.GetArgsMeaning | student-distrib/system_call.c:366-389 | on success the buffer gets the args and a terminating NUL; a buffer too short gets only args bytes; no args gives a lone NUL and -1 |
| SystemCall.ArgLengthOfTerminated | student-distrib/system_call.c:378-382 | a NUL-free string followed by NUL has its own length |
| SystemCall.ArgLength | student-distrib/system_call.c:378-382 | the length counts the NUL-free prefix, stopping at the first NUL |
| SystemCall.VideoFrame | student-distrib/system_call.c:408-411 | the displayed terminal maps the screen at 0xB8; any other i in 0..2 maps its backing page 0xBA + i |
| SystemCall.VidmapAcceptsMeaning | student-distrib/system_call.c:399-405 | vidmap accepts a pointer iff it lies in the user page 128..132 MiB |
| SystemCall.PageBase | student-distrib/system_call.c:171 | a pid's program page base is 2 + pid (the 10-bit field) |
| SystemCall.ConsistentSetPcb | student-distrib/system_call.c:191-206 | storing a well-formed block keeps the blocks and terminal slots consistent |
| SystemCall.Kernel.Execute | student-distrib/system_call.c:96-257 | Executed: fails iff Admit refuses, with only interrupts cleared; otherwise Installed: user page at 2 + pid, the new block, TSS, terminal slot and current pid, entry at the loaded entry point; other directory entries unchanged |
| SystemCall.Kernel.Install | student-distrib/system_call.c:164-254 | user page at 2 + pid, image load, the new block, TSS, terminal slot and current pid, then entry at the loaded entry point |
| SystemCall.Kernel.Reclaim | student-distrib/system_call.c:18-32 | the current block is reclaimed; the displayed terminal's halt flag is cleared; interrupts are off |
| SystemCall.HaltFlagCleared | student-distrib/system_call.c:28 | the displayed terminal's halt flag is false and interrupts are off; other terminals keep their slots |
| SystemCall.Kernel.ReturnTo | student-distrib/system_call.c:40-81 | the terminal records the parent; user page and TSS go to the parent; control returns to it with HaltValue and the saved frame |
| SystemCall.Kernel.Halt | student-distrib/system_call.c:17-84 | Halted: for pid < 3, reclaim and then execute("shell")'s whole outcome (Executed); otherwise reclaim and return to the parent, with the whole new state stated |
| SystemCall.Kernel.Open | student-distrib/system_call.c:306-341 | as written: the current block's descriptors and the result are those of OpenOutcome, so a device refusal gives 0; nothing else changes |
| SystemCall.Kernel.Close | student-distrib/system_call.c:350-357 | the current block's descriptors and the result are those of the close rule; nothing else changes |
| SystemCall.Kernel.Read | student-distrib/system_call.c:269-278 | the current block's descriptors and the result are those of the read rule; nothing else changes |
| SystemCall.Kernel.Write | student-distrib/system_call.c:290-296 | -1 for an unusable descriptor, otherwise the handler's result |
| SystemCall.Kernel.GetArgs | student-distrib/system_call.c:366-389 | returns the getargs rule's result and writes exactly the specified bytes into the buffer |
| SystemCall.Kernel.Vidmap | student-distrib/system_call.c:398-426 | a pointer outside the user page gives -1 and changes nothing; otherwise 0, stores 0x2E0B8000, marks the block, maps the video entry |
| SystemCall.OpenDescriptor | student-distrib/system_call.c:311-340 | the loop computes exactly OpenOutcome as written, 0 on a device refusal included |
| SystemCall.OpenSlot | student-distrib/system_call.c:315-338 | filling the found slot computes OpenEntry for that entry: the descriptor on success, the slot closed again and 0 on a device refusal |
| SystemCall.CallOpen | student-distrib/system_call.c:333 | the call through the descriptor's operations returns the device open's result |
| SystemCall.CopyArgs | student-distrib/system_call.c:377-388 | the copy loop writes exactly the specified bytes and leaves the rest of the buffer |
| Scheduling.ShellPcb | student-distrib/scheduling.c:46-61 | each boot block is a present root shell on its own kernel stack, with the saved frame below the 28-byte boot frame |
| Scheduling.BootLoadOrder | student-distrib/scheduling.c:33-44 | the shell is loaded three times, into the pages of pids 2, 1 and 0, in that order |
| Scheduling.ShellCheck | student-distrib/scheduling.c:14-25 | the boot checks find "shell", read and match its magic word and read its entry point |
| Scheduling.BootLoop | student-distrib/scheduling.c:33-82 | every block 0..2 becomes a root shell; the user page ends at pid 0's; only the loads change in the rest of the state |
| Scheduling.BootStep | student-distrib/scheduling.c:34-61 | one round sets the user page to pid's, records the load there and makes pid's block a root shell; nothing else changes |
| Scheduling.InitiateShells | student-distrib/scheduling.c:11-91 | fails iff the checks fail, changing nothing; otherwise boots the three shells and enters pid 0 at the shell's entry point |
| Scheduling.ContextSwitch | student-distrib/scheduling.c:93-122 | the same pid returns at once with interrupts off; otherwise the page, saved TSS stack and TSS move to the next pid, which is resumed on its frame |
| Scheduling.BootFillsPids | student-distrib/scheduling.c:46-61 | after the boot every block is a root shell, so execute refuses every command |
| Io.Hardware.Outb | student-distrib/i8259.c:18-39 | outb appends one write of value to port to the port log; screen and interrupt flag unchanged |
| Io.Hardware.Putc | student-distrib/keyboard.c:39 | printing a character appends it to the screen log; ports and interrupt flag unchanged |
| Io.Hardware.ClearScreen | student-distrib/keyboard.c:38 | clear appends a clear to the screen log; ports and interrupt flag unchanged |
| Io.Hardware.Print | student-distrib/rtc.c:35 | printf of a string appends its characters in order to the screen log; ports and interrupt flag unchanged |
| Io.Hardware.Cli | student-distrib/i8259.c:45 | cli clears the interrupt flag and nothing else |
| Io.Hardware.Sti | student-distrib/i8259.c:54 | sti sets the interrupt flag and nothing else |

## Left out

- Port input (`inb`), the screen, `cli`/`sti`, `printf` and `clear` are not
  executed. Their effects are appended to logs in `Io`. Values read from
  ports (the RTC registers, the scan code) are parameters.
- lib.h, x86_desc.h, i8259.h and the assembly linkage are not part of this
  model. The model uses these values:
  - `KSTACK_START`, `KSTACK_SIZE` and `KERNEL_DS` are fields of `Kernel`;
  - the 8259's ports and initialisation words are the standard PC values.
- The real process control block declaration is not part of this model.
  The one in system_call.h:17-26 is stale. `Pcb` holds the fields that
  system_call.c, scheduling.c and pit.c use.
- Transfers of control are values, not jumps. This covers the `iret` into
  user mode, the `leave; ret` of halt and the stack switches of the
  scheduler. Execute reached through halt or the timer never returns in
  the source; the model returns that transfer instead.
- The image loads into user memory are recorded as `Load` entries.
  Executing the loaded program is not modelled.
- `sync_terminal` (pit.c:56) and the terminal switching it does are not
  part of this model.
- `current_pcb` is the `currentPid` field of `Kernel`; the model does not
  mask the stack pointer.
- read and write take their driver's result as a parameter
  (`handlerResult`). The drivers themselves are modelled separately.
- Pit.PitHandler: when the shell execute for an empty terminal is refused,
  the source goes on with a NULL block. The model stops with `Fail`.
- Pit.PitHandler: when halt(128) re-executes "shell" for a root shell and
  that execute is refused, halt returns (system_call.c:34-37) and
  pit_handler falls through to its resume assembly (pit.c:85-96). The model
  stops with that `Fail` instead of also resuming the process.
- Malloc.Heap.Malloc: computes the corrected allocator, not malloc.c as
  written. An exact fit on the head block unlinks it, where malloc.c:31-38
  leaves `blocks` pointing at it (Malloc.ExactFitHeadHandedOutTwice). A
  first call whose block and header exceed the capacity (size >=
  0x5FFFF80) returns NULL, where malloc.c:62-70 returns 0xCA000010 and
  leaves a wrapped leftover (Malloc.FirstCallWraps). Neither behaviour as
  written keeps the heap invariant, so the class does not model them.
- Terminal.Terminal.EndOfLine: for readcount <= 0 the source stores the
  newline at readbuf[-1] (terminal.c:92), before the caller's buffer. The
  model stores nothing, and Terminal.Terminal.TerminalRead inherits this
  for nbytes <= 0. Terminal.EmptyReadWritesBeforeBuffer states the index
  the source writes to.
- FileSys.ReadData: the result is the count as a mathematical integer.
  read_data returns it through int32_t, so a length of 2^31 or more comes
  back negative in the source (and its `int` loop counter overflows); the
  model does not wrap it.
- SystemCall.DeviceOpen: a descriptor whose operations pointer is NULL
  (`NoOps`) gives -1 on open and close. The source calls through the NULL
  pointer instead; SystemCall.DeviceClose is the same.
- getargs reads past the argument buffer when it holds 128 non-NUL bytes.
  The model reads a NUL there.
- The keyboard's line buffer (`reset_buf` and the code that calls
  `end_of_line`) is not part of this model. `kbuf` is a parameter.
- terminal_read's busy wait is not modelled. TerminalRead is end_of_line
  run on the caller's buffer.
- The exception handlers EXP0-EXP13 (idt.c:16-135) print and halt; only
  their binding in the table is modelled.
- file_system_init only sets pointers. The model reads the image directly.
- read_dentry_by_name's store into the global `f_size` (filesys.c:36) is
  not modelled; nothing in this model reads that global.
- The commented-out second context_switch (scheduling.c:124-174) is not
  modelled.
- Concurrency between interrupt handlers is not modelled. Every operation
  runs to completion.
- Pit.Divisor: the model takes frequency from 1 to 0xFFFF; the source
  divides by zero at 0.

## Findings

| source | as written | input that shows it | evidently intended | confidence | as-written member | corrected member |
|---|---|---|---|---|---|---|
| student-distrib/keyboard.c:6-13 | row three of the table starts one entry late: 0x0F holds 0, 'q'..'y' sit one code above their keys and 'u' is missing | scan code 0x10 (Q) prints a tab; 0x16 (U) prints 'y' | tab at 0x0F, then "qwertyuiop" | high, not executed | Keyboard.TopRowShifted | Keyboard.TopRowRestored |
| student-distrib/keyboard.c:5-37 | `sc` is a signed char, so every release code (0x80 and above) passes `sc < 54` and indexes before the table | scan code 0x9E (release of A) reads keys[-98] | compare the code as an unsigned byte | high, not executed | Keyboard.ReleaseCodesIndexBeforeTable | Keyboard.UnsignedTestMatchesTable |
| student-distrib/terminal.c:85-92 | with readcount <= 0 the loop does not run and the newline goes to readbuf[-1] | terminal_read(fd, buf, 0) | write nothing when nothing may be read | high, not executed | Terminal.EmptyReadWritesBeforeBuffer | Terminal.Terminal.EndOfLine |
| student-distrib/malloc.c:31-38 | an exact fit on the head block unlinks it from nothing: `blocks` still points at it | malloc(1), free(p), malloc(1), malloc(1): both later calls return 0xCA000010 | advance `blocks` past the taken head | high, not executed | Malloc.ExactFitHeadHandedOutTwice | Malloc.MallocKeepsInvariant |
| student-distrib/malloc.c:62-67 | on the first call the leftover size `CAPACITY - real_size - 16` wraps below zero | first call malloc(0x6000000) leaves a free block of size 0xFFFFFF60 | return NULL when the first block and its header do not fit | high, not executed | Malloc.FirstCallWraps | Malloc.FirstCallInvariant |
| student-distrib/system_call.c:333-336 | a failing device open releases the descriptor but returns 0 | open of a file whose type is above 2 (null operations) returns 0, which is stdin | return -1 | high, not executed | SystemCall.FailedOpenReturnsStdin | SystemCall.OpenResult |
