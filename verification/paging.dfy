/** x86 two-level paging as paging.c sets it up: a page directory of 1024
    entries, the page table that splits the first 4 MiB into 4 KiB pages, and
    the page table that maps user video memory. Every other 4 MiB of the
    address space is described by a 4 MiB page directory entry. */
module Paging {
  import opened Types

  const ENTRY_COUNT: nat := 1024
  /** CR0.PG (bit 31) and CR0.PE (bit 0). */
  const PAGING_FLAG: bv32 := 0x8000_0001
  /** CR4.PSE (bit 4): enables 4 MiB pages. */
  const PAGE_SIZE_EXTENSION_FLAG: bv32 := 0x10
  const KERNEL_ADDR: nat := 0x40_0000
  const KERNEL_PDE: nat := 1
  const VIDEO_MEMORY_ADDR: nat := 0xB_8000
  const VIDEO_MEMORY_PTE: nat := 0xB8
  /** The directory entry of the 4 MiB page at 128 MiB holding the running
      user program. */
  const USER_ENTRY: nat := 32

  /** A page directory or page table entry: the present, read/write and
      user/supervisor bits, the page size bit (directory entries only), and
      bits 12-31, the frame number. A 4 KiB entry's frame is the address of
      its page or page table divided by 4096; a 4 MiB entry's page base
      (bits 22-31) is frame / 1024. The accessed, dirty, cache and global
      bits are never set and are not modelled. */
  datatype Entry = Entry(present: bool, readWrite: bool, user: bool, pageSize: bool, frame: nat)

  /** An entry after memset(0). */
  const ZERO: Entry := Entry(false, false, false, false, 0)

  /** MB.page_base_address = base: bits 22-31 become base, bits 12-21 are
      kept. */
  function WithPageBase(e: Entry, base: nat): (r: Entry)
    requires base < 0x400 && e.frame < 0x10_0000
    ensures r.frame / 0x400 == base && r.frame % 0x400 == e.frame % 0x400 && r.frame < 0x10_0000
    ensures r.(frame := e.frame) == e
  {
    e.(frame := base * 0x400 + e.frame % 0x400)
  }

  /** What directory entry i holds after paging_init: the first 4 MiB
      through the page table, the kernel's 4 MiB page, the user video page
      table at entry 0xB8, and every other entry a 4 MiB page at its own
      address, not present. */
  function InitialDirectoryEntry(i: nat, tableAddr: nat, vidmemAddr: nat): Entry
  {
    if i == 0 then Entry(true, false, false, false, tableAddr / 0x1000)
    else if i == KERNEL_PDE then Entry(true, false, false, true, KERNEL_ADDR / 0x1000)
    else if i == VIDEO_MEMORY_PTE then Entry(true, true, true, false, vidmemAddr / 0x1000)
    else Entry(false, false, false, true, i * 0x400)
  }

  /** Page table entry i after paging_init: page i, present only for video
      memory and its four backups, with the first backup (0xB9) pointing at
      video memory itself. */
  function InitialTableEntry(i: nat): Entry
  {
    Entry(VIDEO_MEMORY_PTE <= i <= VIDEO_MEMORY_PTE + 4, false, false, false,
          if i == VIDEO_MEMORY_PTE + 1 then VIDEO_MEMORY_PTE else i)
  }

  /** User video page table entry i after paging_init: page i, none present;
      entry 0xB8 is already user-accessible and writable for vidmap. */
  function InitialVidmemEntry(i: nat): Entry
  {
    Entry(false, i == VIDEO_MEMORY_PTE, i == VIDEO_MEMORY_PTE, false, i)
  }

  predicate Initial(dir: seq<Entry>, table: seq<Entry>, vidmem: seq<Entry>, tableAddr: nat, vidmemAddr: nat)
  {
    |dir| == |table| == |vidmem| == ENTRY_COUNT &&
    (forall i | 0 <= i < ENTRY_COUNT :: dir[i] == InitialDirectoryEntry(i, tableAddr, vidmemAddr)) &&
    (forall i | 0 <= i < ENTRY_COUNT :: table[i] == InitialTableEntry(i)) &&
    (forall i | 0 <= i < ENTRY_COUNT :: vidmem[i] == InitialVidmemEntry(i))
  }

  /** The page table a 4 KiB directory entry points at: only the two page
      tables of the kernel are known. */
  function TableAt(pde: Entry, table: seq<Entry>, vidmem: seq<Entry>, tableAddr: nat, vidmemAddr: nat): Option<seq<Entry>>
  {
    if pde.frame * 0x1000 == tableAddr then Some(table)
    else if pde.frame * 0x1000 == vidmemAddr then Some(vidmem)
    else None
  }

  /** The MMU's translation of linear address va, for a supervisor or a user
      access: None is a page fault. A user access needs the user bit in both
      levels. */
  function Translate(dir: seq<Entry>, table: seq<Entry>, vidmem: seq<Entry>, tableAddr: nat, vidmemAddr: nat,
                     va: nat, user: bool): (r: Option<nat>)
    requires |dir| == |table| == |vidmem| == ENTRY_COUNT && va < TWO_32
  {
    var pde := dir[va / 0x40_0000];
    if !pde.present || (user && !pde.user) then None
    else if pde.pageSize then Some(pde.frame / 0x400 * 0x40_0000 + va % 0x40_0000)
    else match TableAt(pde, table, vidmem, tableAddr, vidmemAddr)
      case None => None
      case Some(t) =>
        var pte := t[va / 0x1000 % 0x400];
        if !pte.present || (user && !pte.user) then None
        else Some(pte.frame * 0x1000 + va % 0x1000)
  }

  /** Where the two page tables live: 4 KiB aligned (the arrays are declared
      aligned to PAGING_ALIGNMENT), distinct, and 32-bit addresses. */
  predicate TableAddresses(tableAddr: nat, vidmemAddr: nat)
  {
    tableAddr % 0x1000 == 0 && vidmemAddr % 0x1000 == 0 && tableAddr != vidmemAddr &&
    tableAddr < TWO_32 && vidmemAddr < TWO_32
  }

  /** After paging_init the kernel's 4 MiB at 4 MiB is mapped onto itself for
      the kernel only. */
  lemma KernelIdentityMapped(dir: seq<Entry>, table: seq<Entry>, vidmem: seq<Entry>, tableAddr: nat, vidmemAddr: nat, va: nat)
    requires Initial(dir, table, vidmem, tableAddr, vidmemAddr) && TableAddresses(tableAddr, vidmemAddr)
    requires KERNEL_ADDR <= va < 2 * KERNEL_ADDR
    ensures Translate(dir, table, vidmem, tableAddr, vidmemAddr, va, false) == Some(va)
    ensures Translate(dir, table, vidmem, tableAddr, vidmemAddr, va, true).None?
  {
    assert va / 0x40_0000 == 1;
  }

  /** After paging_init the video page and its terminal backups are mapped
      onto themselves for the kernel, except the first backup page, which
      shows video memory; users reach none of them. */
  lemma VideoMemoryMapped(dir: seq<Entry>, table: seq<Entry>, vidmem: seq<Entry>, tableAddr: nat, vidmemAddr: nat, va: nat)
    requires Initial(dir, table, vidmem, tableAddr, vidmemAddr) && TableAddresses(tableAddr, vidmemAddr)
    requires VIDEO_MEMORY_ADDR <= va < VIDEO_MEMORY_ADDR + 5 * 0x1000
    ensures Translate(dir, table, vidmem, tableAddr, vidmemAddr, va, false) ==
      Some(if VIDEO_MEMORY_ADDR + 0x1000 <= va < VIDEO_MEMORY_ADDR + 0x2000 then va - 0x1000 else va)
    ensures Translate(dir, table, vidmem, tableAddr, vidmemAddr, va, true).None?
  {
    assert va / 0x40_0000 == 0;
    var k := va / 0x1000 % 0x400;
    assert VIDEO_MEMORY_PTE <= k <= VIDEO_MEMORY_PTE + 4 && k * 0x1000 + va % 0x1000 == va;
  }

  /** Every other address faults after paging_init, for the kernel and for
      users alike. */
  lemma EverythingElseUnmapped(dir: seq<Entry>, table: seq<Entry>, vidmem: seq<Entry>, tableAddr: nat, vidmemAddr: nat,
                               va: nat, user: bool)
    requires Initial(dir, table, vidmem, tableAddr, vidmemAddr) && TableAddresses(tableAddr, vidmemAddr)
    requires va < TWO_32
    requires !(KERNEL_ADDR <= va < 2 * KERNEL_ADDR) && !(VIDEO_MEMORY_ADDR <= va < VIDEO_MEMORY_ADDR + 5 * 0x1000)
    ensures Translate(dir, table, vidmem, tableAddr, vidmemAddr, va, user).None?
  {
    var d := va / 0x40_0000;
    if d == 0 {
      var k := va / 0x1000 % 0x400;
      assert k < VIDEO_MEMORY_PTE || k > VIDEO_MEMORY_PTE + 4;
    }
  }

  /** Once directory entry 32 is a present user 4 MiB page with page base
      b, user addresses from 128 MiB to 132 MiB reach the same offset in
      physical 4 MiB page b, which execute sets to 2 + pid (8 MiB for pid
      0, 12 MiB for pid 1). */
  lemma UserProgramPage(dir: seq<Entry>, table: seq<Entry>, vidmem: seq<Entry>, tableAddr: nat, vidmemAddr: nat,
                        va: nat, user: bool)
    requires |dir| == |table| == |vidmem| == ENTRY_COUNT
    requires dir[USER_ENTRY].present && dir[USER_ENTRY].user && dir[USER_ENTRY].pageSize
    requires USER_ENTRY * 0x40_0000 <= va < (USER_ENTRY + 1) * 0x40_0000
    ensures Translate(dir, table, vidmem, tableAddr, vidmemAddr, va, user) ==
      Some(dir[USER_ENTRY].frame / 0x400 * 0x40_0000 + (va - USER_ENTRY * 0x40_0000))
  {
    assert va / 0x40_0000 == USER_ENTRY;
  }

  /** The address vidmap hands out, (0xB8 << 22) | (0xB8 << 12), lies in
      the 4 MiB of directory entry 0xB8, at entry 0xB8 of the user video
      page table. */
  lemma VidmapAddress()
    ensures VIDEO_MEMORY_PTE * 0x40_0000 + VIDEO_MEMORY_PTE * 0x1000 == 0x2E0B_8000
    ensures 0x2E0B_8000 / 0x40_0000 == VIDEO_MEMORY_PTE && 0x2E0B_8000 / 0x1000 % 0x400 == VIDEO_MEMORY_PTE
  {
  }

  /** Once entry 0xB8 of the user video table is present with frame f, a
      user reaches frame f through the page vidmap hands out, as long as
      directory entry 0xB8 is still the one paging_init set. */
  lemma UserVideoPage(dir: seq<Entry>, table: seq<Entry>, vidmem: seq<Entry>, tableAddr: nat, vidmemAddr: nat, offset: nat)
    requires |dir| == |table| == |vidmem| == ENTRY_COUNT && TableAddresses(tableAddr, vidmemAddr)
    requires dir[VIDEO_MEMORY_PTE] == InitialDirectoryEntry(VIDEO_MEMORY_PTE, tableAddr, vidmemAddr)
    requires vidmem[VIDEO_MEMORY_PTE].present && vidmem[VIDEO_MEMORY_PTE].user
    requires offset < 0x1000
    ensures Translate(dir, table, vidmem, tableAddr, vidmemAddr, 0x2E0B_8000 + offset, true) ==
      Some(vidmem[VIDEO_MEMORY_PTE].frame * 0x1000 + offset)
  {
    var va := 0x2E0B_8000 + offset;
    assert va / 0x40_0000 == VIDEO_MEMORY_PTE && va / 0x1000 % 0x400 == VIDEO_MEMORY_PTE && va % 0x1000 == offset;
  }

  class PageTables {
    const directory: array<Entry>
    const table: array<Entry>
    const vidmem: array<Entry>
    /** Physical addresses of the three arrays. */
    const directoryAddr: nat
    const tableAddr: nat
    const vidmemAddr: nat
    var cr0: bv32
    var cr3: nat
    var cr4: bv32

    ghost predicate Valid()
      reads this
    {
      directory.Length == table.Length == vidmem.Length == ENTRY_COUNT &&
      directory != table && directory != vidmem && table != vidmem &&
      TableAddresses(tableAddr, vidmemAddr)
    }

    /** The state of the static arrays and control registers before
        paging_init; their contents are whatever the loader left. */
    constructor (directoryAddr: nat, tableAddr: nat, vidmemAddr: nat, cr0: bv32, cr4: bv32)
      requires TableAddresses(tableAddr, vidmemAddr)
      ensures Valid() && fresh(directory) && fresh(table) && fresh(vidmem)
      ensures this.directoryAddr == directoryAddr && this.tableAddr == tableAddr && this.vidmemAddr == vidmemAddr
      ensures this.cr0 == cr0 && this.cr4 == cr4 && cr3 == 0
    {
      directory := new Entry[ENTRY_COUNT](_ => ZERO);
      table := new Entry[ENTRY_COUNT](_ => ZERO);
      vidmem := new Entry[ENTRY_COUNT](_ => ZERO);
      this.directoryAddr := directoryAddr;
      this.tableAddr := tableAddr;
      this.vidmemAddr := vidmemAddr;
      this.cr0 := cr0;
      this.cr4 := cr4;
      cr3 := 0;
    }

    /** memset(a, 0, 1024 * sizeof(entry)) */
    static method Clear(a: array<Entry>)
      modifies a
      ensures forall i | 0 <= i < a.Length :: a[i] == ZERO
    {
      var i := 0;
      while i < a.Length
        invariant 0 <= i <= a.Length
        invariant forall j | 0 <= j < i :: a[j] == ZERO
      {
        a[i] := ZERO;
        i := i + 1;
      }
    }

    /** paging_init: builds the three tables, loads CR3 with the directory,
        sets CR4.PSE and then CR0.PG and CR0.PE, keeping every other control
        bit. */
    method Init()
      requires Valid()
      modifies directory, table, vidmem, this
      ensures Valid()
      ensures Initial(directory[..], table[..], vidmem[..], tableAddr, vidmemAddr)
      ensures cr3 == directoryAddr
      ensures cr4 & PAGE_SIZE_EXTENSION_FLAG == PAGE_SIZE_EXTENSION_FLAG &&
              cr4 & !PAGE_SIZE_EXTENSION_FLAG == old(cr4) & !PAGE_SIZE_EXTENSION_FLAG
      ensures cr0 & PAGING_FLAG == PAGING_FLAG && cr0 & !PAGING_FLAG == old(cr0) & !PAGING_FLAG
    {
      Clear(directory);
      Clear(table);
      Clear(vidmem);
      FillEntries();
      MapVideo();
      EnablePaging();
    }

    /** The entries paging_init sets before the video pages: directory
        entries 0 and 1, and every other entry of the three arrays pointing
        at its own page. */
    method FillEntries()
      requires Valid()
      requires forall j | 0 <= j < ENTRY_COUNT :: directory[j] == ZERO && table[j] == ZERO && vidmem[j] == ZERO
      modifies directory, table, vidmem
      ensures directory[0] == InitialDirectoryEntry(0, tableAddr, vidmemAddr)
      ensures directory[1] == InitialDirectoryEntry(1, tableAddr, vidmemAddr)
      ensures forall j | 2 <= j < ENTRY_COUNT :: directory[j] == Entry(false, false, false, true, j * 0x400)
      ensures forall j | 0 <= j < ENTRY_COUNT :: table[j] == Entry(false, false, false, false, j)
      ensures forall j | 0 <= j < ENTRY_COUNT :: vidmem[j] == Entry(false, false, false, false, j)
    {
      // the frame fields are still zero, so OR-ing in an aligned address
      // stores its frame number
      directory[0] := directory[0].(present := true, pageSize := false, frame := tableAddr / 0x1000);
      directory[1] := directory[1].(present := true, pageSize := true, frame := KERNEL_ADDR / 0x1000);
      table[1] := table[1].(frame := 1);
      vidmem[1] := vidmem[1].(frame := 1);
      var i := 2;
      while i < ENTRY_COUNT
        invariant 2 <= i <= ENTRY_COUNT
        invariant directory[0] == InitialDirectoryEntry(0, tableAddr, vidmemAddr)
        invariant directory[1] == InitialDirectoryEntry(1, tableAddr, vidmemAddr)
        invariant forall j | 2 <= j < i :: directory[j] == Entry(false, false, false, true, j * 0x400)
        invariant forall j | 0 <= j < i :: table[j] == Entry(false, false, false, false, j)
        invariant forall j | 0 <= j < i :: vidmem[j] == Entry(false, false, false, false, j)
        invariant forall j | i <= j < ENTRY_COUNT :: directory[j] == ZERO && table[j] == ZERO && vidmem[j] == ZERO
      {
        directory[i] := directory[i].(pageSize := true);
        directory[i] := WithPageBase(directory[i], i);
        table[i] := table[i].(frame := i);
        vidmem[i] := vidmem[i].(frame := i);
        i := i + 1;
      }
    }

    /** The video memory entries: pages 0xB8..0xBC present with 0xB9
        moved onto video memory, the user video entry opened to users, and
        directory entry 0xB8 turned into a user page table entry. */
    method MapVideo()
      requires Valid()
      requires directory[0] == InitialDirectoryEntry(0, tableAddr, vidmemAddr)
      requires directory[1] == InitialDirectoryEntry(1, tableAddr, vidmemAddr)
      requires forall j | 2 <= j < ENTRY_COUNT :: directory[j] == Entry(false, false, false, true, j * 0x400)
      requires forall j | 0 <= j < ENTRY_COUNT :: table[j] == Entry(false, false, false, false, j)
      requires forall j | 0 <= j < ENTRY_COUNT :: vidmem[j] == Entry(false, false, false, false, j)
      modifies directory, table, vidmem
      ensures Initial(directory[..], table[..], vidmem[..], tableAddr, vidmemAddr)
    {
      var v := VIDEO_MEMORY_PTE;
      table[v] := table[v].(present := true);
      table[v + 1] := table[v + 1].(present := true);
      table[v + 2] := table[v + 2].(present := true);
      table[v + 3] := table[v + 3].(present := true);
      table[v + 4] := table[v + 4].(present := true);
      table[v + 1] := table[v + 1].(frame := table[v + 1].frame - 1);
      vidmem[v] := vidmem[v].(user := true, readWrite := true);
      directory[v] := directory[v].(present := true, user := true, readWrite := true, pageSize := false);
      directory[v] := directory[v].(frame := vidmemAddr / 0x1000);
    }

    /** Loads CR3 with the directory, then sets CR4.PSE and CR0.PG|PE. */
    method EnablePaging()
      modifies this
      ensures cr3 == directoryAddr
      ensures cr4 & PAGE_SIZE_EXTENSION_FLAG == PAGE_SIZE_EXTENSION_FLAG &&
              cr4 & !PAGE_SIZE_EXTENSION_FLAG == old(cr4) & !PAGE_SIZE_EXTENSION_FLAG
      ensures cr0 & PAGING_FLAG == PAGING_FLAG && cr0 & !PAGING_FLAG == old(cr0) & !PAGING_FLAG
    {
      cr3 := directoryAddr;
      cr4 := cr4 | PAGE_SIZE_EXTENSION_FLAG;
      cr0 := cr0 | PAGING_FLAG;
    }

    /** page_directory[USER_ENTRY]: present, user, writable, page base
        base (execute and the scheduler's first shell launch). */
    method MapUserPage(base: nat)
      requires Valid() && base < 0x400 && directory[USER_ENTRY].frame < 0x10_0000
      modifies directory
      ensures directory[USER_ENTRY] ==
        WithPageBase(old(directory[USER_ENTRY]).(present := true, user := true, readWrite := true), base)
      ensures forall j | 0 <= j < ENTRY_COUNT && j != USER_ENTRY :: directory[j] == old(directory[j])
    {
      directory[USER_ENTRY] := directory[USER_ENTRY].(present := true, user := true, readWrite := true);
      directory[USER_ENTRY] := WithPageBase(directory[USER_ENTRY], base);
    }

    /** The present, user and read/write bits of page_directory[USER_ENTRY]
        (the scheduler's boot, before it sets any base). */
    method SetUserPageFlags()
      requires Valid()
      modifies directory
      ensures directory[USER_ENTRY] == old(directory[USER_ENTRY]).(present := true, user := true, readWrite := true)
      ensures forall j | 0 <= j < ENTRY_COUNT && j != USER_ENTRY :: directory[j] == old(directory[j])
    {
      directory[USER_ENTRY] := directory[USER_ENTRY].(present := true, user := true, readWrite := true);
    }

    /** page_directory[USER_ENTRY].MB.page_base_address = base (halt and
        the context switch). */
    method SetUserPageBase(base: nat)
      requires Valid() && base < 0x400 && directory[USER_ENTRY].frame < 0x10_0000
      modifies directory
      ensures directory[USER_ENTRY] == WithPageBase(old(directory[USER_ENTRY]), base)
      ensures forall j | 0 <= j < ENTRY_COUNT && j != USER_ENTRY :: directory[j] == old(directory[j])
    {
      directory[USER_ENTRY] := WithPageBase(directory[USER_ENTRY], base);
    }

    /** vidmap's update of the user video page table: entry 0xB8 present,
        showing frame. */
    method MapUserVideo(frame: nat)
      requires Valid()
      modifies vidmem
      ensures vidmem[VIDEO_MEMORY_PTE] == old(vidmem[VIDEO_MEMORY_PTE]).(present := true, frame := frame)
      ensures forall j | 0 <= j < ENTRY_COUNT && j != VIDEO_MEMORY_PTE :: vidmem[j] == old(vidmem[j])
    {
      vidmem[VIDEO_MEMORY_PTE] := vidmem[VIDEO_MEMORY_PTE].(present := true);
      vidmem[VIDEO_MEMORY_PTE] := vidmem[VIDEO_MEMORY_PTE].(frame := frame);
    }

    /** The scheduler's binding of video memory: entry 0xB8 of both page
        tables shows frame. */
    method BindVideo(frame: nat)
      requires Valid()
      modifies table, vidmem
      ensures table[VIDEO_MEMORY_PTE] == old(table[VIDEO_MEMORY_PTE]).(frame := frame)
      ensures vidmem[VIDEO_MEMORY_PTE] == old(vidmem[VIDEO_MEMORY_PTE]).(frame := frame)
      ensures forall j | 0 <= j < ENTRY_COUNT && j != VIDEO_MEMORY_PTE :: table[j] == old(table[j]) && vidmem[j] == old(vidmem[j])
    {
      table[VIDEO_MEMORY_PTE] := table[VIDEO_MEMORY_PTE].(frame := frame);
      vidmem[VIDEO_MEMORY_PTE] := vidmem[VIDEO_MEMORY_PTE].(frame := frame);
    }

    /** page_table_user_vidmem[VIDEO_MEMORY_PTE].present = present */
    method SetUserVideoPresent(present: bool)
      requires Valid()
      modifies vidmem
      ensures vidmem[VIDEO_MEMORY_PTE] == old(vidmem[VIDEO_MEMORY_PTE]).(present := present)
      ensures forall j | 0 <= j < ENTRY_COUNT && j != VIDEO_MEMORY_PTE :: vidmem[j] == old(vidmem[j])
    {
      vidmem[VIDEO_MEMORY_PTE] := vidmem[VIDEO_MEMORY_PTE].(present := present);
    }
  }
}
