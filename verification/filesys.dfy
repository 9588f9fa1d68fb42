/** The read-only file system image: a 4 KiB boot block (three counts, 52
    reserved bytes and 63 directory entries of 64 bytes), then one 4 KiB
    inode per file (a size and 1023 data-block indices), then the 4 KiB data
    blocks. The image is memory and every field is loaded from it at the
    address the C pointer arithmetic computes, so reads that run past a
    structure land where the source's reads land. */
module FileSys {
  import opened Types

  /** Blocks are 4096 bytes; the arithmetic below writes the size out. */
  const MAX_FILE_NAME: nat := 32
  const MAX_DATA_BLOCKS: nat := 1023
  const MAX_DIR_ENTRIES: nat := 63
  const MAX_BOOT_RESERVED: nat := 52
  /** sizeof(dentry_t) */
  const DENTRY_SIZE: nat := 64
  /** Offset of dir_entries_arr in boot_block_t: three counts and the reserved bytes. */
  const BOOT_HEADER_SIZE: nat := 12 + MAX_BOOT_RESERVED

  /** The memory holding the image, addressed from the start of the boot
      block, as the CPU reads it: through 8-bit loads (load8) and 32-bit
      loads (load32). Every address the source's pointer arithmetic can reach
      holds some value. */
  datatype Image = Image(load8: int -> byte, load32: int -> u32)
  {
    /** A 32-bit load returns the four bytes at its address, lowest address
        first (x86 is little-endian). */
    ghost predicate Coherent()
    {
      forall addr {:trigger load32(addr)} :: load32(addr) == Le32(load8(addr), load8(addr + 1), load8(addr + 2), load8(addr + 3))
    }
  }

  function ByteAt(img: Image, addr: int): byte
  {
    img.load8(addr)
  }

  /** The uint32_t stored at addr. */
  function WordAt(img: Image, addr: int): u32
  {
    img.load32(addr)
  }

  /** n consecutive bytes starting at addr. */
  function Bytes(img: Image, addr: int, n: nat): (r: seq<byte>)
    ensures |r| == n
    ensures forall k :: 0 <= k < n ==> r[k] == ByteAt(img, addr + k)
  {
    seq<byte>(n, k requires 0 <= k < n => ByteAt(img, addr + k))
  }

  // ---------------------------------------------------------------------
  // Boot block and directory entries

  function NumDirEntries(img: Image): u32 { WordAt(img, 0) }
  function NumInodes(img: Image): u32 { WordAt(img, 4) }
  function NumDataBlocks(img: Image): u32 { WordAt(img, 8) }

  /** dentry_t: a 32-byte name with no guaranteed terminator, a type
      (0 RTC, 1 directory, 2 regular file), an inode number and 24 reserved
      bytes. */
  datatype Dentry = Dentry(name: seq<byte>, fileType: u32, inode: u32, reserved: seq<byte>)
  {
    ghost predicate WellFormed()
    {
      |name| == MAX_FILE_NAME && |reserved| == 24
    }
  }

  function WordBytes(w: u32): (r: seq<byte>)
    ensures |r| == 4
  {
    [LeByte(w, 0), LeByte(w, 1), LeByte(w, 2), LeByte(w, 3)]
  }

  /** The 64 bytes a dentry_t occupies in the image. */
  function EncodeDentry(d: Dentry): (r: seq<byte>)
    requires d.WellFormed()
    ensures |r| == DENTRY_SIZE
    ensures r[..MAX_FILE_NAME] == d.name && r[40..] == d.reserved
  {
    d.name + WordBytes(d.fileType) + WordBytes(d.inode) + d.reserved
  }

  /** Reads a dentry_t out of 64 bytes: name at 0, type at 32, inode at 36,
      reserved from 40. */
  function DecodeDentry(b: seq<byte>): (d: Dentry)
    requires |b| == DENTRY_SIZE
    ensures d.WellFormed()
  {
    Dentry(b[..32], Le32(b[32], b[33], b[34], b[35]), Le32(b[36], b[37], b[38], b[39]), b[40..])
  }

  /** The layout is exact: decoding an encoded entry gives it back, and
      encoding a decoded 64-byte record gives the bytes back. */
  lemma DentryRoundTrip(d: Dentry, b: seq<byte>)
    requires d.WellFormed() && |b| == DENTRY_SIZE
    ensures DecodeDentry(EncodeDentry(d)) == d
    ensures EncodeDentry(DecodeDentry(b)) == b
  {
    var e := EncodeDentry(d);
    LeEncodeDecode(d.fileType);
    LeEncodeDecode(d.inode);
    assert e[32..36] == WordBytes(d.fileType);
    assert e[36..40] == WordBytes(d.inode);
    var t := DecodeDentry(b);
    LeDecodeEncode(b[32], b[33], b[34], b[35]);
    LeDecodeEncode(b[36], b[37], b[38], b[39]);
    assert WordBytes(t.fileType) == b[32..36];
    assert WordBytes(t.inode) == b[36..40];
    assert b == b[..32] + b[32..36] + b[36..40] + b[40..];
  }

  function DentryAddr(i: nat): nat { 64 + 64 * i }

  /** dentry_block[i]; for i >= 63 this runs into the inode blocks, as the
      source's unchecked index does. */
  function DentryAt(img: Image, i: nat): Dentry
  {
    DecodeDentry(Bytes(img, DentryAddr(i), DENTRY_SIZE))
  }

  /** The 63 directory-entry slots tile the boot block after its 64-byte
      header, so boot_block_t is exactly one block. */
  lemma BootBlockLayout(i: nat)
    requires i < MAX_DIR_ENTRIES
    ensures BOOT_HEADER_SIZE <= DentryAddr(i) && DentryAddr(i) + DENTRY_SIZE <= 4096
    ensures DentryAddr(MAX_DIR_ENTRIES - 1) + DENTRY_SIZE == 4096
  {
  }

  // ---------------------------------------------------------------------
  // Name lookup

  /** No terminator among the first k characters of s. */
  ghost predicate NoNulBefore(s: seq<byte>, k: int)
  {
    forall j :: 0 <= j < k ==> CharAt(s, j) != 0
  }

  /** strncmp(fname, name, MAX_FILE_NAME) == 0: the strings agree at every
      position up to and including fname's terminator, within 32 bytes. */
  ghost predicate NamesMatch(fname: seq<byte>, name: seq<byte>)
  {
    forall k :: 0 <= k < MAX_FILE_NAME && NoNulBefore(fname, k) ==> CharAt(fname, k) == CharAt(name, k)
  }

  /** The lowest directory index at or after i whose name matches fname. */
  ghost function LookupFrom(img: Image, fname: seq<byte>, i: nat): (r: Option<nat>)
    decreases NumDirEntries(img) - i
    ensures r.Some? ==> i <= r.value < NumDirEntries(img) && NamesMatch(fname, DentryAt(img, r.value).name)
    ensures r.Some? ==> forall k :: i <= k < r.value ==> !NamesMatch(fname, DentryAt(img, k).name)
    ensures r.None? ==> forall k :: i <= k < NumDirEntries(img) ==> !NamesMatch(fname, DentryAt(img, k).name)
  {
    if i >= NumDirEntries(img) then None
    else if NamesMatch(fname, DentryAt(img, i).name) then Some(i)
    else LookupFrom(img, fname, i + 1)
  }

  ghost function Lookup(img: Image, fname: seq<byte>): Option<nat>
  {
    LookupFrom(img, fname, 0)
  }

  /** strncmp over the 32-byte fields, as a loop. */
  method CompareName(fname: seq<byte>, name: seq<byte>) returns (same: bool)
    ensures same == NamesMatch(fname, name)
  {
    var k := 0;
    while k < MAX_FILE_NAME
      invariant 0 <= k <= MAX_FILE_NAME
      invariant NoNulBefore(fname, k)
      invariant forall j :: 0 <= j < k ==> CharAt(fname, j) == CharAt(name, j)
    {
      if CharAt(fname, k) != CharAt(name, k) {
        return false;
      }
      if CharAt(fname, k) == 0 {
        assert forall m :: k < m < MAX_FILE_NAME ==> !NoNulBefore(fname, m);
        return true;
      }
      k := k + 1;
    }
    return true;
  }

  /** read_dentry_by_name: None stands for the -1 return (NULL name or no
      entry below num_dir_entries matches); otherwise the lowest matching
      entry is copied out. */
  method ReadDentryByName(img: Image, fname: Option<seq<byte>>) returns (r: Option<Dentry>)
    ensures fname.None? ==> r.None?
    ensures fname.Some? ==> (r.Some? <==> Lookup(img, fname.value).Some?)
    ensures fname.Some? && r.Some? ==> r.value == DentryAt(img, Lookup(img, fname.value).value)
  {
    if fname.None? {
      return None;
    }
    var i := 0;
    while i < NumDirEntries(img)
      invariant 0 <= i <= NumDirEntries(img)
      invariant Lookup(img, fname.value) == LookupFrom(img, fname.value, i)
    {
      var same := CompareName(fname.value, DentryAt(img, i).name);
      if same {
        return Some(DentryAt(img, i));
      }
      i := i + 1;
    }
    return None;
  }

  /** Every entry in the directory can be found by its own name, at its own
      index or at an earlier entry with the same name. */
  lemma {:induction false} OwnNameFindsEntry(img: Image, i: nat)
    requires i < NumDirEntries(img)
    ensures Lookup(img, DentryAt(img, i).name).Some?
    ensures Lookup(img, DentryAt(img, i).name).value <= i
  {
    var name := DentryAt(img, i).name;
    assert NamesMatch(name, name);
  }

  /** read_dentry_by_index: None stands for the -1 return. */
  function ReadDentryByIndex(img: Image, index: u32): (r: Option<Dentry>)
  {
    if index >= NumDirEntries(img) then None else Some(DentryAt(img, index))
  }

  /** Looking an index up and looking its name up agree: an index is refused
      exactly when it is past the directory, and an accepted entry's name
      resolves to an entry with that same name. */
  lemma IndexAndNameAgree(img: Image, index: u32)
    ensures ReadDentryByIndex(img, index).None? <==> index >= NumDirEntries(img)
    ensures ReadDentryByIndex(img, index).Some? ==>
      var name := ReadDentryByIndex(img, index).value.name;
      Lookup(img, name).Some? && Lookup(img, name).value <= index &&
      NamesMatch(name, DentryAt(img, Lookup(img, name).value).name)
  {
    if index < NumDirEntries(img) {
      OwnNameFindsEntry(img, index);
    }
  }

  // ---------------------------------------------------------------------
  // Inodes and data blocks

  /** Inode n is block n + 1 of the image. */
  function InodeAddr(n: nat): nat { 4096 * (n + 1) }

  function FileSize(img: Image, n: nat): u32 { WordAt(img, InodeAddr(n)) }

  /** data_block_num[k] of inode n; for k >= 1023 this reads past the inode,
      as the source's unchecked index does. */
  function BlockIndex(img: Image, n: nat, k: nat): u32 { WordAt(img, InodeAddr(n) + 4 + 4 * k) }

  /** Data block d follows the boot block and the num_inodes inode blocks. */
  function DataBlockAddr(img: Image, d: nat): nat { 4096 * (1 + NumInodes(img) + d) }

  /** The byte at position pos of the file whose inode is n. */
  function FileByte(img: Image, n: nat, pos: nat): byte
  {
    ByteAt(img, DataBlockAddr(img, BlockIndex(img, n, pos / 4096)) + pos % 4096)
  }

  /** The count bytes of the file whose inode is n, from position offset on. */
  ghost function FileBytes(img: Image, n: nat, offset: nat, count: nat): (r: seq<byte>)
    decreases count
    ensures |r| == count
  {
    if count == 0 then [] else FileBytes(img, n, offset, count - 1) + [FileByte(img, n, offset + count - 1)]
  }

  lemma FileBytesStep(img: Image, n: nat, offset: nat, count: nat)
    ensures FileBytes(img, n, offset, count + 1) == FileBytes(img, n, offset, count) + [FileByte(img, n, offset + count)]
  {
  }

  lemma {:induction false} FileBytesAt(img: Image, n: nat, offset: nat, count: nat, k: nat)
    requires k < count
    ensures FileBytes(img, n, offset, count)[k] == FileByte(img, n, offset + k)
    decreases count
  {
    if k < count - 1 {
      FileBytesAt(img, n, offset, count - 1, k);
    }
  }

  /** inode_t is one block: the 1023 index slots fill it after the size, so
      slot 1023 would be the next inode's size field. */
  lemma InodeLayout(img: Image, n: nat, k: nat)
    requires k < MAX_DATA_BLOCKS
    ensures InodeAddr(n) + 4 <= InodeAddr(n) + 4 + 4 * k && InodeAddr(n) + 4 + 4 * k + 4 <= InodeAddr(n + 1)
    ensures BlockIndex(img, n, MAX_DATA_BLOCKS) == FileSize(img, n + 1)
  {
  }

  /** Bytes a read may deliver before hitting the end of the file. */
  function Avail(img: Image, n: nat, offset: nat, length: nat): (a: nat)
    ensures a <= length
    ensures offset < FileSize(img, n) ==> a <= FileSize(img, n) - offset
    ensures offset >= FileSize(img, n) ==> a == 0
    ensures offset < FileSize(img, n) ==> a == length || a == FileSize(img, n) - offset
  {
    if offset >= FileSize(img, n) then 0
    else if length <= FileSize(img, n) - offset then length
    else FileSize(img, n) - offset
  }

  /** After copying byte j the read crosses into a new block whose index is
      not below num_data_blocks. */
  ghost predicate StepFails(img: Image, n: nat, offset: nat, j: nat)
  {
    (offset + j + 1) % 4096 == 0 && BlockIndex(img, n, (offset + j + 1) / 4096) >= NumDataBlocks(img)
  }

  /** The first j in [from, limit) at which StepFails holds, or limit. */
  ghost function FirstStepFailure(img: Image, n: nat, offset: nat, from: nat, limit: nat): (f: nat)
    decreases limit - from
    ensures from <= limit ==> from <= f <= limit
    ensures from > limit ==> f == limit
    ensures f < limit ==> StepFails(img, n, offset, f)
  {
    if from >= limit then limit
    else if StepFails(img, n, offset, from) then from
    else FirstStepFailure(img, n, offset, from + 1, limit)
  }

  /** The number of bytes read_data stores into buf. */
  ghost function Copied(img: Image, n: nat, offset: nat, length: nat): nat
  {
    if n >= NumInodes(img) then 0
    else
      var a := Avail(img, n, offset, length);
      var f := FirstStepFailure(img, n, offset, 0, a);
      if f < a then f + 1 else a
  }

  /** What read_data returns. */
  ghost function ReadDataResult(img: Image, n: nat, offset: nat, length: nat): int
  {
    if n >= NumInodes(img) then -1
    else
      var a := Avail(img, n, offset, length);
      if FirstStepFailure(img, n, offset, 0, a) < a then -1 else a
  }

  /** The in-block offset counted from offset % 4096 agrees with the one
      counted from offset. */
  lemma ModShift(o: nat, i: nat)
    ensures (o % 4096 + i) % 4096 == (o + i) % 4096
  {
    var q := o / 4096;
    assert o == 4096 * q + o % 4096;
    assert o + i == 4096 * q + (o % 4096 + i);
  }

  /** A position between the starts of block q and block q + 1 is in block
      q, at its distance from block q's start. */
  lemma DivFromBounds(pos: nat, q: nat)
    requires 4096 * q <= pos < 4096 * q + 4096
    ensures pos / 4096 == q && pos % 4096 == pos - 4096 * q
  {
  }

  /** read_data's in-block counter starts at offset % 4096 and is never
      reset, yet it is a multiple of 4096 exactly when the file position
      reaches the end of a block. */
  lemma CounterWraps(offset: nat, i: nat, blockNum: nat)
    requires 4096 * blockNum <= offset + i < 4096 * blockNum + 4096
    ensures (offset % 4096 + i + 1) % 4096 == 0 <==> offset + i + 1 == 4096 * blockNum + 4096
  {
    ModShift(offset, i + 1);
    if offset + i + 1 == 4096 * blockNum + 4096 {
      DivFromBounds(offset + i + 1, blockNum + 1);
    } else {
      DivFromBounds(offset + i + 1, blockNum);
    }
  }

  /** The search for the first failing step from `from` stops at i when no
      step in between fails and i is either the limit or a failing step. */
  lemma {:induction false} FirstFailureAt(img: Image, n: nat, offset: nat, from: nat, i: nat, a: nat)
    requires from <= i <= a
    requires forall k :: from <= k < i ==> !StepFails(img, n, offset, k)
    requires i == a || StepFails(img, n, offset, i)
    ensures FirstStepFailure(img, n, offset, from, a) == i
    decreases i - from
  {
    if from < i {
      FirstFailureAt(img, n, offset, from + 1, i, a);
    }
  }

  /** No step among the first j fails: the walk passes every block
      boundary it meets while copying its first j bytes. */
  ghost predicate NoFailBefore(img: Image, n: nat, offset: nat, j: nat)
    decreases j
  {
    j == 0 || (NoFailBefore(img, n, offset, j - 1) && !StepFails(img, n, offset, j - 1))
  }

  lemma {:induction false} NoFailBeforeAll(img: Image, n: nat, offset: nat, j: nat)
    requires NoFailBefore(img, n, offset, j)
    ensures forall k :: 0 <= k < j ==> !StepFails(img, n, offset, k)
    decreases j
  {
    if j > 0 {
      NoFailBeforeAll(img, n, offset, j - 1);
    }
  }

  /** A walk that passed every boundary and stops at byte i, because i is
      the length or the end of the file, is the successful read of i
      bytes. */
  lemma WalkEnds(img: Image, n: nat, offset: nat, length: nat, i: nat)
    requires n < NumInodes(img) && i <= length
    requires i == 0 || offset + i <= FileSize(img, n)
    requires i == length || offset + i >= FileSize(img, n)
    requires NoFailBefore(img, n, offset, i)
    ensures Avail(img, n, offset, length) == i
    ensures ReadDataResult(img, n, offset, length) == i && Copied(img, n, offset, length) == i
  {
    NoFailBeforeAll(img, n, offset, i);
    FirstFailureAt(img, n, offset, 0, i, i);
  }

  /** A walk that passed every boundary before byte i and fails after
      copying it is the failing read that copied i + 1 bytes. */
  lemma WalkFails(img: Image, n: nat, offset: nat, length: nat, i: nat)
    requires n < NumInodes(img) && i < length && offset + i < FileSize(img, n)
    requires NoFailBefore(img, n, offset, i) && StepFails(img, n, offset, i)
    ensures ReadDataResult(img, n, offset, length) == -1 && Copied(img, n, offset, length) == i + 1
  {
    NoFailBeforeAll(img, n, offset, i);
    FirstFailureAt(img, n, offset, 0, i, Avail(img, n, offset, length));
  }

  /** One step of read_data's loop in terms of file positions: data_ptr
      points at file byte offset + i; the incremented counter c is a
      multiple of 4096 exactly when the step ends the current block, and
      then the index the loop checks is the one StepFails looks at;
      otherwise the step stays in the block and does not fail. */
  lemma WalkStep(img: Image, n: nat, offset: nat, i: nat, blockNum: nat, dataPtr: int, c: nat)
    requires 4096 * blockNum <= offset + i < 4096 * blockNum + 4096
    requires dataPtr == DataBlockAddr(img, BlockIndex(img, n, blockNum)) + (offset + i - 4096 * blockNum)
    requires c == offset % 4096 + i + 1
    ensures ByteAt(img, dataPtr) == FileByte(img, n, offset + i)
    ensures c % 4096 == 0 ==> offset + i + 1 == 4096 * (blockNum + 1)
    ensures c % 4096 == 0 ==>
      (StepFails(img, n, offset, i) <==> BlockIndex(img, n, blockNum + 1) >= NumDataBlocks(img))
    ensures c % 4096 != 0 ==> !StepFails(img, n, offset, i) && offset + i + 1 < 4096 * blockNum + 4096
  {
    DivFromBounds(offset + i, blockNum);
    CounterWraps(offset, i, blockNum);
  }

  /** What read_data returns and the bytes it stores in buf. */
  datatype ReadOutcome = ReadOutcome(result: int, bytes: seq<byte>)

  /** read_data's loop as a function of its state: i bytes copied so far,
      the block number, the in-block counter and data_ptr. */
  ghost function Walk(img: Image, n: nat, offset: nat, length: nat, i: nat, blockNum: nat, blockOffset: nat, dataPtr: int): ReadOutcome
    decreases length - i
  {
    if i >= length then ReadOutcome(length, [])
    else if i + offset >= FileSize(img, n) then ReadOutcome(i, [])
    else
      var b := ByteAt(img, dataPtr);
      if (blockOffset + 1) % 4096 == 0 then
        if BlockIndex(img, n, blockNum + 1) >= NumDataBlocks(img) then ReadOutcome(-1, [b])
        else
          var rest := Walk(img, n, offset, length, i + 1, blockNum + 1, blockOffset + 1, DataBlockAddr(img, BlockIndex(img, n, blockNum + 1)));
          ReadOutcome(rest.result, [b] + rest.bytes)
      else
        var rest := Walk(img, n, offset, length, i + 1, blockNum, blockOffset + 1, dataPtr + 1);
        ReadOutcome(rest.result, [b] + rest.bytes)
  }

  /** The state the loop is in before copying byte i: the counters track
      the file position offset + i and no earlier step has failed. */
  ghost predicate WalkState(img: Image, n: nat, offset: nat, length: nat, i: nat, blockNum: nat, blockOffset: nat, dataPtr: int)
  {
    n < NumInodes(img) && i <= length &&
    (i == 0 || offset + i <= FileSize(img, n)) &&
    blockOffset == offset % 4096 + i &&
    4096 * blockNum <= offset + i < 4096 * blockNum + 4096 &&
    dataPtr == DataBlockAddr(img, BlockIndex(img, n, blockNum)) + (offset + i - 4096 * blockNum) &&
    NoFailBefore(img, n, offset, i)
  }

  /** From any such state the rest of the walk returns ReadDataResult and
      completes the bytes copied so far to the first Copied bytes of the
      file. */
  lemma {:induction false} WalkMeetsSpec(img: Image, n: nat, offset: nat, length: nat, i: nat, blockNum: nat, blockOffset: nat, dataPtr: int)
    requires WalkState(img, n, offset, length, i, blockNum, blockOffset, dataPtr)
    decreases length - i
    ensures Walk(img, n, offset, length, i, blockNum, blockOffset, dataPtr).result == ReadDataResult(img, n, offset, length)
    ensures FileBytes(img, n, offset, i) + Walk(img, n, offset, length, i, blockNum, blockOffset, dataPtr).bytes
         == FileBytes(img, n, offset, Copied(img, n, offset, length))
  {
    if i == length || i + offset >= FileSize(img, n) {
      WalkEnds(img, n, offset, length, i);
    } else if (blockOffset + 1) % 4096 == 0 && BlockIndex(img, n, blockNum + 1) >= NumDataBlocks(img) {
      WalkStep(img, n, offset, i, blockNum, dataPtr, blockOffset + 1);
      WalkFails(img, n, offset, length, i);
      FileBytesStep(img, n, offset, i);
    } else {
      var next := WalkNext(img, n, offset, length, i, blockNum, blockOffset, dataPtr);
      WalkMeetsSpec(img, n, offset, length, i + 1, next.0, blockOffset + 1, next.1);
      Regroup(FileBytes(img, n, offset, i), [ByteAt(img, dataPtr)], Walk(img, n, offset, length, i + 1, next.0, blockOffset + 1, next.1).bytes);
    }
  }

  /** A step that neither stops nor fails leads to the next loop state, and
      the walk from here is the byte at data_ptr followed by the walk from
      there. */
  lemma WalkNext(img: Image, n: nat, offset: nat, length: nat, i: nat, blockNum: nat, blockOffset: nat, dataPtr: int)
    returns (next: (nat, int))
    requires WalkState(img, n, offset, length, i, blockNum, blockOffset, dataPtr)
    requires i < length && i + offset < FileSize(img, n)
    requires !((blockOffset + 1) % 4096 == 0 && BlockIndex(img, n, blockNum + 1) >= NumDataBlocks(img))
    ensures WalkState(img, n, offset, length, i + 1, next.0, blockOffset + 1, next.1)
    ensures FileBytes(img, n, offset, i + 1) == FileBytes(img, n, offset, i) + [ByteAt(img, dataPtr)]
    ensures var rest := Walk(img, n, offset, length, i + 1, next.0, blockOffset + 1, next.1);
      Walk(img, n, offset, length, i, blockNum, blockOffset, dataPtr) == ReadOutcome(rest.result, [ByteAt(img, dataPtr)] + rest.bytes)
  {
    WalkStep(img, n, offset, i, blockNum, dataPtr, blockOffset + 1);
    FileBytesStep(img, n, offset, i);
    if (blockOffset + 1) % 4096 == 0 {
      next := (blockNum + 1, DataBlockAddr(img, BlockIndex(img, n, blockNum + 1)));
    } else {
      next := (blockNum, dataPtr + 1);
    }
  }

  /** The walk read_data starts, at offset's block and in-block offset, is
      the specified read. */
  lemma ReadWalkMeetsSpec(img: Image, n: nat, offset: nat, length: nat)
    requires n < NumInodes(img)
    ensures var o := Walk(img, n, offset, length, 0, offset / 4096, offset % 4096, DataBlockAddr(img, BlockIndex(img, n, offset / 4096)) + offset % 4096);
      o.result == ReadDataResult(img, n, offset, length) &&
      |o.bytes| == Copied(img, n, offset, length) &&
      o.bytes == FileBytes(img, n, offset, Copied(img, n, offset, length))
  {
    assert WalkState(img, n, offset, length, 0, offset / 4096, offset % 4096, DataBlockAddr(img, BlockIndex(img, n, offset / 4096)) + offset % 4096);
    WalkMeetsSpec(img, n, offset, length, 0, offset / 4096, offset % 4096, DataBlockAddr(img, BlockIndex(img, n, offset / 4096)) + offset % 4096);
    assert FileBytes(img, n, offset, 0) == [];
  }

  /** read_data: copies the file's bytes from offset on into buf, walking the
      inode's block list, and returns how many it copied; -1 for an inode
      past num_inodes, or when the walk steps into a block whose index is not
      below num_data_blocks (after storing the bytes up to that step). */
  method ReadData(img: Image, inode: u32, offset: u32, buf: array<byte>, length: u32) returns (r: int)
    requires inode < NumInodes(img) ==> length <= buf.Length
    modifies buf
    ensures r == ReadDataResult(img, inode, offset, length)
    ensures Copied(img, inode, offset, length) <= buf.Length
    ensures buf[..Copied(img, inode, offset, length)] == FileBytes(img, inode, offset, Copied(img, inode, offset, length))
    ensures buf[Copied(img, inode, offset, length)..] == old(buf[Copied(img, inode, offset, length)..])
  {
    if inode >= NumInodes(img) {
      return -1;
    }
    var copied;
    r, copied := ReadWalk(img, inode, offset, length);
    ReadWalkMeetsSpec(img, inode, offset, length);
    // The source stores each byte into buf as it copies it; buf never
    // overlaps the image, so storing the copied bytes once the walk stops
    // leaves buf in the same state.
    Store(buf, copied);
  }

  /** read_data's loop, giving back its return value and the bytes it
      copies. block_num and block_offset are uint32_t in the source; they
      stay below the file size, so they are kept here as plain naturals. */
  method ReadWalk(img: Image, inode: u32, offset: u32, length: u32) returns (r: int, copied: seq<byte>)
    ensures ReadOutcome(r, copied) ==
      Walk(img, inode, offset, length, 0, offset / 4096, offset % 4096, DataBlockAddr(img, BlockIndex(img, inode, offset / 4096)) + offset % 4096)
  {
    var blockNum: nat := offset / 4096;
    var blockOffset: nat := offset % 4096;
    var dataPtr := DataBlockAddr(img, BlockIndex(img, inode, blockNum)) + blockOffset;
    ghost var start := Walk(img, inode, offset, length, 0, blockNum, blockOffset, dataPtr);
    var i: nat := 0;
    copied := [];
    while i < length
      invariant start == ReadOutcome(Walk(img, inode, offset, length, i, blockNum, blockOffset, dataPtr).result,
                                     copied + Walk(img, inode, offset, length, i, blockNum, blockOffset, dataPtr).bytes)
    {
      if i + offset >= FileSize(img, inode) {
        return i, copied;
      }
      ghost var before := copied;
      var b := ByteAt(img, dataPtr);
      copied := copied + [b];
      blockOffset := blockOffset + 1;
      if blockOffset % 4096 == 0 {
        blockNum := blockNum + 1;
        if BlockIndex(img, inode, blockNum) >= NumDataBlocks(img) {
          return -1, copied;
        }
        dataPtr := DataBlockAddr(img, BlockIndex(img, inode, blockNum));
      } else {
        dataPtr := dataPtr + 1;
      }
      i := i + 1;
      Regroup(before, [b], Walk(img, inode, offset, length, i, blockNum, blockOffset, dataPtr).bytes);
    }
    r := length;
  }

  /** Stores bytes at the start of buf, leaving the rest as it was. The
      source stores each byte as it copies it; buf never overlaps the
      image, so storing the copied bytes when the walk stops leaves buf in
      the same state. */
  method Store(buf: array<byte>, bytes: seq<byte>)
    requires |bytes| <= buf.Length
    modifies buf
    ensures buf[..|bytes|] == bytes && buf[|bytes|..] == old(buf[|bytes|..])
  {
    forall k | 0 <= k < |bytes| {
      buf[k] := bytes[k];
    }
  }

  /** The count read_data returns, when it does not fail, is
      min(length, size - offset), or 0 at or past the end of the file; it
      never exceeds what it copied. */
  lemma ReadDataCount(img: Image, n: nat, offset: nat, length: nat)
    requires n < NumInodes(img)
    ensures ReadDataResult(img, n, offset, length) != -1 ==>
      ReadDataResult(img, n, offset, length) == Copied(img, n, offset, length) &&
      ReadDataResult(img, n, offset, length) ==
        (if offset >= FileSize(img, n) then 0
         else if length < FileSize(img, n) - offset then length else FileSize(img, n) - offset)
    ensures ReadDataResult(img, n, offset, length) == -1 ==>
      0 < Copied(img, n, offset, length) <= Avail(img, n, offset, length) &&
      StepFails(img, n, offset, Copied(img, n, offset, length) - 1)
  {
  }

  /** The index of the block a read starts in is never checked: a read that
      stays inside its first block succeeds whatever that index is. */
  lemma {:induction false} FirstBlockUnchecked(img: Image, n: nat, offset: nat, length: nat)
    requires n < NumInodes(img)
    requires offset % 4096 + length < 4096
    ensures ReadDataResult(img, n, offset, length) == Avail(img, n, offset, length)
    ensures Copied(img, n, offset, length) == Avail(img, n, offset, length)
  {
    var a := Avail(img, n, offset, length);
    var f := FirstStepFailure(img, n, offset, 0, a);
    ModShift(offset, f + 1);
  }

  // ---------------------------------------------------------------------
  // File operations

  /** The file operation tables a descriptor can be bound to. NoOps is the
      NULL pointer of zeroed memory. */
  datatype Ops = NoOps | StdinOps | StdoutOps | NullOps | RtcOps | DirOps | FileOps

  /** file_descriptor_t */
  datatype FileDescriptor = FileDescriptor(ops: Ops, inode: u32, position: u32, flags: u32)

  /** file_open: 0 when the name resolves, -1 otherwise (a NULL name
      included). */
  method FileOpen(img: Image, fname: Option<seq<byte>>) returns (r: int)
    ensures r == 0 <==> fname.Some? && Lookup(img, fname.value).Some?
    ensures r == 0 || r == -1
  {
    var dentry := ReadDentryByName(img, fname);
    r := if dentry.None? then -1 else 0;
  }

  /** dir_open: the same test as file_open. */
  method DirOpen(img: Image, fname: Option<seq<byte>>) returns (r: int)
    ensures r == 0 <==> fname.Some? && Lookup(img, fname.value).Some?
    ensures r == 0 || r == -1
  {
    r := FileOpen(img, fname);
  }

  function FileWrite(fd: int, buf: seq<byte>, nbytes: int): int { -1 }
  function FileClose(fd: int): int { 0 }
  function DirWrite(fd: int, buf: seq<byte>, nbytes: int): int { -1 }
  function DirClose(fd: int): int { 0 }

  /** Files and directories are read-only: their writes always fail and
      their closes always succeed, whatever the arguments. */
  lemma ReadOnlyFileOps(fd: int, buf: seq<byte>, nbytes: int)
    ensures FileWrite(fd, buf, nbytes) == -1 && DirWrite(fd, buf, nbytes) == -1
    ensures FileClose(fd) == 0 && DirClose(fd) == 0
  {
  }

  /** file_read: checks the type of directory entry 0 and then calls
      read_data with inode = num_inodes (and as length the word at byte 1 of
      the image, where the misaligned global inode pointer points), which
      always fails before copying; so buf is never written. */
  method FileRead(img: Image, fd: int, buf: array<byte>, nbytes: int) returns (r: int)
    modifies buf
    ensures buf[..] == old(buf[..])
    ensures r == 0 <==> DentryAt(img, 0).fileType == 2
    ensures r == 0 || r == -1
  {
    if DentryAt(img, 0).fileType == 2 {
      var bytesRead := ReadData(img, NumInodes(img), 0, buf, WordAt(img, 1));
      assert bytesRead == -1;
      return 0;
    }
    return -1;
  }

  /** dir_read: hands out the name of the entry at the descriptor's position
      in global[] and advances the position; 0 once the position has reached
      num_dir_entries. */
  method DirRead(img: Image, global: array<FileDescriptor>, fd: int, buf: array<byte>, nbytes: int) returns (r: int)
    requires 0 <= fd < global.Length
    requires global[fd].position < NumDirEntries(img) ==> MAX_FILE_NAME <= buf.Length
    modifies global, buf
    ensures old(global[fd].position) >= NumDirEntries(img) ==>
      r == 0 && global[..] == old(global[..]) && buf[..] == old(buf[..])
    ensures old(global[fd].position) < NumDirEntries(img) ==>
      r == 1 &&
      global[..] == old(global[..])[fd := old(global[fd]).(position := old(global[fd].position) + 1)] &&
      buf[..MAX_FILE_NAME] == DentryAt(img, old(global[fd].position)).name &&
      buf[MAX_FILE_NAME..] == old(buf[MAX_FILE_NAME..])
  {
    var fileDesc := global[fd];
    var dirPosition := fileDesc.position;
    if dirPosition >= NumDirEntries(img) {
      return 0;
    }
    var name := DentryAt(img, dirPosition).name;
    forall k | 0 <= k < MAX_FILE_NAME {
      buf[k] := name[k];
    }
    global[fd] := fileDesc.(position := fileDesc.position + 1);
    return 1;
  }

  /** dir_read2: reads the inode number at byte 100 + 64 * offset of the
      image and returns the 4-byte word at the start of that inode's block,
      with the source's 32-bit arithmetic. */
  function DirRead2(img: Image, offset: u32): int
  {
    var numInode := WordAt(img, 100 + Wrap32(64 * offset));
    AsInt32(WordAt(img, 4096 + Wrap32(numInode * 4096)))
  }

  /** For a directory slot of the boot block, dir_read2 returns the size of
      that entry's file (read as an int32_t), provided the inode number does
      not overflow the 32-bit multiplication. */
  lemma DirRead2IsFileSize(img: Image, k: u32)
    requires img.Coherent()
    requires k < MAX_DIR_ENTRIES
    requires DentryAt(img, k).inode as int * 4096 < TWO_32
    ensures DirRead2(img, k) == AsInt32(FileSize(img, DentryAt(img, k).inode))
  {
    var addr := 100 + 64 * k;
    assert Wrap32(64 * k) == 64 * k;
    var b := Bytes(img, DentryAddr(k), DENTRY_SIZE);
    assert DentryAddr(k) + 36 == addr;
    assert b[36] == ByteAt(img, addr) && b[37] == ByteAt(img, addr + 1);
    assert b[38] == ByteAt(img, addr + 2) && b[39] == ByteAt(img, addr + 3);
    var inode: int := DentryAt(img, k).inode;
    assert WordAt(img, addr) == inode;
    assert Wrap32(inode * 4096) == inode * 4096;
    assert 4096 + inode * 4096 == InodeAddr(inode);
  }
}
