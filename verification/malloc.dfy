/** The kernel heap (malloc.c, malloc.h): an address-ordered, first-fit
    free list of blocks in the 96 MiB window at 0xCA000000. Every block
    starts with a 16-byte header whose size field counts the header too;
    malloc hands out the address just past the header. The free list is
    modelled as the sequence of its blocks in list order, and the headers
    of allocated blocks as a map from header address to size field. */
module Malloc {
  import opened Types

  const KERNEL_DYNAMIC_BASE: nat := 0xCA00_0000
  /** 0xD0000000 - 0xCA000000 */
  const KERNEL_DYNAMIC_CAPACITY: nat := 0x600_0000
  /** sizeof(block_t): size, prev, next and 4 bytes of padding. */
  const HEADER_SIZE: nat := 16

  /** ALIGNED_SIZE(n) = (n & 0xFFFFFF80) + 128: n with its low seven bits
      cleared, plus 128. */
  function AlignedSize(n: nat): nat
  {
    n - n % 128 + 128
  }

  /** The size is a multiple of 128 strictly above n and at most 128 above
      it; a request that is already a multiple of 128 still grows by 128. */
  lemma AlignedSizeBounds(n: nat)
    ensures AlignedSize(n) % 128 == 0
    ensures n < AlignedSize(n) <= n + 128
    ensures n % 128 == 0 ==> AlignedSize(n) == n + 128
  {
  }

  lemma AlignedSizeExamples()
    ensures AlignedSize(1) == 128 && AlignedSize(127) == 128 && AlignedSize(128) == 256
    ensures AlignedSize(KERNEL_DYNAMIC_CAPACITY) == 0x600_0080
  {
  }

  /** real_size: the aligned size plus the block's header. */
  function RealSize(n: nat): nat
  {
    AlignedSize(n) + HEADER_SIZE
  }

  datatype Block = Block(addr: nat, size: nat)

  /** The end of the memory a block occupies: its size, but never less
      than its own header. */
  function End(b: Block): (e: nat)
    ensures e >= b.addr + HEADER_SIZE && e >= b.addr + b.size
  {
    b.addr + (if b.size < HEADER_SIZE then HEADER_SIZE else b.size)
  }

  predicate Disjoint(a: Block, b: Block)
  {
    End(a) <= b.addr || End(b) <= a.addr
  }

  predicate InHeap(b: Block)
  {
    KERNEL_DYNAMIC_BASE <= b.addr && End(b) <= KERNEL_DYNAMIC_BASE + KERNEL_DYNAMIC_CAPACITY
  }

  /** A well-formed free list: blocks in increasing address order, none
      overlapping the next, all inside the heap. */
  predicate Sorted(list: seq<Block>)
  {
    (forall j, k | 0 <= j < k < |list| :: End(list[j]) <= list[k].addr) &&
    (forall k | 0 <= k < |list| :: InHeap(list[k]))
  }

  /** The index of the block malloc's walk stops at, searching from i: the
      first whose size is at least realSize. */
  function FirstFitFrom(list: seq<Block>, realSize: nat, i: nat): (r: Option<nat>)
    requires i <= |list|
    ensures r.Some? ==> i <= r.value < |list| && list[r.value].size >= realSize &&
                        forall k | i <= k < r.value :: list[k].size < realSize
    ensures r.None? ==> forall k | i <= k < |list| :: list[k].size < realSize
    decreases |list| - i
  {
    if i == |list| then None
    else if list[i].size >= realSize then Some(i)
    else FirstFitFrom(list, realSize, i + 1)
  }

  function FirstFit(list: seq<Block>, realSize: nat): (r: Option<nat>)
  {
    FirstFitFrom(list, realSize, 0)
  }

  /** The first-fit choice is the only one: no earlier block is large
      enough, and None means no block at all is. */
  lemma FirstFitIsFirst(list: seq<Block>, realSize: nat)
    ensures FirstFit(list, realSize).None? <==> forall k | 0 <= k < |list| :: list[k].size < realSize
    ensures FirstFit(list, realSize).Some? ==>
      var i := FirstFit(list, realSize).value;
      i < |list| && list[i].size >= realSize && forall k | 0 <= k < i :: list[k].size < realSize
  {
  }

  /** Whether a block of size is used up whole by a request of realSize:
      the leftover could not hold a header. */
  predicate UsedWhole(size: nat, realSize: nat)
  {
    size - realSize < HEADER_SIZE
  }

  /** The free list after malloc takes realSize bytes from block i: the
      block leaves the list when the leftover is smaller than a header, and
      otherwise the leftover, starting realSize bytes in, takes its
      place. */
  function Carve(list: seq<Block>, i: nat, realSize: nat): (r: seq<Block>)
    requires i < |list| && list[i].size >= realSize
  {
    if UsedWhole(list[i].size, realSize) then list[..i] + list[i + 1..]
    else list[..i] + [Block(list[i].addr + realSize, list[i].size - realSize)] + list[i + 1..]
  }

  /** The block malloc hands out of block i, with the size its header
      keeps. */
  function Taken(list: seq<Block>, i: nat, realSize: nat): (b: Block)
    requires i < |list| && list[i].size >= realSize
    ensures b.addr == list[i].addr && b.size >= realSize
  {
    if UsedWhole(list[i].size, realSize) then list[i] else Block(list[i].addr, realSize)
  }

  /** Every block of the list starts at or after the end of x. */
  predicate Below(x: Block, list: seq<Block>)
  {
    forall k | 0 <= k < |list| :: End(x) <= list[k].addr
  }

  function Last(list: seq<Block>): Block
    requires list != []
  {
    list[|list| - 1]
  }

  lemma SortedCons(x: Block, rest: seq<Block>)
    requires Sorted(rest) && Below(x, rest) && InHeap(x)
    ensures Sorted([x] + rest)
  {
    var r := [x] + rest;
    assert forall k | 0 < k < |r| :: r[k] == rest[k - 1];
  }

  lemma SortedTail(list: seq<Block>)
    requires Sorted(list) && list != []
    ensures Sorted(list[1..]) && Below(list[0], list[1..])
  {
    assert forall k | 0 <= k < |list| - 1 :: list[1..][k] == list[k + 1];
  }

  /** Below survives a reshuffle that adds at most one block above x. */
  lemma BelowMultiset(x: Block, t: seq<Block>, extra: multiset<Block>, s: seq<Block>)
    requires Below(x, t) && multiset(s) <= multiset(t) + extra
    requires forall c | c in extra :: End(x) <= c.addr
    ensures Below(x, s)
  {
    forall k | 0 <= k < |s| ensures End(x) <= s[k].addr {
      assert s[k] in multiset(s);
      if s[k] !in extra {
        assert s[k] in multiset(t);
        var m :| 0 <= m < |t| && t[m] == s[k];
      }
    }
  }

  /** The free block carving leaves behind when it splits block i. */
  function Rest(list: seq<Block>, i: nat, realSize: nat): Block
    requires i < |list| && list[i].size >= realSize
  {
    Block(list[i].addr + realSize, list[i].size - realSize)
  }

  /** Dropping block i keeps the free list well formed. */
  lemma DropSorted(list: seq<Block>, i: nat)
    requires Sorted(list) && i < |list|
    ensures Sorted(list[..i] + list[i + 1..])
  {
    var r := list[..i] + list[i + 1..];
    forall k | 0 <= k < |r| ensures r[k] == list[if k < i then k else k + 1] {
      if k >= i {
        assert r[k] == list[i + 1..][k - i];
      }
    }
  }

  /** Replacing block i by a block inside it keeps the free list well
      formed. */
  lemma ShrinkSorted(list: seq<Block>, i: nat, c: Block)
    requires Sorted(list) && i < |list|
    requires list[i].addr <= c.addr && End(c) <= End(list[i])
    ensures Sorted(list[..i] + [c] + list[i + 1..])
  {
    var r := list[..i] + [c] + list[i + 1..];
    assert r == list[i := c];
  }

  /** Carving keeps the free list well formed. */
  lemma CarveSorted(list: seq<Block>, i: nat, realSize: nat)
    requires Sorted(list) && i < |list| && list[i].size >= realSize
    ensures Sorted(Carve(list, i, realSize))
  {
    if UsedWhole(list[i].size, realSize) {
      DropSorted(list, i);
    } else {
      ShrinkSorted(list, i, Rest(list, i, realSize));
    }
  }

  /** Carving removes block i and, when it splits it, adds the leftover;
      every other free block stays. */
  lemma CarveBlocks(list: seq<Block>, i: nat, realSize: nat)
    requires i < |list| && list[i].size >= realSize
    ensures multiset(Carve(list, i, realSize)) ==
      multiset(list) - multiset{list[i]} +
      (if UsedWhole(list[i].size, realSize) then multiset{} else multiset{Rest(list, i, realSize)})
  {
    var before, after := list[..i], list[i + 1..];
    assert list == before + [list[i]] + after;
    assert multiset(list) == multiset(before) + multiset{list[i]} + multiset(after);
    if UsedWhole(list[i].size, realSize) {
      assert multiset(Carve(list, i, realSize)) == multiset(before) + multiset(after);
    } else {
      assert Carve(list, i, realSize) == before + [Rest(list, i, realSize)] + after;
    }
  }

  /** The block handed out lies in the heap and overlaps no block left
      free. */
  lemma TakenDisjoint(list: seq<Block>, i: nat, realSize: nat)
    requires Sorted(list) && i < |list| && list[i].size >= realSize && realSize >= HEADER_SIZE
    ensures InHeap(Taken(list, i, realSize))
    ensures forall k | 0 <= k < |Carve(list, i, realSize)| :: Disjoint(Taken(list, i, realSize), Carve(list, i, realSize)[k])
  {
    var r := Carve(list, i, realSize);
    var t := Taken(list, i, realSize);
    assert End(t) <= End(list[i]);
    if UsedWhole(list[i].size, realSize) {
      assert forall k | 0 <= k < |r| :: r[k] == list[if k < i then k else k + 1];
    } else {
      assert End(t) == Rest(list, i, realSize).addr;
      assert forall k | 0 <= k < |r| :: r[k] == (if k == i then Rest(list, i, realSize) else list[k]);
    }
  }

  /** The free list after free(b + 16) walks it as written: the loop looks
      for consecutive blocks that bracket b's address and links b in between;
      a block above the last one is linked nowhere. */
  function Inserted(list: seq<Block>, b: Block): (r: seq<Block>)
    requires list != []
    ensures r != [] && r[0] == list[0]
    decreases |list|
  {
    if |list| == 1 then list
    else if list[0].addr < b.addr < list[1].addr then [list[0], b] + list[1..]
    else [list[0]] + Inserted(list[1..], b)
  }

  /** The free list after free of block b (its header address and size
      field): below the head it becomes the new head; otherwise it is
      linked where the walk finds it. An empty list, which only the
      corrected malloc can leave, takes b as its only block. */
  function FreeInto(list: seq<Block>, b: Block): (r: seq<Block>)
  {
    if list == [] || b.addr < list[0].addr then [b] + list
    else Inserted(list, b)
  }

  /** With no block above b, the walk links b nowhere. */
  lemma {:induction false} InsertedAbove(list: seq<Block>, b: Block)
    requires list != [] && forall k | 0 <= k < |list| :: b.addr < list[k].addr
    ensures Inserted(list, b) == list
    decreases |list|
  {
    if |list| > 1 {
      InsertedAbove(list[1..], b);
    }
  }

  /** A block freed above the last free block is lost: the list does not
      change. */
  lemma {:induction false} FreeAboveLastLeaks(list: seq<Block>, b: Block)
    requires list != [] && forall k | 0 <= k < |list| :: list[k].addr < b.addr
    ensures FreeInto(list, b) == list
    decreases |list|
  {
    if |list| > 1 {
      FreeAboveLastLeaks(list[1..], b);
    }
  }

  /** Freeing a block that overlaps no free block keeps the list well
      formed; the block joins the list exactly when the list is empty or
      some free block lies above it, and no free block is lost. */
  lemma FreeKeepsOrder(list: seq<Block>, b: Block)
    requires Sorted(list) && InHeap(b) && forall k | 0 <= k < |list| :: Disjoint(b, list[k])
    ensures Sorted(FreeInto(list, b))
    ensures multiset(FreeInto(list, b)) ==
      multiset(list) + (if list == [] || b.addr < Last(list).addr then multiset{b} else multiset{})
  {
    if list == [] || b.addr < list[0].addr {
      forall k | 0 <= k < |list| ensures End(b) <= list[k].addr {
        assert Disjoint(b, list[k]);
        assert list[0].addr <= list[k].addr;
      }
      SortedCons(b, list);
      if list != [] {
        assert list[0].addr <= Last(list).addr;
      }
    } else {
      InsertedKeepsOrder(list, b);
    }
  }

  lemma LastCons(x: Block, t: seq<Block>)
    requires t != []
    ensures Last([x] + t) == Last(t)
  {
  }

  /** The blocks inserting b leaves in the list: all of them, and b itself
      when some block lies above it. */
  lemma {:induction false} InsertedBlocks(list: seq<Block>, b: Block)
    requires Sorted(list) && forall k | 0 <= k < |list| :: Disjoint(b, list[k])
    requires list != [] && list[0].addr <= b.addr
    ensures multiset(Inserted(list, b)) ==
      multiset(list) + (if b.addr < Last(list).addr then multiset{b} else multiset{})
    decreases |list|
  {
    if |list| == 1 {
      assert Last(list) == list[0];
      assert !(b.addr < Last(list).addr);
    } else {
      var tail := list[1..];
      assert list == [list[0]] + tail;
      LastCons(list[0], tail);
      if list[0].addr < b.addr < list[1].addr {
        InsertedBetweenBlocks(list, b);
      } else {
        assert Disjoint(b, list[1]);
        SortedTail(list);
        assert forall k | 0 <= k < |tail| :: Disjoint(b, tail[k]) by {
          assert forall k | 0 <= k < |tail| :: tail[k] == list[k + 1];
        }
        InsertedBlocks(tail, b);
        InsertedPastHead(list, b, if b.addr < Last(tail).addr then multiset{b} else multiset{});
      }
    }
  }

  /** When the walk passes the head, the head stays and the rest of the
      list gains what inserting into the tail gains. */
  lemma InsertedPastHead(list: seq<Block>, b: Block, extra: multiset<Block>)
    requires |list| > 1 && !(list[0].addr < b.addr < list[1].addr)
    requires multiset(Inserted(list[1..], b)) == multiset(list[1..]) + extra
    ensures multiset(Inserted(list, b)) == multiset(list) + extra
  {
    assert list == [list[0]] + list[1..];
    assert Inserted(list, b) == [list[0]] + Inserted(list[1..], b);
  }

  /** Inserting b right after the head adds exactly b, which lies below the
      last block. */
  lemma InsertedBetweenBlocks(list: seq<Block>, b: Block)
    requires Sorted(list) && |list| > 1 && list[0].addr < b.addr < list[1].addr
    ensures b.addr < Last(list).addr
    ensures multiset(Inserted(list, b)) == multiset(list) + multiset{b}
  {
    var tail := list[1..];
    assert list == [list[0]] + tail;
    assert Inserted(list, b) == [list[0], b] + tail;
    assert list[1].addr <= Last(list).addr;
  }

  /** Inserting b between two neighbours it fits between keeps the list
      well formed. */
  lemma InsertBetweenSorted(list: seq<Block>, b: Block)
    requires Sorted(list) && InHeap(b) && forall k | 0 <= k < |list| :: Disjoint(b, list[k])
    requires |list| > 1 && list[0].addr < b.addr < list[1].addr
    ensures Sorted([list[0]] + ([b] + list[1..]))
  {
    SortedTail(list);
    var tail := list[1..];
    forall k | 0 <= k < |tail| ensures End(b) <= tail[k].addr {
      assert tail[k] == list[k + 1];
      assert Disjoint(b, list[k + 1]);
      assert list[1].addr <= list[k + 1].addr;
    }
    SortedCons(b, tail);
    assert Disjoint(b, list[0]);
    BelowMultiset(list[0], tail, multiset{b}, [b] + tail);
    SortedCons(list[0], [b] + tail);
  }

  /** Inserting keeps the free list well formed. */
  lemma {:induction false} InsertedSorted(list: seq<Block>, b: Block)
    requires Sorted(list) && InHeap(b) && forall k | 0 <= k < |list| :: Disjoint(b, list[k])
    requires list != [] && list[0].addr <= b.addr
    ensures Sorted(Inserted(list, b))
    decreases |list|
  {
    if |list| > 1 {
      if list[0].addr < b.addr < list[1].addr {
        InsertBetweenSorted(list, b);
      } else {
        var tail := list[1..];
        SortedTail(list);
        assert Disjoint(b, list[1]);
        assert forall k | 0 <= k < |tail| :: tail[k] == list[k + 1];
        InsertedSorted(tail, b);
        InsertedBlocks(tail, b);
        var rt := Inserted(tail, b);
        assert Disjoint(b, list[0]);
        BelowMultiset(list[0], tail, multiset{b}, rt);
        SortedCons(list[0], rt);
      }
    }
  }

  lemma InsertedKeepsOrder(list: seq<Block>, b: Block)
    requires Sorted(list) && InHeap(b) && forall k | 0 <= k < |list| :: Disjoint(b, list[k])
    requires list != [] && list[0].addr <= b.addr
    ensures Sorted(Inserted(list, b))
    ensures multiset(Inserted(list, b)) ==
      multiset(list) + (if b.addr < Last(list).addr then multiset{b} else multiset{})
  {
    InsertedSorted(list, b);
    InsertedBlocks(list, b);
  }

  /** The header block of the allocation whose header sits at a. */
  function Allocated(live: map<nat, nat>, a: nat): Block
    requires a in live
  {
    Block(a, live[a])
  }

  /** The heap is consistent: the free list is well formed, every
      allocated block lies in the heap, and no two blocks, free or
      allocated, overlap. */
  predicate HeapInvariant(free: seq<Block>, live: map<nat, nat>)
  {
    Sorted(free) &&
    (forall a | a in live :: InHeap(Allocated(live, a))) &&
    (forall a, k | a in live && 0 <= k < |free| :: Disjoint(Allocated(live, a), free[k])) &&
    (forall a, c | a in live && c in live && a != c :: Disjoint(Allocated(live, a), Allocated(live, c)))
  }

  /** A block inside y overlaps nothing y does not. */
  lemma DisjointInside(x: Block, y: Block, z: Block)
    requires Disjoint(x, y) && y.addr <= z.addr && End(z) <= End(y)
    ensures Disjoint(x, z)
  {
  }

  /** The free list malloc's first call leaves: one block from the end of
      the first allocation to 16 bytes before the end of the heap. */
  function FirstFree(realSize: nat): Block
    requires realSize + HEADER_SIZE <= KERNEL_DYNAMIC_CAPACITY
  {
    Block(KERNEL_DYNAMIC_BASE + realSize, KERNEL_DYNAMIC_CAPACITY - realSize - HEADER_SIZE)
  }

  /** The first call leaves a consistent heap. */
  lemma FirstCallInvariant(realSize: nat)
    requires HEADER_SIZE <= realSize && realSize + HEADER_SIZE <= KERNEL_DYNAMIC_CAPACITY
    ensures HeapInvariant([FirstFree(realSize)], map[KERNEL_DYNAMIC_BASE := realSize])
  {
    var live := map[KERNEL_DYNAMIC_BASE := realSize];
    assert Allocated(live, KERNEL_DYNAMIC_BASE) == Block(KERNEL_DYNAMIC_BASE, realSize);
  }

  /** No free block starts where an allocated block does. */
  lemma FreeNotLive(free: seq<Block>, live: map<nat, nat>, i: nat)
    requires HeapInvariant(free, live) && i < |free|
    ensures free[i].addr !in live
  {
    forall a | a in live ensures a != free[i].addr {
      assert Disjoint(Allocated(live, a), free[i]);
    }
  }

  /** The blocks left free after carving overlap no allocated block. */
  lemma CarveAwayFromLive(free: seq<Block>, live: map<nat, nat>, i: nat, realSize: nat)
    requires HeapInvariant(free, live) && i < |free| && free[i].size >= realSize
    ensures forall a, k | a in live && 0 <= k < |Carve(free, i, realSize)| ::
      Disjoint(Allocated(live, a), Carve(free, i, realSize)[k])
  {
    var r := Carve(free, i, realSize);
    CarveBlocks(free, i, realSize);
    forall a, k | a in live && 0 <= k < |r| ensures Disjoint(Allocated(live, a), r[k]) {
      assert r[k] in multiset(r);
      if !UsedWhole(free[i].size, realSize) && r[k] == Rest(free, i, realSize) {
        DisjointInside(Allocated(live, a), free[i], r[k]);
      } else {
        assert r[k] in multiset(free);
        var m :| 0 <= m < |free| && free[m] == r[k];
      }
    }
  }

  /** Handing out block i keeps the heap consistent: the new allocation
      comes out of a free block, so it overlaps no other allocation and no
      block still free, and its header address was not allocated before. */
  lemma MallocKeepsInvariant(free: seq<Block>, live: map<nat, nat>, i: nat, realSize: nat)
    requires HeapInvariant(free, live) && i < |free| && free[i].size >= realSize && realSize >= HEADER_SIZE
    ensures free[i].addr !in live
    ensures HeapInvariant(Carve(free, i, realSize), live[free[i].addr := Taken(free, i, realSize).size])
  {
    FreeNotLive(free, live, i);
    CarveSorted(free, i, realSize);
    TakenDisjoint(free, i, realSize);
    CarveAwayFromLive(free, live, i, realSize);
    var t := Taken(free, i, realSize);
    var live' := live[t.addr := t.size];
    assert Allocated(live', t.addr) == t;
    assert End(t) <= End(free[i]);
    forall a | a in live ensures Disjoint(Allocated(live, a), t) {
      DisjointInside(Allocated(live, a), free[i], t);
    }
    forall a | a in live' && a != t.addr ensures Allocated(live', a) == Allocated(live, a) {
    }
  }

  /** Freeing an allocation keeps the heap consistent. */
  lemma FreeKeepsInvariant(free: seq<Block>, live: map<nat, nat>, a: nat)
    requires HeapInvariant(free, live) && a in live
    ensures HeapInvariant(FreeInto(free, Allocated(live, a)), live - {a})
  {
    var b := Allocated(live, a);
    var r := FreeInto(free, b);
    var live' := live - {a};
    FreeKeepsOrder(free, b);
    forall c, k | c in live' && 0 <= k < |r| ensures Disjoint(Allocated(live', c), r[k]) {
      assert Allocated(live', c) == Allocated(live, c);
      assert r[k] in multiset(r);
      if r[k] != b {
        assert r[k] in multiset(free);
        var m :| 0 <= m < |free| && free[m] == r[k];
      }
    }
    forall c | c in live' ensures Allocated(live', c) == Allocated(live, c) {
    }
  }

  /** One step of free's walk past a pair of neighbours that do not
      bracket b. */
  lemma InsertedStep(list: seq<Block>, b: Block, k: nat)
    requires k + 1 < |list| && !(list[k].addr < b.addr < list[k + 1].addr)
    ensures list[..k] + Inserted(list[k..], b) == list[..k + 1] + Inserted(list[k + 1..], b)
  {
    var t := list[k..];
    assert t[0] == list[k] && t[1] == list[k + 1] && t[1..] == list[k + 1..];
    assert Inserted(t, b) == [list[k]] + Inserted(list[k + 1..], b);
    assert list[..k + 1] == list[..k] + [list[k]];
    Regroup(list[..k], [list[k]], Inserted(list[k + 1..], b));
  }

  /** The step of free's walk that links b between list[k] and list[k + 1]. */
  lemma InsertedLink(list: seq<Block>, b: Block, k: nat)
    requires k + 1 < |list| && list[k].addr < b.addr < list[k + 1].addr
    ensures list[..k] + Inserted(list[k..], b) == list[..k + 1] + [b] + list[k + 1..]
  {
    assert list[k..][1..] == list[k + 1..];
    assert list[..k + 1] == list[..k] + [list[k]];
  }

  /** What malloc returns, and the free list it leaves. */
  datatype Outcome = Outcome(ptr: nat, list: seq<Block>)

  /** A later malloc call as written: the first fit is carved, except that
      a block at the head that is used up whole stays the head, because
      only its neighbours' links are updated. */
  function AllocAsWritten(list: seq<Block>, realSize: nat): (o: Outcome)
    ensures o.ptr == 0 <==> FirstFit(list, realSize).None?
  {
    match FirstFit(list, realSize)
    case None => Outcome(0, list)
    case Some(i) =>
      Outcome(list[i].addr + HEADER_SIZE,
              if i == 0 && UsedWhole(list[i].size, realSize) then list else Carve(list, i, realSize))
  }

  /** malloc(1), free of it, then two more malloc(1) as written: the freed
      block becomes the head, fits exactly, and is handed out twice. The
      corrected carve unlinks it, so the next call gets the block after
      it. */
  lemma ExactFitHeadHandedOutTwice()
    ensures RealSize(1) == 0x90
    ensures FreeInto([FirstFree(0x90)], Block(KERNEL_DYNAMIC_BASE, 0x90)) ==
      [Block(KERNEL_DYNAMIC_BASE, 0x90), Block(KERNEL_DYNAMIC_BASE + 0x90, KERNEL_DYNAMIC_CAPACITY - 0xA0)]
    ensures var l := FreeInto([FirstFree(0x90)], Block(KERNEL_DYNAMIC_BASE, 0x90));
      AllocAsWritten(l, 0x90).ptr == KERNEL_DYNAMIC_BASE + HEADER_SIZE &&
      AllocAsWritten(AllocAsWritten(l, 0x90).list, 0x90).ptr == KERNEL_DYNAMIC_BASE + HEADER_SIZE
    ensures var l := FreeInto([FirstFree(0x90)], Block(KERNEL_DYNAMIC_BASE, 0x90));
      Carve(l, 0, 0x90) == [l[1]] && FirstFit(Carve(l, 0, 0x90), 0x90) == Some(0) &&
      Carve(l, 0, 0x90)[0].addr + HEADER_SIZE == KERNEL_DYNAMIC_BASE + 0xA0
  {
    var l := FreeInto([FirstFree(0x90)], Block(KERNEL_DYNAMIC_BASE, 0x90));
    assert FirstFit(l, 0x90) == Some(0);
    assert Carve(l, 0, 0x90) == l[1..];
  }

  /** The free block malloc's first call writes as written: its size is
      computed in 32 bits. */
  function FirstFreeAsWritten(realSize: nat): Block
  {
    Block(KERNEL_DYNAMIC_BASE + realSize, Wrap32(KERNEL_DYNAMIC_CAPACITY - realSize - HEADER_SIZE))
  }

  /** A first request of 0x5FFFF80 bytes or more (up to the capacity, which
      the guard lets through) leaves no room for the free block's header:
      as written its size wraps around and it reaches past the heap's end,
      0xFFFFFF60 bytes for a request of the whole capacity. Below that
      bound the first call's free block is the one the corrected malloc
      writes. */
  lemma FirstCallWraps(size: u32)
    requires 0 < size <= KERNEL_DYNAMIC_CAPACITY
    ensures RealSize(size) + HEADER_SIZE > KERNEL_DYNAMIC_CAPACITY <==> size >= 0x5FF_FF80
    ensures size >= 0x5FF_FF80 ==> !InHeap(FirstFreeAsWritten(RealSize(size)))
    ensures size < 0x5FF_FF80 ==> FirstFreeAsWritten(RealSize(size)) == FirstFree(RealSize(size))
    ensures FirstFreeAsWritten(RealSize(KERNEL_DYNAMIC_CAPACITY)).size == 0xFFFF_FF60
  {
    AlignedSizeBounds(size);
    assert RealSize(KERNEL_DYNAMIC_CAPACITY) == 0x600_0090;
  }

  /** The kernel heap: the free list headed by blocks, and the size field
      in the header of every block malloc has handed out and free has not
      taken back. */
  class Heap {
    /** Whether malloc's first call has laid out the heap. */
    var started: bool
    var free: seq<Block>
    var live: map<nat, nat>

    ghost predicate Valid()
      reads this
    {
      HeapInvariant(free, live) && (!started ==> free == [] && live == map[])
    }

    constructor ()
      ensures Valid() && !started
    {
      started := false;
      free := [];
      live := map[];
    }

    /** malloc, with the exact-fit unlink also moving the head and the first
        call refusing a request that leaves no room for the free block's
        header: NULL for 0 or more than the heap, NULL when no free block
        is large enough; otherwise the first block from the head with room
        for the request plus its header is carved and the address past the
        header is returned. */
    method Malloc(size: u32) returns (p: nat)
      requires Valid()
      modifies this
      ensures Valid()
      ensures p == 0 <==>
        size == 0 || size > KERNEL_DYNAMIC_CAPACITY ||
        (!old(started) && RealSize(size) + HEADER_SIZE > KERNEL_DYNAMIC_CAPACITY) ||
        (old(started) && FirstFit(old(free), RealSize(size)).None?)
      ensures p == 0 ==> started == old(started) && free == old(free) && live == old(live)
      ensures p != 0 ==> started && p >= HEADER_SIZE && p - HEADER_SIZE !in old(live) &&
                         p - HEADER_SIZE in live && live[p - HEADER_SIZE] >= RealSize(size)
      ensures p != 0 && !old(started) ==>
        p == KERNEL_DYNAMIC_BASE + HEADER_SIZE &&
        free == [FirstFree(RealSize(size))] && live == map[KERNEL_DYNAMIC_BASE := RealSize(size)]
      ensures p != 0 && old(started) ==>
        var i := FirstFit(old(free), RealSize(size)).value;
        p == old(free)[i].addr + HEADER_SIZE &&
        free == Carve(old(free), i, RealSize(size)) &&
        live == old(live)[old(free)[i].addr := Taken(old(free), i, RealSize(size)).size]
    {
      if size == 0 || size > KERNEL_DYNAMIC_CAPACITY {
        return 0;
      }
      var realSize := RealSize(size);
      if started {
        var list := free;
        var i := 0;
        while i < |list|
          invariant 0 <= i <= |list|
          invariant free == list && live == old(live) && started
          invariant FirstFitFrom(list, realSize, i) == FirstFit(list, realSize)
          decreases |list| - i
        {
          if list[i].size >= realSize {
            MallocKeepsInvariant(list, live, i, realSize);
            var t := Taken(list, i, realSize);
            live := live[t.addr := t.size];
            free := Carve(list, i, realSize);
            return t.addr + HEADER_SIZE;
          }
          i := i + 1;
        }
        return 0;
      }
      if realSize + HEADER_SIZE > KERNEL_DYNAMIC_CAPACITY {
        return 0;
      }
      FirstCallInvariant(realSize);
      live := map[KERNEL_DYNAMIC_BASE := realSize];
      free := [FirstFree(realSize)];
      started := true;
      return KERNEL_DYNAMIC_BASE + HEADER_SIZE;
    }

    /** calloc: exactly malloc of the product truncated to 32 bits, without
        zeroing. */
    method Calloc(each: u32, count: u32) returns (p: nat)
      requires Valid()
      modifies this
      ensures Valid()
      ensures var size := Wrap32(each * count);
        p == 0 <==>
          size == 0 || size > KERNEL_DYNAMIC_CAPACITY ||
          (!old(started) && RealSize(size) + HEADER_SIZE > KERNEL_DYNAMIC_CAPACITY) ||
          (old(started) && FirstFit(old(free), RealSize(size)).None?)
      ensures p == 0 ==> started == old(started) && free == old(free) && live == old(live)
      ensures p != 0 ==> started && p >= HEADER_SIZE && p - HEADER_SIZE !in old(live) &&
                         p - HEADER_SIZE in live && live[p - HEADER_SIZE] >= RealSize(Wrap32(each * count))
      ensures var size := Wrap32(each * count);
        p != 0 && !old(started) ==>
          p == KERNEL_DYNAMIC_BASE + HEADER_SIZE &&
          free == [FirstFree(RealSize(size))] && live == map[KERNEL_DYNAMIC_BASE := RealSize(size)]
      ensures var size := Wrap32(each * count);
        p != 0 && old(started) ==>
          var i := FirstFit(old(free), RealSize(size)).value;
          p == old(free)[i].addr + HEADER_SIZE &&
          free == Carve(old(free), i, RealSize(size)) &&
          live == old(live)[old(free)[i].addr := Taken(old(free), i, RealSize(size)).size]
    {
      p := Malloc(Wrap32(each * count));
    }

    /** free: NULL is ignored; otherwise the block leaves the allocations
        and is linked into the free list below the head, or between the
        first pair of neighbours whose addresses bracket it. */
    method Free(ptr: nat)
      requires Valid()
      requires ptr == 0 || (ptr >= HEADER_SIZE && ptr - HEADER_SIZE in live)
      modifies this
      ensures Valid() && started == old(started)
      ensures ptr == 0 ==> free == old(free) && live == old(live)
      ensures ptr != 0 ==>
        live == old(live) - {ptr - HEADER_SIZE} &&
        free == FreeInto(old(free), Allocated(old(live), ptr - HEADER_SIZE))
    {
      if ptr == 0 {
        return;
      }
      assert started;
      var list := free;
      var b := Allocated(live, ptr - HEADER_SIZE);
      FreeKeepsInvariant(list, live, ptr - HEADER_SIZE);
      live := live - {ptr - HEADER_SIZE};
      free := Linked(list, b);
    }

    /** free's list surgery: b below the head becomes the head; otherwise
        the walk over consecutive pairs links it after the first block whose
        successor lies above it, and the walk goes on to the end, finding
        no second place. */
    static method Linked(list: seq<Block>, b: Block) returns (r: seq<Block>)
      requires Sorted(list)
      ensures r == FreeInto(list, b)
    {
      if list == [] || b.addr < list[0].addr {
        return [b] + list;
      }
      r := list;
      var k := 0;
      var linked := false;
      while k + 1 < |list|
        invariant 0 <= k < |list|
        invariant !linked ==> r == list && Inserted(list, b) == list[..k] + Inserted(list[k..], b)
        invariant linked ==> r == Inserted(list, b) && b.addr < list[k].addr
        decreases |list| - k
      {
        if list[k].addr < b.addr < list[k + 1].addr {
          InsertedLink(list, b, k);
          r := list[..k + 1] + [b] + list[k + 1..];
          linked := true;
        } else if !linked {
          InsertedStep(list, b, k);
        } else {
          assert list[k].addr <= list[k + 1].addr;
        }
        k := k + 1;
      }
      if !linked {
        assert list[k..] == [list[k]];
        assert list[..k] + list[k..] == list;
      }
    }
  }
}
