/**
 The allocator itself: pointer surgery in one array of words.  Every method is proved
 against the value-level heap of module ArenaModel.
 */
module Arena {
  import opened WordRings
  import opened ArenaModel
  import opened ArenaMemory
  import opened ArenaRuns
  import opened Shift

  /** A word a release or an allocation may write: head node, block headers, free blocks. */
  ghost predicate Writable(bs: seq<Block>, head: int, x: int) {
    || head <= x < head + HEADER_SPAN
    || exists i :: 0 <= i < |bs| && bs[i].addr <= x < (if bs[i].free then bs[i].End() else bs[i].addr + UNIT)
  }

  ghost predicate OnlyWritable(m: Memory, m': Memory, bs: seq<Block>, head: int) {
    |m| == |m'| && forall x :: 0 <= x < |m| && m'[x] != m[x] ==> Writable(bs, head, x)
  }

  /** Payloads of live blocks are never writable. */
  lemma PayloadsSpared(limit: int, bs: seq<Block>, head: int, b: Block, x: int)
    requires AllGood(bs) && Ordered(bs) && Placed(limit, head, bs)
    requires b in UsedBlocks(bs) && b.addr + UNIT <= x < b.End()
    ensures !Writable(bs, head, x)
  {
    var j :| 0 <= j < |bs| && !bs[j].free && bs[j] == b;
    forall i | 0 <= i < |bs| ensures !(bs[i].addr <= x < (if bs[i].free then bs[i].End() else bs[i].addr + UNIT)) {
      assert bs[i].Good();
      if i < j { assert bs[i].End() <= bs[j].addr; } else if i > j { assert bs[j].End() <= bs[i].addr; }
    }
  }

  lemma NodeWritable(m: Memory, head: int, h: Heap, a: int, k: nat)
    requires Layout(h) && a in Nodes(head, h) && k < UNIT
    ensures Writable(h.blocks, head, a + k)
  {
    var s := AllNodes(head, h);
    var i :| 0 <= i < |s| && s[i] == a;
    if i > 0 {
      assert h.blocks[i - 1].Good() && h.blocks[i - 1].addr == a;
    }
  }

  lemma FreeNodeWritable(m: Memory, head: int, h: Heap, a: int, k: nat)
    requires Layout(h) && a in FreeNodes(head, h) && k < HEADER_SPAN
    ensures Writable(h.blocks, head, a + k)
  {
    if a != head {
      FreeIsAddr(h, a);
      assert h.blocks[IndexOf(Addrs(h.blocks), a)].Good();
    }
  }

  lemma JoinedWritable(bs: seq<Block>, k: int, head: int, x: int)
    requires 0 <= k < |bs| - 1 && bs[k].free && bs[k + 1].free && bs[k].End() == bs[k + 1].addr
    requires Writable(Joined(bs, k), head, x)
    ensures Writable(bs, head, x)
  {
    var r := Joined(bs, k);
    if !(head <= x < head + HEADER_SPAN) {
      var j :| 0 <= j < |r| && r[j].addr <= x < (if r[j].free then r[j].End() else r[j].addr + UNIT);
      JoinedAt(bs, k, j);
      var i := if j < k || (j == k && x < bs[k].End()) then j else j + 1;
      assert bs[i].addr <= x < (if bs[i].free then bs[i].End() else bs[i].addr + UNIT);
    }
  }

  lemma WritableCovered(bs: seq<Block>, head: int, x: int)
    requires AllGood(bs)
    ensures Writable(bs, head, x) ==> Covers(bs, x) || head <= x < head + HEADER_SPAN
  {
    if Writable(bs, head, x) && !(head <= x < head + HEADER_SPAN) {
      var i :| 0 <= i < |bs| && bs[i].addr <= x < (if bs[i].free then bs[i].End() else bs[i].addr + UNIT);
      assert bs[i].Good();
    }
  }

  /** A heap stays as it is while only payloads, or bytes it does not manage, change. */
  lemma Unwritten(m: Memory, m': Memory, head: int, heap: int, g: Heap)
    requires Represents(m, head, heap, g) && |m| == |m'|
    requires forall x :: 0 <= x < |m| && m'[x] != m[x] ==> !Writable(g.blocks, head, x)
    ensures Represents(m', head, heap, g)
  {
    hide Ordered, FreeAddrs, Ring, Spaced, Distinct, Headers, Writable;
    var s, f := AllNodes(head, g), FreeNodes(head, g);
    LayoutNodes(m, head, g);
    forall a, k: nat | a in Nodes(head, g) && k < UNIT ensures Field(m', a, k) == Field(m, a, k) {
      NodeWritable(m, head, g, a, k);
    }
    forall a, k: nat | a in Elements(f) && k < HEADER_SPAN ensures Field(m', a, k) == Field(m, a, k) {
      FreeNodeWritable(m, head, g, a, k);
    }
    assert head == s[0] && head in Nodes(head, g);
    SameRing(m, m', s, NEXT, PREV, Nodes(head, g), UNIT);
    SameRing(m, m', f, NEXT_FREE, PREV_FREE, Elements(f), HEADER_SPAN);
    assert Elements(Addrs(g.blocks)) <= Nodes(head, g);
    SameHeaders(m, m', heap, g.blocks, Nodes(head, g));
  }

  /** A heap none of whose bytes change stays as it is. */
  lemma Undisturbed(m: Memory, m': Memory, head: int, heap: int, g: Heap)
    requires Represents(m, head, heap, g) && |m| == |m'|
    requires forall x :: 0 <= x < |m| && m'[x] != m[x] ==> !Covers(g.blocks, x) && !(head <= x < head + HEADER_SPAN)
    ensures Represents(m', head, heap, g)
  {
    hide Headers, Rings, Writable, Covers;
    forall x | 0 <= x < |m| && m'[x] != m[x] ensures !Writable(g.blocks, head, x) {
      WritableCovered(g.blocks, head, x);
    }
    Unwritten(m, m', head, heap, g);
  }

  lemma SameRing(m: Memory, m': Memory, s: seq<int>, n: nat, p: nat, nodes: set<int>, span: nat)
    requires n < span && p < span && Ring(m, s, n, p) && Elements(s) <= nodes
    requires forall a, k: nat :: a in nodes && k < span ==> Field(m', a, k) == Field(m, a, k)
    ensures Ring(m', s, n, p)
  {
    forall i | 0 <= i < |s| ensures Linked(m', s, n, p, i) {
      assert s[i] in Elements(s) && Linked(m, s, n, p, i);
    }
  }

  lemma SameHeaders(m: Memory, m': Memory, heap: int, bs: seq<Block>, nodes: set<int>)
    requires Headers(m, heap, bs) && Elements(Addrs(bs)) <= nodes
    requires forall a, k: nat :: a in nodes && k < UNIT ==> Field(m', a, k) == Field(m, a, k)
    ensures Headers(m', heap, bs)
  {
    forall i | 0 <= i < |bs| ensures HeaderAt(m', heap, bs[i]) {
      assert Addrs(bs)[i] in Elements(Addrs(bs)) && HeaderAt(m, heap, bs[i]);
    }
  }

  /** What the header of block `i` tells: its neighbours, size and type. */
  lemma HeaderReads(m: Memory, head: int, heap: int, h: Heap, i: int)
    requires Represents(m, head, heap, h) && 0 <= i < |h.blocks|
    ensures var a := h.blocks[i].addr;
            && 0 <= a && a + HEADER_SPAN <= |m| && a in Nodes(head, h)
            && Field(m, a, ATTRS) == Attrs(h.blocks[i].size, heap, BlockType(h.blocks[i]))
            && Field(m, a, TAG) == h.blocks[i].tag
            && Field(m, a, NEXT) == NextOf(head, h, i) && Field(m, a, PREV) == AllNodes(head, h)[i]
            && HeapOf(Field(m, a, ATTRS)) == heap && SizeOf(Field(m, a, ATTRS)) == h.blocks[i].size
            && TypeOf(Field(m, a, ATTRS)) == BlockType(h.blocks[i])
    ensures h.blocks[i].Good()
  {
    hide Ordered, FreeAddrs, Elements, Distinct, SizeOf, TypeOf, HeapOf, Succ;
    assert h.blocks[i].Good() && HeaderAt(m, heap, h.blocks[i]);
    assert Linked(m, AllNodes(head, h), NEXT, PREV, i + 1);
    NodeMember(head, h, i + 1);
    AttrsParts(h.blocks[i].size, heap, BlockType(h.blocks[i]));
  }

  lemma AttrsParts(size: int, heap: int, typ: int)
    requires 0 <= size && size % 16 == 0 && 0 <= heap < 4 && 0 <= typ < 4
    ensures SizeOf(Attrs(size, heap, typ)) == size && HeapOf(Attrs(size, heap, typ)) == heap
    ensures TypeOf(Attrs(size, heap, typ)) == typ
  {
    var x, s, r := Attrs(size, heap, typ), size / 16, 4 * heap + typ;
    DivUnique(x, 16, s, r);
    DivUnique(x, 4, 4 * s + heap, typ);
    DivUnique(r, 4, heap, typ);
  }

  lemma AttrsUpdated(size: int, heap: int, typ: int, size': int, typ': int)
    requires 0 <= size && size % 16 == 0 && 0 <= heap < 4 && 0 <= typ < 4
    requires 0 <= size' && size' % 16 == 0 && 0 <= typ' < 4
    ensures WithSize(Attrs(size, heap, typ), size') == Attrs(size', heap, typ)
    ensures WithType(Attrs(size, heap, typ), typ') == Attrs(size, heap, typ')
  {
    AttrsParts(size, heap, typ);
  }

  lemma HeadReads(m: Memory, head: int, heap: int, h: Heap)
    requires Represents(m, head, heap, h)
    ensures 0 <= head && head + HEADER_SPAN <= |m| && head in Nodes(head, h)
    ensures Field(m, head, ATTRS) == Attrs(0, heap, TYPE_HEAD) && TypeOf(Field(m, head, ATTRS)) == TYPE_HEAD
    ensures SizeOf(Field(m, head, ATTRS)) == 0
    ensures Field(m, head, NEXT) == Succ(AllNodes(head, h), 0)
    ensures Field(m, head, NEXT_FREE) == Succ(FreeNodes(head, h), 0)
  {
    hide Layout, Headers, SizeOf, TypeOf, HeapOf;
    LayoutNodes(m, head, h);
    assert Linked(m, AllNodes(head, h), NEXT, PREV, 0) && Linked(m, FreeNodes(head, h), NEXT_FREE, PREV_FREE, 0);
    NodeMember(head, h, 0);
    AttrsParts(0, heap, TYPE_HEAD);
  }

  /** A region of whole units inside the memory that can hold a free header. */
  predicate Region(limit: int, start: int, size: int) {
    0 <= start && start % UNIT == 0 && size % UNIT == 0 && 2 * UNIT <= size && start + size <= limit
  }

  predicate Disjoint(a: int, asize: int, b: int, bsize: int) {
    a + asize <= b || b + bsize <= a
  }

  ghost predicate HeadReady(m: Memory, head: int, heap: int) {
    && Field(m, head, NEXT) == Field(m, head, PREV) == head
    && Field(m, head, NEXT_FREE) == Field(m, head, PREV_FREE) == head
    && Field(m, head, ATTRS) == Attrs(0, heap, TYPE_HEAD)
  }

  lemma EmptyHeap(m: Memory, head: int, heap: int)
    requires 0 <= heap < NHEAP && 0 <= head && head + HEADER_SPAN <= |m| && HeadReady(m, head, heap)
    ensures Represents(m, head, heap, Heap([], []))
  {
    var h := Heap([], []);
    assert AllNodes(head, h) == [head] && FreeNodes(head, h) == [head];
    assert Linked(m, [head], NEXT, PREV, 0) && Linked(m, [head], NEXT_FREE, PREV_FREE, 0);
  }

  lemma EmptyHeaps(m: Memory, heads: int)
    requires 0 <= heads && heads + NHEAP * HEADER_SPAN <= |m| < WORD
    requires HeadReady(m, HeadOf(heads, 0), 0) && HeadReady(m, HeadOf(heads, 1), 1)
    ensures HeapsValid(m, heads, [Heap([], []), Heap([], [])])
  {
    EmptyHeap(m, HeadOf(heads, 0), 0);
    EmptyHeap(m, HeadOf(heads, 1), 1);
  }

  /** The first injection into a heap makes the region its one free block. */
  lemma FirstInjection(b: Block)
    ensures Inject(Heap([], []), b) == Heap([b.Freed()], [b.addr])
  {
    var h := Heap([], []);
    assert LinkedIn(h, 0, b).blocks == [b];
    assert Marked([b], 0) == [b.Freed()];
  }

  ghost predicate ClearOf(bs: seq<Block>, start: int, size: int) {
    forall i :: 0 <= i < |bs| ==> Disjoint(bs[i].addr, bs[i].size, start, size)
  }

  lemma ClearOutside(heads: int, n: int, h: Heap, b: Block)
    requires 0 <= n < NHEAP && ClearOf(h.blocks, b.addr, b.size) && Disjoint(heads, NHEAP * HEADER_SPAN, b.addr, b.size)
    ensures AllOutside(heads, n, h, b)
  {
  }

  /** Preparing the header of a region outside both heaps disturbs neither. */
  lemma RegionReady(m: Memory, m': Memory, heads: int, hs: seq<Heap>, n: int, b: Block)
    requires HeapsValid(m, heads, hs) && 0 <= n < NHEAP && b.tag == Field(m', b.addr, TAG) && !b.free
    requires Region(|m|, b.addr, b.size) && Disjoint(heads, NHEAP * HEADER_SPAN, b.addr, b.size)
    requires ClearOf(hs[0].blocks, b.addr, b.size) && ClearOf(hs[1].blocks, b.addr, b.size)
    requires |m'| == |m| && forall x :: 0 <= x < |m| && x != b.addr + ATTRS && x != b.addr + TAG ==> m'[x] == m[x]
    requires m'[b.addr + ATTRS] == Attrs(b.size, n, TYPE_USED)
    ensures HeapsValid(m', heads, hs) && Injectable(m', heads, hs, n, b)
  {
    hide Layout, Headers, Rings, SettledBut, ClearOf, Covers, AllNodes, Represents;
    forall k | 0 <= k < NHEAP ensures HeapValid(m', heads, k, hs[k]) && AllOutside(heads, k, hs[k], b) {
      ClearOutside(heads, k, hs[k], b);
      assert Outside(heads, k, hs[k], b.addr + ATTRS) && Outside(heads, k, hs[k], b.addr + TAG);
      HeapIsValid(m, heads, hs, k);
      Undisturbed(m, m', HeadOf(heads, k), k, hs[k]);
    }
    HeapPlaced(m, heads, hs, n);
    RegionPlaced(|m|, HeadOf(heads, n), b);
  }

  lemma HeapPlaced(m: Memory, heads: int, hs: seq<Heap>, n: int)
    requires HeapsValid(m, heads, hs) && 0 <= n < NHEAP
    ensures 0 <= HeadOf(heads, n) && HeadOf(heads, n) + HEADER_SPAN <= |m|
  {
  }

  lemma EmptyClear(b: Block)
    ensures ClearOf([], b.addr, b.size)
  {
  }

  lemma RegionPlaced(limit: int, head: int, b: Block)
    requires 0 <= head && head + HEADER_SPAN <= limit && b.End() <= limit && Disjoint(head, HEADER_SPAN, b.addr, b.size)
    ensures Placed(limit, head, [b])
  {
  }

  function HeadOf(heads: int, n: int): int { heads + HEADER_SPAN * n }

  /** Heap `n` lies in memory as `h` says, and no two of its free blocks touch. */
  ghost predicate HeapValid(m: Memory, heads: int, n: int, h: Heap) {
    Represents(m, HeadOf(heads, n), n, h) && Settled(h.blocks)
  }

  /** Byte `x` is neither in the head node nor in a block of heap `n`. */
  ghost predicate Outside(heads: int, n: int, h: Heap, x: int) {
    !Covers(h.blocks, x) && !(HeadOf(heads, n) <= x < HeadOf(heads, n) + HEADER_SPAN)
  }

  /** Both heaps are valid and share no byte, head nodes included. */
  ghost predicate HeapsValid(m: Memory, heads: int, hs: seq<Heap>) {
    && |hs| == NHEAP && |m| < WORD
    && HeapValid(m, heads, 0, hs[0]) && HeapValid(m, heads, 1, hs[1])
    && forall x :: Outside(heads, 0, hs[0], x) || Outside(heads, 1, hs[1], x)
  }

  lemma HeapIsValid(m: Memory, heads: int, hs: seq<Heap>, n: int)
    requires HeapsValid(m, heads, hs) && 0 <= n < NHEAP
    ensures HeapValid(m, heads, n, hs[n])
  {
  }

  /** A step that keeps to what it may write in heap `n` leaves both heaps valid. */
  lemma HeapsKept(m: Memory, m': Memory, heads: int, hs: seq<Heap>, n: int, h': Heap, bs: seq<Block>)
    requires HeapsValid(m, heads, hs) && 0 <= n < NHEAP
    requires HeapValid(m', heads, n, h') && SameCover(h'.blocks, hs[n].blocks)
    requires AllGood(bs) && SameCover(bs, hs[n].blocks) && OnlyWritable(m, m', bs, HeadOf(heads, n))
    ensures HeapsValid(m', heads, hs[n := h'])
  {
    hide Layout, Represents, Covers, SettledBut, Writable;
    var k := 1 - n;
    forall x | 0 <= x < |m| && m'[x] != m[x] ensures Outside(heads, k, hs[k], x) {
      WritableCovered(bs, HeadOf(heads, n), x);
      assert Covers(bs, x) <==> Covers(hs[n].blocks, x);
      assert !Outside(heads, n, hs[n], x);
    }
    Undisturbed(m, m', HeadOf(heads, k), k, hs[k]);
    forall x ensures Outside(heads, n, h', x) <==> Outside(heads, n, hs[n], x) {
      assert Covers(h'.blocks, x) <==> Covers(hs[n].blocks, x);
    }
  }

  /** The predecessor's header decides, as the code reads it, whether the blocks join. */
  lemma PreviousReads(m: Memory, head: int, heap: int, h: Heap, i: int)
    requires Represents(m, head, heap, h) && 0 <= i < |h.blocks|
    ensures var pah := AllNodes(head, h)[i];
            && 0 <= pah && pah + HEADER_SPAN <= |m|
            && (JoinsPrevious(h.blocks, i) ==> pah == h.blocks[i - 1].addr)
            && (TypeOf(Field(m, pah, ATTRS)) == TYPE_FREE && pah + SizeOf(Field(m, pah, ATTRS)) == h.blocks[i].addr
                <==> JoinsPrevious(h.blocks, i))
  {
    hide Layout, Headers, Rings, Placed, TypeOf, SizeOf, HeapOf;
    HeadReads(m, head, heap, h);
    if i > 0 {
      HeaderReads(m, head, heap, h, i - 1);
    }
  }

  lemma NextReads(m: Memory, head: int, heap: int, h: Heap, k: int)
    requires Represents(m, head, heap, h) && 0 <= k < |h.blocks|
    ensures var nah := NextOf(head, h, k);
            && 0 <= nah && nah + HEADER_SPAN <= |m|
            && (JoinsNext(h.blocks, k) ==> nah == h.blocks[k + 1].addr)
            && (TypeOf(Field(m, nah, ATTRS)) == TYPE_FREE && h.blocks[k].End() == nah <==> JoinsNext(h.blocks, k))
  {
    hide Layout, Headers, Rings, Placed, TypeOf, SizeOf, HeapOf, NextOf;
    HeadReads(m, head, heap, h);
    NextInNodes(head, h, k);
    if k + 1 < |h.blocks| {
      HeaderReads(m, head, heap, h, k + 1);
    }
  }

  lemma AbsorbNext(head: int, h: Heap, i: int)
    requires 0 < i < |h.blocks|
    ensures |AbsorbIntoPrevious(h, i).blocks| == |h.blocks| - 1
    ensures NextOf(head, AbsorbIntoPrevious(h, i), i - 1) == NextOf(head, h, i)
    ensures AbsorbIntoPrevious(h, i).blocks[i - 1].addr == h.blocks[i - 1].addr
  {
    var b := AbsorbIntoPrevious(h, i);
    NextInNodes(head, b, i - 1);
    NextInNodes(head, h, i);
    JoinedAt(Marked(h.blocks, i), i - 1, i - 1);
    if i + 1 < |h.blocks| {
      JoinedAt(Marked(h.blocks, i), i - 1, i);
    }
  }

  lemma PushNext(head: int, h: Heap, i: int)
    requires 0 <= i < |h.blocks|
    ensures NextOf(head, PushFree(h, i), i) == NextOf(head, h, i)
    ensures PushFree(h, i).blocks[i].addr == h.blocks[i].addr
  {
    NextInNodes(head, PushFree(h, i), i);
    NextInNodes(head, h, i);
  }

  lemma WidenToMarked(m: Memory, m': Memory, bs: seq<Block>, i: int, head: int)
    requires 0 <= i < |bs| && bs[i].Good() && OnlyWritable(m, m', bs, head)
    ensures OnlyWritable(m, m', Marked(bs, i), head)
  {
    hide Writable;
    forall x | 0 <= x < |m| && m'[x] != m[x] ensures Writable(Marked(bs, i), head, x) {
      MarkedWritable(bs, i, head, x);
    }
  }

  /** What the second half of a release writes was writable before the first half. */
  lemma BackWritable(m0: Memory, m1: Memory, m2: Memory, h: Heap, i: int, head: int)
    requires 0 <= i < |h.blocks| && !h.blocks[i].free
    requires OnlyWritable(m0, m1, Marked(h.blocks, i), head)
    requires OnlyWritable(m1, m2, ReleasedBack(h, i).blocks, head)
    ensures OnlyWritable(m0, m2, Marked(h.blocks, i), head)
  {
    hide Writable;
    var bs := Marked(h.blocks, i);
    forall x | 0 <= x < |m0| && m2[x] != m0[x] ensures Writable(bs, head, x) {
      if m1[x] == m0[x] {
        assert Writable(ReleasedBack(h, i).blocks, head, x);
        if JoinsPrevious(h.blocks, i) {
          JoinedWritable(bs, i - 1, head, x);
        }
      }
    }
  }

  class Arena {
    const mem: array<int>
    // Address of __malloc_head[0]; the two head nodes lie one behind the other.
    const heads: int
    ghost var heaps: seq<Heap>

    /**
     `mem_init`, init.c:11-38.  The main heap is one array, the low-memory heap runs up to
     the end of low memory as the BIOS reports it.
     */
    constructor MemInit(memory: array<int>, malloc_head: int, mainHeap: int, mainSize: int, lowmemHeap: int, lowmemEnd: int)
      requires memory.Length < WORD
      requires Region(memory.Length, mainHeap, mainSize) && Region(memory.Length, lowmemHeap, SizeOf(lowmemEnd - lowmemHeap))
      requires 0 <= malloc_head && malloc_head + NHEAP * HEADER_SPAN <= memory.Length
      requires Disjoint(malloc_head, NHEAP * HEADER_SPAN, mainHeap, mainSize)
      requires Disjoint(malloc_head, NHEAP * HEADER_SPAN, lowmemHeap, SizeOf(lowmemEnd - lowmemHeap))
      requires Disjoint(mainHeap, mainSize, lowmemHeap, SizeOf(lowmemEnd - lowmemHeap))
      modifies memory
      ensures Valid() && mem == memory && heads == malloc_head
      ensures heaps[0].blocks == [Block(mainHeap, mainSize, true, MALLOC_FREE)]
      ensures heaps[1].blocks == [Block(lowmemHeap, SizeOf(lowmemEnd - lowmemHeap), true, MALLOC_FREE)]
    {
      mem := memory;
      heads := malloc_head;
      heaps := [Heap([], []), Heap([], [])];
      new;
      var fp := heads;
      for i := 0 to NHEAP
        invariant mem == memory && heads == malloc_head && heaps == [Heap([], []), Heap([], [])] && fp == HeadAt(i)
        invariant forall n :: 0 <= n < i ==> HeadReady(mem[..], HeadAt(n), n)
      {
        InitHead(fp, i);
        fp := fp + HEADER_SPAN;
      }
      assert HeadReady(mem[..], HeadAt(0), 0) && HeadReady(mem[..], HeadAt(1), 1);
      EmptyHeaps(mem[..], heads);
      EmptyClear(Block(mainHeap, mainSize, true, MALLOC_FREE));
      InitHeap(mainHeap, 0, mainSize);
      InitHeap(lowmemHeap, 1, SizeOf(lowmemEnd - lowmemHeap));
    }

    /** One head node, init.c:20-24. */
    method InitHead(fp: int, i: int)
      requires 0 <= fp && fp + HEADER_SPAN <= mem.Length
      modifies mem
      ensures HeadReady(mem[..], fp, i)
      ensures forall x :: 0 <= x < mem.Length && !(fp <= x < fp + HEADER_SPAN) ==> mem[x] == old(mem[x])
    {
      mem[fp + NEXT], mem[fp + PREV], mem[fp + NEXT_FREE], mem[fp + PREV_FREE] := fp, fp, fp, fp;
      mem[fp + ATTRS] := TYPE_HEAD + i * 4;
      mem[fp + TAG] := MALLOC_HEAD;
    }

    /** Prepare the header of a fresh region and inject it, init.c:28-31 and 34-37. */
    method InitHeap(fp: int, heap: int, size: int)
      requires Valid() && 0 <= heap < NHEAP && heaps[heap] == Heap([], [])
      requires Region(mem.Length, fp, size) && Disjoint(heads, NHEAP * HEADER_SPAN, fp, size)
      requires ClearOf(heaps[1 - heap].blocks, fp, size)
      modifies mem, `heaps
      ensures Valid() && |heaps| == NHEAP && heaps[1 - heap] == old(heaps)[1 - heap]
      ensures heaps[heap] == Heap([Block(fp, size, true, MALLOC_FREE)], [fp])
    {
      ghost var m0 := mem[..];
      mem[fp + ATTRS] := TYPE_USED + heap * 4;
      mem[fp + ATTRS] := WithSize(mem[fp + ATTRS], size);
      ghost var b := Block(fp, size, false, Field(mem[..], fp, TAG));
      EmptyClear(b);
      RegionReady(m0, mem[..], heads, heaps, heap, b);
      FirstInjection(b);
      InjectFreeBlock(fp, heap, b);
    }

    function HeadAt(n: int): int { HeadOf(heads, n) }

    ghost predicate Valid()
      reads this, mem
    {
      HeapsValid(mem[..], heads, heaps)
    }

    function Get(a: int, k: nat): (v: int)
      requires 0 <= a && a + k < mem.Length
      reads mem
      ensures v == Field(mem[..], a, k)
    {
      mem[a + k]
    }

    /** One pointer or attribute store, with the bookkeeping of what has been touched since `m0`. */
    method SetField(a: int, k: nat, v: int, ghost m0: Memory, ghost nodes: set<int>, ghost touched: set<(int, nat)>)
      requires Spaced(m0, nodes) && a in nodes && k < HEADER_SPAN
      requires KeptBut(m0, mem[..], nodes, touched)
      modifies mem
      ensures KeptBut(m0, mem[..], nodes, touched + {(a, k)})
      ensures Field(mem[..], a, k) == v
      ensures forall b, j: nat {:trigger Field(mem[..], b, j)} :: b in nodes && j < HEADER_SPAN && (b != a || j != k) ==>
                Field(mem[..], b, j) == Field(old(mem[..]), b, j)
    {
      StoreField(m0, mem[..], nodes, touched, a, k, v);
      StoreField(mem[..], mem[..], nodes, {}, a, k, v);
      mem[a + k] := v;
    }

    /** The stores of lines 25-28 of free.c. */
    method AbsorbStoresTo(ah: int, pah: int, nah: int, ghost n: int, ghost h: Heap, ghost i: int) returns (ghost touched: set<(int, nat)>)
      requires Represents(mem[..], HeadAt(n), n, h) && Settled(h.blocks)
      requires 0 <= i < |h.blocks| && !h.blocks[i].free && JoinsPrevious(h.blocks, i)
      requires ah == h.blocks[i].addr && pah == h.blocks[i - 1].addr && nah == NextOf(HeadAt(n), h, i)
      modifies mem
      ensures var nodes := Nodes(HeadAt(n), h);
        && pah in nodes && nah in nodes && Layout(h)
        && touched == {(pah, ATTRS), (pah, NEXT), (nah, PREV)} && KeptBut(old(mem[..]), mem[..], nodes, touched)
        && Field(mem[..], pah, ATTRS) == Attrs(h.blocks[i - 1].size + h.blocks[i].size, n, TYPE_FREE)
        && Field(mem[..], pah, NEXT) == nah && Field(mem[..], nah, PREV) == pah
    {
      hide Layout, Placed, Headers, Rings, SettledBut, Spaced, KeptBut, NextOf, Nodes, HeadAt;
      hide SizeOf, TypeOf, HeapOf, WithSize, Covers;
      ghost var m0, head := mem[..], HeadAt(n);
      ghost var nodes := Nodes(head, h);
      LayoutNodes(m0, head, h);
      HeaderReads(m0, head, n, h, i);
      HeaderReads(m0, head, n, h, i - 1);
      NextInNodes(head, h, i);
      AttrsUpdated(h.blocks[i - 1].size, n, TYPE_FREE, h.blocks[i - 1].size + h.blocks[i].size, TYPE_FREE);
      SetField(pah, ATTRS, WithSize(Get(pah, ATTRS), SizeOf(Get(pah, ATTRS)) + SizeOf(Get(ah, ATTRS))), m0, nodes, {});
      SetField(pah, NEXT, nah, m0, nodes, {(pah, ATTRS)});
      SetField(nah, PREV, pah, m0, nodes, {(pah, ATTRS), (pah, NEXT)});
      touched := {(pah, ATTRS), (pah, NEXT), (nah, PREV)};
      assert {(pah, ATTRS), (pah, NEXT)} + {(nah, PREV)} == touched;
    }

    /** Lines 25-28 of free.c: coalesce into the previous block. */
    method AbsorbIntoPrevious(ah: int, pah: int, nah: int, ghost n: int, ghost h: Heap, ghost i: int)
      requires Represents(mem[..], HeadAt(n), n, h) && Settled(h.blocks)
      requires 0 <= i < |h.blocks| && !h.blocks[i].free && JoinsPrevious(h.blocks, i)
      requires ah == h.blocks[i].addr && pah == h.blocks[i - 1].addr && nah == NextOf(HeadAt(n), h, i)
      modifies mem
      ensures Represents(mem[..], HeadAt(n), n, ArenaModel.AbsorbIntoPrevious(h, i))
      ensures OnlyWritable(old(mem[..]), mem[..], h.blocks, HeadAt(n))
    {
      hide Layout, Represents, SettledBut, KeptBut, NextOf, Nodes, HeadAt, Covers, Writable, OnlyWritable;
      ghost var m0, head := mem[..], HeadAt(n);
      ghost var touched := AbsorbStoresTo(ah, pah, nah, n, h, i);
      AbsorbStores(m0, mem[..], head, n, h, i, touched);
      NodesWritable(m0, mem[..], head, h, Nodes(head, h), touched);
    }

    /** Lines 38-45 of free.c: add the block to the free chain. */
    method PushFree(ah: int, ghost n: int, ghost h: Heap, ghost i: int)
      requires Represents(mem[..], HeadAt(n), n, h) && Settled(h.blocks)
      requires 0 <= i < |h.blocks| && !h.blocks[i].free && !JoinsPrevious(h.blocks, i)
      requires ah == h.blocks[i].addr
      modifies mem
      ensures Represents(mem[..], HeadAt(n), n, ArenaModel.PushFree(h, i))
      ensures OnlyWritable(old(mem[..]), mem[..], Marked(h.blocks, i), HeadAt(n))
    {
      hide Layout, Placed, Headers, Rings, SettledBut, Spaced, KeptBut, Nodes, FreeNodes, Succ;
      hide SizeOf, TypeOf, WithType, Covers, Writable, OnlyWritable;
      ghost var m0 := mem[..];
      ghost var nodes := Nodes(HeadAt(n), h);
      LayoutNodes(m0, HeadAt(n), h);
      HeaderReads(m0, HeadAt(n), n, h, i);
      HeadReads(m0, HeadAt(n), n, h);
      FirstFreeInNodes(m0, HeadAt(n), h);
      UsedOffFreeRing(m0, HeadAt(n), h, i);
      AttrsUpdated(h.blocks[i].size, n, TYPE_USED, h.blocks[i].size, TYPE_FREE);
      var head := heads + HEADER_SPAN * HeapOf(Get(ah, ATTRS));
      assert head == HeadAt(n);
      SetField(ah, ATTRS, WithType(Get(ah, ATTRS), TYPE_FREE), m0, nodes, {});
      SetField(ah, TAG, MALLOC_FREE, m0, nodes, {(ah, ATTRS)});
      ghost var nf := Get(head, NEXT_FREE);
      SetField(ah, NEXT_FREE, Get(head, NEXT_FREE), m0, nodes, {(ah, ATTRS), (ah, TAG)});
      SetField(ah, PREV_FREE, head, m0, nodes, {(ah, ATTRS), (ah, TAG), (ah, NEXT_FREE)});
      SetField(head, NEXT_FREE, ah, m0, nodes, {(ah, ATTRS), (ah, TAG), (ah, NEXT_FREE), (ah, PREV_FREE)});
      assert Get(ah, NEXT_FREE) == nf == Succ(FreeNodes(head, h), 0);
      SetField(Get(ah, NEXT_FREE), PREV_FREE, ah, m0, nodes,
               {(ah, ATTRS), (ah, TAG), (ah, NEXT_FREE), (ah, PREV_FREE), (head, NEXT_FREE)});
      ghost var touched: set<(int, nat)> :=
        {(ah, ATTRS), (ah, TAG), (ah, NEXT_FREE), (ah, PREV_FREE), (head, NEXT_FREE), (nf, PREV_FREE)};
      assert {(ah, ATTRS), (ah, TAG), (ah, NEXT_FREE), (ah, PREV_FREE), (head, NEXT_FREE)} + {(nf, PREV_FREE)} == touched;
      PushStores(m0, mem[..], head, n, h, i, touched);
      PushWritable(m0, mem[..], head, h, i, nodes, touched);
    }

    /** The stores of lines 52-60 of free.c: off the free ring, and off the ring of all blocks. */
    method MergeStoresTo(ah: int, nah: int, ghost n: int, ghost h: Heap, ghost k: int) returns (ghost touched: set<(int, nat)>)
      requires Represents(mem[..], HeadAt(n), n, h) && SettledBut(h.blocks, k)
      requires 0 <= k < |h.blocks| && h.blocks[k].free && JoinsNext(h.blocks, k)
      requires ah == h.blocks[k].addr && nah == h.blocks[k + 1].addr
      modifies mem
      ensures h.blocks[k + 1].addr in h.avail && Layout(h)
      ensures var nodes, nn := Nodes(HeadAt(n), h), NextOf(HeadAt(n), h, k + 1);
        var nf, pf := NextFreeOf(HeadAt(n), h, k + 1), PrevFreeOf(HeadAt(n), h, k + 1);
        && ah in nodes && nn in nodes && nf in FreeNodes(HeadAt(n), h) && pf in FreeNodes(HeadAt(n), h)
        && touched == {(ah, ATTRS), (nf, PREV_FREE), (pf, NEXT_FREE), (ah, NEXT), (nn, PREV)}
        && KeptBut(old(mem[..]), mem[..], nodes, touched)
        && Field(mem[..], ah, ATTRS) == Attrs(h.blocks[k].size + h.blocks[k + 1].size, n, TYPE_FREE)
        && Field(mem[..], nf, PREV_FREE) == pf && Field(mem[..], pf, NEXT_FREE) == nf
        && Field(mem[..], ah, NEXT) == nn && Field(mem[..], nn, PREV) == ah
    {
      hide Layout, Placed, Headers, Rings, SettledBut, Spaced, KeptBut, NextOf, Nodes, HeadAt, NextFreeOf, PrevFreeOf;
      hide SizeOf, TypeOf, HeapOf, WithSize, Covers, FreeNodes;
      ghost var m0, head := mem[..], HeadAt(n);
      ghost var nodes := Nodes(head, h);
      LayoutNodes(m0, head, h);
      FreeBlockOnRing(m0, head, n, h, k + 1);
      HeaderReads(m0, head, n, h, k);
      HeaderReads(m0, head, n, h, k + 1);
      NextInNodes(head, h, k + 1);
      AttrsUpdated(h.blocks[k].size, n, TYPE_FREE, h.blocks[k].size + h.blocks[k + 1].size, TYPE_FREE);
      ghost var nn, nf, pf := NextOf(head, h, k + 1), NextFreeOf(head, h, k + 1), PrevFreeOf(head, h, k + 1);
      SetField(ah, ATTRS, WithSize(Get(ah, ATTRS), SizeOf(Get(ah, ATTRS)) + SizeOf(Get(nah, ATTRS))), m0, nodes, {});
      assert {} + {(ah, ATTRS)} == {(ah, ATTRS)};
      MergeLinks(ah, nah, nn, nf, pf, m0, nodes);
      touched := {(ah, ATTRS), (nf, PREV_FREE), (pf, NEXT_FREE), (ah, NEXT), (nn, PREV)};
    }

    /** The last four of these stores: `nah` leaves both rings. */
    method MergeLinks(ah: int, nah: int, ghost nn: int, ghost nf: int, ghost pf: int, ghost m0: Memory, ghost nodes: set<int>)
      requires Spaced(m0, nodes) && KeptBut(m0, mem[..], nodes, {(ah, ATTRS)})
      requires ah in nodes && nah in nodes && nn in nodes && nf in nodes && pf in nodes && nah != ah && nah != nf && nah != pf
      requires 0 <= nah && nah + HEADER_SPAN <= mem.Length
      requires Field(mem[..], nah, NEXT_FREE) == nf && Field(mem[..], nah, PREV_FREE) == pf && Field(mem[..], nah, NEXT) == nn
      modifies mem
      ensures KeptBut(m0, mem[..], nodes, {(ah, ATTRS), (nf, PREV_FREE), (pf, NEXT_FREE), (ah, NEXT), (nn, PREV)})
      ensures Field(mem[..], ah, ATTRS) == old(Field(mem[..], ah, ATTRS))
      ensures Field(mem[..], nf, PREV_FREE) == pf && Field(mem[..], pf, NEXT_FREE) == nf
      ensures Field(mem[..], ah, NEXT) == nn && Field(mem[..], nn, PREV) == ah
    {
      hide Spaced, KeptBut;
      SetField(Get(nah, NEXT_FREE), PREV_FREE, Get(nah, PREV_FREE), m0, nodes, {(ah, ATTRS)});
      assert Get(nah, NEXT_FREE) == nf && Get(nah, PREV_FREE) == pf;
      SetField(Get(nah, PREV_FREE), NEXT_FREE, Get(nah, NEXT_FREE), m0, nodes, {(ah, ATTRS), (nf, PREV_FREE)});
      assert Get(nah, NEXT) == nn;
      SetField(ah, NEXT, Get(nah, NEXT), m0, nodes, {(ah, ATTRS), (nf, PREV_FREE), (pf, NEXT_FREE)});
      assert Get(nah, NEXT) == nn;
      SetField(Get(nah, NEXT), PREV, ah, m0, nodes, {(ah, ATTRS), (nf, PREV_FREE), (pf, NEXT_FREE), (ah, NEXT)});
      assert {(ah, ATTRS), (nf, PREV_FREE), (pf, NEXT_FREE), (ah, NEXT)} + {(nn, PREV)}
          == {(ah, ATTRS), (nf, PREV_FREE), (pf, NEXT_FREE), (ah, NEXT), (nn, PREV)};
    }

    /** Lines 52-59 of free.c: merge with the subsequent block. */
    method MergeNext(ah: int, nah: int, ghost n: int, ghost h: Heap, ghost k: int)
      requires Represents(mem[..], HeadAt(n), n, h) && SettledBut(h.blocks, k)
      requires 0 <= k < |h.blocks| && h.blocks[k].free && JoinsNext(h.blocks, k)
      requires ah == h.blocks[k].addr && nah == h.blocks[k + 1].addr
      modifies mem
      ensures Represents(mem[..], HeadAt(n), n, ArenaModel.MergeNext(h, k))
      ensures OnlyWritable(old(mem[..]), mem[..], h.blocks, HeadAt(n))
    {
      hide Layout, Represents, SettledBut, KeptBut, NextOf, Nodes, HeadAt, NextFreeOf, PrevFreeOf, FreeNodes;
      hide Covers, Writable, OnlyWritable;
      ghost var m0, head := mem[..], HeadAt(n);
      ghost var touched := MergeStoresTo(ah, nah, n, h, k);
      MergeStores(m0, mem[..], head, n, h, k, touched);
      FreeRingWritable(m0, mem[..], head, h, Nodes(head, h), touched);
    }

    /** First half of `__free_block`, free.c:18-46; `nah` stays the successor. */
    method ReleaseBack(block: int, nah: int, ghost n: int, ghost h: Heap, ghost i: int) returns (ah: int)
      requires HeapValid(mem[..], heads, n, h) && 0 <= i < |h.blocks| && !h.blocks[i].free
      requires block == h.blocks[i].addr && nah == NextOf(HeadAt(n), h, i)
      modifies mem
      ensures Represents(mem[..], HeadAt(n), n, ReleasedBack(h, i))
      ensures ah == ReleasedBack(h, i).blocks[BackIndex(h, i)].addr
      ensures nah == NextOf(HeadAt(n), ReleasedBack(h, i), BackIndex(h, i))
      ensures OnlyWritable(old(mem[..]), mem[..], Marked(h.blocks, i), HeadAt(n))
    {
      hide Layout, Placed, Headers, Rings, Spaced, KeptBut, NextOf, Nodes, NextFreeOf, PrevFreeOf, AllNodes;
      hide SizeOf, TypeOf, Covers, Writable, OnlyWritable, SettledBut;
      ghost var head, m0 := HeadAt(n), mem[..];
      HeaderReads(m0, head, n, h, i);
      PreviousReads(m0, head, n, h, i);
      ah := block;
      var pah := Get(ah, PREV);
      if TypeOf(Get(pah, ATTRS)) == TYPE_FREE && pah + SizeOf(Get(pah, ATTRS)) == ah {
        AbsorbIntoPrevious(ah, pah, nah, n, h, i);
        AbsorbNext(head, h, i);
        WidenToMarked(m0, mem[..], h.blocks, i, head);
        ah := pah;
      } else {
        PushFree(ah, n, h, i);
        PushNext(head, h, i);
      }
    }

    /** Second half of `__free_block`, free.c:48-61. */
    method ReleaseForward(ah: int, nah: int, ghost n: int, ghost b: Heap, ghost k: int)
      requires Represents(mem[..], HeadAt(n), n, b) && SettledBut(b.blocks, k)
      requires 0 <= k < |b.blocks| && b.blocks[k].free && ah == b.blocks[k].addr
      requires nah == NextOf(HeadAt(n), b, k)
      modifies mem
      ensures Represents(mem[..], HeadAt(n), n, if JoinsNext(b.blocks, k) then ArenaModel.MergeNext(b, k) else b)
      ensures OnlyWritable(old(mem[..]), mem[..], b.blocks, HeadAt(n))
    {
      hide Layout, Placed, Headers, Rings, Spaced, KeptBut, NextOf, Nodes, NextFreeOf, PrevFreeOf, AllNodes;
      hide SizeOf, TypeOf, Covers, Writable, SettledBut;
      HeaderReads(mem[..], HeadAt(n), n, b, k);
      NextReads(mem[..], HeadAt(n), n, b, k);
      if TypeOf(Get(nah, ATTRS)) == TYPE_FREE && ah + SizeOf(Get(ah, ATTRS)) == nah {
        MergeNext(ah, nah, n, b, k);
      }
    }

    /** `__free_block`, free.c:11-62. */
    method FreeBlock(block: int, ghost n: int, ghost i: int) returns (r: int)
      requires Valid() && 0 <= n < NHEAP && 0 <= i < |heaps[n].blocks| && !heaps[n].blocks[i].free
      requires block == heaps[n].blocks[i].addr
      modifies mem, `heaps
      ensures Valid() && heaps == old(heaps)[n := Release(old(heaps)[n], i)]
      ensures BackIndex(old(heaps)[n], i) < |heaps[n].blocks| && r == heaps[n].blocks[BackIndex(old(heaps)[n], i)].addr
      ensures OnlyWritable(old(mem[..]), mem[..], Marked(old(heaps)[n].blocks, i), HeadAt(n))
    {
      hide Layout, Placed, Headers, Rings, Spaced, KeptBut, NextOf, Nodes, NextFreeOf, PrevFreeOf, AllNodes;
      hide Covers, Writable, OnlyWritable, SettledBut, HeapsValid, Marked, BackIndex, ReleasedBack;
      ValidHeaps(mem[..], heads, heaps);
      ghost var head, h, m0 := HeadAt(n), heaps[n], mem[..];
      HeapIsValid(m0, heads, heaps, n);
      HeaderReads(m0, head, n, h, i);
      var nah := Get(block, NEXT);
      r := ReleaseBack(block, nah, n, h, i);
      ghost var b, k, m1 := ReleasedBack(h, i), BackIndex(h, i), mem[..];
      ReleaseSteps(h, i);
      ReleaseForward(r, nah, n, b, k);
      BackWritable(m0, m1, mem[..], h, i, head);
      HeapsKept(m0, mem[..], heads, heaps, n, Release(h, i), Marked(h.blocks, i));
      heaps := heaps[n := Release(h, i)];
    }

    // Splitting a block, malloc.c:23-45, in three bursts of stores.

    /** Lines 28-34: the headers of the rest and of the block handed out. */
    method SplitHeader(fp: int, nfp: int, heap: int, fsize: int, size: int, tag: int, ghost nodes: set<int>)
      requires Spaced(mem[..], nodes) && fp in nodes && nfp in nodes && fp != nfp
      requires 0 <= heap < 4 && 0 <= size <= fsize && size % UNIT == 0 && fsize % UNIT == 0
      requires Field(mem[..], fp, ATTRS) == Attrs(fsize, heap, TYPE_FREE)
      modifies mem
      ensures KeptBut(old(mem[..]), mem[..], nodes, HeaderBurst(fp, nfp))
      ensures HeaderAt(mem[..], heap, Block(fp, size, false, tag))
      ensures HeaderAt(mem[..], heap, Block(nfp, fsize - size, true, MALLOC_FREE))
    {
      hide KeptBut, SizeOf, TypeOf, HeapOf, WithSize, WithType, WithHeap;
      ghost var m0 := mem[..];
      ghost var t0: set<(int, nat)> := {};
      ghost var t1: set<(int, nat)> := {(nfp, ATTRS)};
      SpacedBounds(m0, nodes, fp);
      SpacedBounds(m0, nodes, nfp);
      KeptRefl(m0, nodes);
      FreshAttrs(Get(nfp, ATTRS), heap, fsize - size);
      AttrsUpdated(fsize, heap, TYPE_FREE, fsize, TYPE_USED);
      AttrsUpdated(fsize, heap, TYPE_USED, size, TYPE_USED);
      SetField(nfp, ATTRS, WithType(Get(nfp, ATTRS), TYPE_FREE), m0, nodes, t0);
      assert t0 + t1 == t1 && t1 + t1 == t1;
      SetField(nfp, ATTRS, WithHeap(Get(nfp, ATTRS), heap), m0, nodes, t1);
      SetField(nfp, ATTRS, WithSize(Get(nfp, ATTRS), fsize - size), m0, nodes, t1);
      SetField(nfp, TAG, MALLOC_FREE, m0, nodes, t1);
      ghost var t2: set<(int, nat)> := {(nfp, ATTRS), (nfp, TAG)};
      ghost var t3: set<(int, nat)> := {(nfp, ATTRS), (nfp, TAG), (fp, ATTRS)};
      assert t1 + {(nfp, TAG)} == t2 && t2 + {(fp, ATTRS)} == t3 && t3 + {(fp, ATTRS)} == t3;
      SetField(fp, ATTRS, WithType(Get(fp, ATTRS), TYPE_USED), m0, nodes, t2);
      SetField(fp, ATTRS, WithSize(Get(fp, ATTRS), size), m0, nodes, t3);
      SetField(fp, TAG, tag, m0, nodes, t3);
      assert t3 + {(fp, TAG)} == HeaderBurst(fp, nfp);
    }

    /** Lines 36-40: insert the rest into the all-block chain. */
    method SplitChain(fp: int, nfp: int, na: int, ghost nodes: set<int>)
      requires Spaced(mem[..], nodes) && fp in nodes && nfp in nodes && na in nodes && nfp != fp && nfp != na
      modifies mem
      ensures KeptBut(old(mem[..]), mem[..], nodes, ChainBurst(fp, nfp, na))
      ensures Field(mem[..], nfp, PREV) == fp && Field(mem[..], nfp, NEXT) == na
      ensures Field(mem[..], na, PREV) == nfp && Field(mem[..], fp, NEXT) == nfp
    {
      hide KeptBut;
      ghost var m0 := mem[..];
      KeptRefl(m0, nodes);
      SetField(nfp, PREV, fp, m0, nodes, {});
      SetField(nfp, NEXT, na, m0, nodes, {(nfp, PREV)});
      SetField(na, PREV, nfp, m0, nodes, {(nfp, PREV), (nfp, NEXT)});
      SetField(fp, NEXT, nfp, m0, nodes, {(nfp, PREV), (nfp, NEXT), (na, PREV)});
      assert {(nfp, PREV), (nfp, NEXT), (na, PREV)} + {(fp, NEXT)} == ChainBurst(fp, nfp, na);
    }

    /** Lines 42-46: the rest takes the block's place on the free chain. */
    method SplitFreeChain(fp: int, nfp: int, ghost nf: int, ghost pf: int, ghost nodes: set<int>)
      requires Spaced(mem[..], nodes) && fp in nodes && nfp in nodes && nf in nodes && pf in nodes
      requires nfp != fp && nfp != nf && nfp != pf && fp != nf && fp != pf
      requires Field(mem[..], fp, NEXT_FREE) == nf && Field(mem[..], fp, PREV_FREE) == pf
      modifies mem
      ensures KeptBut(old(mem[..]), mem[..], nodes,
                      FreeChainBurst(nfp, nf, pf))
      ensures Field(mem[..], nfp, NEXT_FREE) == nf && Field(mem[..], nfp, PREV_FREE) == pf
      ensures Field(mem[..], nf, PREV_FREE) == nfp && Field(mem[..], pf, NEXT_FREE) == nfp
    {
      hide KeptBut;
      ghost var m0 := mem[..];
      SpacedBounds(m0, nodes, fp);
      KeptRefl(m0, nodes);
      SetField(nfp, NEXT_FREE, Get(fp, NEXT_FREE), m0, nodes, {});
      SetField(nfp, PREV_FREE, Get(fp, PREV_FREE), m0, nodes, {(nfp, NEXT_FREE)});
      assert Get(fp, NEXT_FREE) == nf;
      SetField(Get(fp, NEXT_FREE), PREV_FREE, nfp, m0, nodes, {(nfp, NEXT_FREE), (nfp, PREV_FREE)});
      assert Get(fp, PREV_FREE) == pf;
      SetField(Get(fp, PREV_FREE), NEXT_FREE, nfp, m0, nodes, {(nfp, NEXT_FREE), (nfp, PREV_FREE), (nf, PREV_FREE)});
      assert {(nfp, NEXT_FREE), (nfp, PREV_FREE), (nf, PREV_FREE)} + {(pf, NEXT_FREE)}
          == FreeChainBurst(nfp, nf, pf);
    }

    /** Lines 25-46 of malloc.c: split block `i`. */
    method SplitBlock(fp: int, size: int, tag: int, ghost n: int, ghost h: Heap, ghost i: int)
      requires HeapValid(mem[..], heads, n, h) && Splittable(h.blocks, i, size) && fp == h.blocks[i].addr
      modifies mem
      ensures Represents(mem[..], HeadAt(n), n, Split(h, i, size, tag))
      ensures OnlyWritable(old(mem[..]), mem[..], h.blocks, HeadAt(n))
    {
      hide Layout, Placed, Headers, Rings, KeptBut, NextOf, Nodes, NextFreeOf, PrevFreeOf, AllNodes, FreeNodes;
      hide SizeOf, TypeOf, HeapOf, Covers, Writable, OnlyWritable, SettledBut, Split, Elements, SplitLinks, AllGood, Ordered;
      hide SplitTouched, Spaced, Distinct, HeaderBurst, ChainBurst, FreeChainBurst;
      ghost var head, m0 := HeadAt(n), mem[..];
      ghost var nodes := Nodes(head, Split(h, i, size, tag));
      SplitReads(m0, head, n, h, i, size, tag);
      ghost var na, nf, pf := NextOf(head, h, i), NextFreeOf(head, h, i), PrevFreeOf(head, h, i);
      var nfp := fp + size;
      SplitHeader(fp, nfp, HeapOf(Get(fp, ATTRS)), SizeOf(Get(fp, ATTRS)), size, tag, nodes);
      ghost var m1 := mem[..];
      HeaderBurstKeeps(m0, m1, nodes, fp, nfp);
      SpacedLength(m0, m1, nodes);
      SplitChain(fp, nfp, Get(fp, NEXT), nodes);
      ghost var m2 := mem[..];
      ChainBurstKeeps(m1, m2, nodes, fp, nfp, na);
      SpacedLength(m1, m2, nodes);
      SplitFreeChain(fp, nfp, nf, pf, nodes);
      SplitDone(m0, m1, m2, mem[..], head, n, h, i, size, tag);
    }

    /** `__malloc_from_block`, malloc.c:13-55. */
    method MallocFromBlock(fp: int, size: int, tag: int, ghost n: int, ghost h: Heap, ghost i: int) returns (p: int)
      requires HeapValid(mem[..], heads, n, h) && 0 <= i < |h.blocks| && h.blocks[i].free && fp == h.blocks[i].addr
      requires 2 * UNIT <= size <= h.blocks[i].size && size % UNIT == 0
      modifies mem
      ensures Represents(mem[..], HeadAt(n), n, Allocate(h, i, size, tag))
      ensures OnlyWritable(old(mem[..]), mem[..], h.blocks, HeadAt(n))
      ensures p == fp + UNIT
    {
      hide Layout, Placed, Headers, Rings, KeptBut, Nodes, NextFreeOf, PrevFreeOf, AllNodes;
      hide TypeOf, HeapOf, Covers, Writable, OnlyWritable, SettledBut, Split, Elements, Claimed;
      ghost var head, m0 := HeadAt(n), mem[..];
      HeaderReads(m0, head, n, h, i);
      var fsize := SizeOf(Get(fp, ATTRS));
      if fsize >= size + 2 * UNIT {
        SplittableBlock(h, i, size);
        SplitBlock(fp, size, tag, n, h, i);
      } else {
        ClaimBlock(fp, tag, n, h, i);
      }
      p := fp + UNIT;
    }

    /** Lines 47-52 of malloc.c: hand out the whole block. */
    method ClaimBlock(fp: int, tag: int, ghost n: int, ghost h: Heap, ghost i: int)
      requires HeapValid(mem[..], heads, n, h) && 0 <= i < |h.blocks| && h.blocks[i].free && fp == h.blocks[i].addr
      modifies mem
      ensures Represents(mem[..], HeadAt(n), n, Claimed(h, i, tag))
      ensures OnlyWritable(old(mem[..]), mem[..], h.blocks, HeadAt(n))
    {
      hide Layout, Placed, Headers, Rings, SettledBut, Spaced, KeptBut, NextOf, Nodes, NextFreeOf, PrevFreeOf;
      hide SizeOf, TypeOf, HeapOf, WithType, Covers, Writable, OnlyWritable;
      ghost var m0, head := mem[..], HeadAt(n);
      ghost var nodes := Nodes(head, h);
      LayoutNodes(m0, head, h);
      FreeBlockOnRing(m0, head, n, h, i);
      HeaderReads(m0, head, n, h, i);
      AttrsUpdated(h.blocks[i].size, n, TYPE_FREE, h.blocks[i].size, TYPE_USED);
      ghost var nf, pf := NextFreeOf(head, h, i), PrevFreeOf(head, h, i);
      SetField(fp, ATTRS, WithType(Get(fp, ATTRS), TYPE_USED), m0, nodes, {});
      SetField(fp, TAG, tag, m0, nodes, {(fp, ATTRS)});
      assert Get(fp, NEXT_FREE) == nf && Get(fp, PREV_FREE) == pf;
      SetField(Get(fp, NEXT_FREE), PREV_FREE, Get(fp, PREV_FREE), m0, nodes, {(fp, ATTRS), (fp, TAG)});
      assert Get(fp, NEXT_FREE) == nf && Get(fp, PREV_FREE) == pf;
      SetField(Get(fp, PREV_FREE), NEXT_FREE, Get(fp, NEXT_FREE), m0, nodes, {(fp, ATTRS), (fp, TAG), (nf, PREV_FREE)});
      ghost var touched: set<(int, nat)> := {(fp, ATTRS), (fp, TAG), (nf, PREV_FREE), (pf, NEXT_FREE)};
      assert {(fp, ATTRS), (fp, TAG), (nf, PREV_FREE)} + {(pf, NEXT_FREE)} == touched;
      ClaimStores(m0, mem[..], head, n, h, i, tag, touched);
      FreeRingWritable(m0, mem[..], head, h, nodes, touched);
    }

    /** Hand out (part of) free block `i` of heap `n`. */
    method Take(fp: int, need: int, tag: int, ghost n: int, ghost i: int) returns (p: int)
      requires Valid() && 0 <= n < NHEAP && 0 <= i < |heaps[n].blocks| && heaps[n].blocks[i].free
      requires fp == heaps[n].blocks[i].addr && 2 * UNIT <= need <= heaps[n].blocks[i].size && need % UNIT == 0
      modifies mem, `heaps
      ensures Valid() && p == fp + UNIT
      ensures heaps == old(heaps)[n := Allocate(old(heaps)[n], i, need, tag)]
      ensures PayloadsKept(old(mem[..]), mem[..], old(heaps), heaps)
    {
      hide Layout, Placed, Headers, Rings, SettledBut, Covers, OnlyWritable, PayloadsKept, HeapsValid, Allocate;
      ValidHeaps(mem[..], heads, heaps);
      ghost var h, m0 := heaps[n], mem[..];
      HeapIsValid(m0, heads, heaps, n);
      p := MallocFromBlock(fp, need, tag, n, h, i);
      MallocStep(m0, mem[..], heads, heaps, n, i, need, tag);
      heaps := heaps[n := Allocate(h, i, need, tag)];
    }

    /** The first-fit walk over the free chain, malloc.c:70-78; the head node when nothing fits. */
    method FindFit(head: int, need: int, ghost heap: int, ghost h: Heap) returns (fp: int)
      requires Represents(mem[..], HeadAt(heap), heap, h) && head == HeadAt(heap)
      ensures var k := FirstFit(h, need, 0); fp == if k < |h.avail| then h.avail[k] else head
    {
      hide Layout, Placed, Headers, Rings, Nodes, AllNodes, FreeNodes, HeaderAt, Fits, SizeOf, BlockAt, IndexOf;
      HeadReads(mem[..], head, heap, h);
      RingStart(head, h);
      HeadOffFreeRing(mem[..], head, heap, h);
      fp := Get(head, NEXT_FREE);
      ghost var k := 0;
      while fp != head
        invariant 0 <= k <= |h.avail| && FirstFit(h, need, 0) == FirstFit(h, need, k)
        invariant fp == if k < |h.avail| then h.avail[k] else head
        decreases |h.avail| - k
      {
        AvailReads(mem[..], head, heap, h, k, need);
        if SizeOf(Get(fp, ATTRS)) >= need {
          return;
        }
        fp := Get(fp, NEXT_FREE);
        k := k + 1;
      }
    }

    /** `_malloc`, malloc.c:57-84; null is 0. */
    method Malloc(size: int, heap: int, tag: int) returns (p: int)
      requires Valid() && 0 <= size <= WORD - 2 * UNIT && 0 <= heap < NHEAP
      modifies mem, `heaps
      ensures Valid()
      ensures p == ArenaRuns.Malloc(old(heaps)[heap], size, tag).ptr
      ensures heaps == old(heaps)[heap := ArenaRuns.Malloc(old(heaps)[heap], size, tag).heap]
      ensures PayloadsKept(old(mem[..]), mem[..], old(heaps), heaps)
    {
      hide Placed, Headers, Rings, SettledBut, HeaderAt, PayloadsKept, Fits, Allocate, Rounded, HeapsValid;
      ValidHeaps(mem[..], heads, heaps);
      ghost var h := heaps[heap];
      HeapIsValid(mem[..], heads, heaps, heap);
      NothingWritten(mem[..], heaps);
      assert heaps == heaps[heap := h];
      p := 0;
      if size != 0 {
        var need := Rounded(size);
        RoundedFits(size);
        HeadOffFreeRing(mem[..], HeadAt(heap), heap, h);
        var head := HeadAt(heap);
        var fp := FindFit(head, need, heap, h);
        if fp != head {
          FitFound(h, need);
          p := Take(fp, need, tag, heap, BlockAt(h.blocks, fp));
        }
      }
    }

    /** `free`, free.c:66-85. */
    method Free(ptr: int)
      requires Valid() && (ptr != 0 ==> Live(heaps[0], ptr) || Live(heaps[1], ptr))
      modifies mem, `heaps
      ensures Valid()
      ensures ptr == 0 ==> heaps == old(heaps) && mem[..] == old(mem[..])
      ensures ptr != 0 ==> var n := HeapHolding(old(heaps), ptr);
                heaps == old(heaps)[n := Release(old(heaps)[n], LiveAt(old(heaps)[n], ptr))]
      ensures PayloadsKept(old(mem[..]), mem[..], old(heaps), heaps)
    {
      if ptr == 0 {
        NothingWritten(mem[..], heaps);
        return;
      }
      var ah := ptr - UNIT;
      ghost var n := HeapHolding(heaps, ptr);
      ghost var i, m0, hs := LiveAt(heaps[n], ptr), mem[..], heaps;
      var _ := FreeBlock(ah, n, i);
      FreeStep(m0, mem[..], heads, hs, n, i);
    }

    /** One visit of `__free_tagged`, free.c:138-140, to block `i`; what is left at its place is block `k`. */
    method VisitTagged(fp: int, tag: int, ghost n: int, ghost i: int) returns (r: int, ghost k: int)
      requires Valid() && 0 <= n < NHEAP && 0 <= i < |heaps[n].blocks| && fp == heaps[n].blocks[i].addr
      modifies mem, `heaps
      ensures Valid() && |heaps| == NHEAP && heaps[1 - n] == old(heaps)[1 - n]
      ensures heaps[n] == Visited(old(heaps)[n], i, tag)
      ensures k == VisitPlace(old(heaps)[n], i, tag)
      ensures 0 <= k < |heaps[n].blocks| && r == heaps[n].blocks[k].addr
      ensures PayloadsKept(old(mem[..]), mem[..], old(heaps), heaps)
    {
      hide Layout, Placed, Headers, Rings, SettledBut, HeaderAt, PayloadsKept, HeapsValid, Release, UsedBlocks;
      hide Represents, TypeOf, OnlyWritable, AllNodes, BackIndex, Marked;
      ValidHeaps(mem[..], heads, heaps);
      ghost var h, m0 := heaps[n], mem[..];
      HeapIsValid(m0, heads, heaps, n);
      HeaderReads(m0, HeadAt(n), n, h, i);
      NothingWritten(m0, heaps);
      assert heaps == heaps[n := h];
      r, k := fp, i;
      if TypeOf(Get(fp, ATTRS)) == TYPE_USED && Get(fp, TAG) == tag {
        r := FreeBlock(fp, n, i);
        FreeStep(m0, mem[..], heads, old(heaps), n, i);
        k := BackIndex(h, i);
      }
    }

    /** Follow the all-blocks ring from block `i` of heap `n`. */
    method NextBlock(fp: int, ghost n: int, ghost i: int) returns (r: int)
      requires Valid() && 0 <= n < NHEAP && 0 <= i < |heaps[n].blocks| && fp == heaps[n].blocks[i].addr
      ensures r == if i + 1 < |heaps[n].blocks| then heaps[n].blocks[i + 1].addr else HeadAt(n)
    {
      hide Layout, Placed, Headers, Rings, SettledBut, HeaderAt;
      HeapIsValid(mem[..], heads, heaps, n);
      HeaderReads(mem[..], HeadAt(n), n, heaps[n], i);
      NextInNodes(HeadAt(n), heaps[n], i);
      r := Get(fp, NEXT);
    }

    /** The walk of `__free_tagged` over one heap, free.c:137-141. */
    method FreeTaggedIn(n: int, tag: int)
      requires Valid() && 0 <= n < NHEAP
      modifies mem, `heaps
      ensures Valid() && heaps == old(heaps)[n := ArenaRuns.FreeTagged(old(heaps)[n], 0, tag)]
      ensures PayloadsKept(old(mem[..]), mem[..], old(heaps), heaps)
    {
      hide Layout, PayloadsKept, HeapsValid, UsedBlocks, StillToVisit, ArenaRuns.FreeTagged, Visited, VisitPlace, HeapValid;
      ghost var m0, hs0 := mem[..], heaps;
      ValidHeaps(m0, heads, heaps);
      NothingWritten(m0, heaps);
      HeapIsValid(m0, heads, heaps, n);
      FirstReads(m0, HeadAt(n), n, heaps[n]);
      ghost var goal := VisitBegin(hs0[n], tag);
      var head := HeadAt(n);
      var fp := Get(head, NEXT);
      ghost var i := 0;
      while fp != head
        invariant Valid() && |heaps| == NHEAP && heaps[1 - n] == hs0[1 - n]
        invariant 0 <= i <= |heaps[n].blocks| && fp == (if i < |heaps[n].blocks| then heaps[n].blocks[i].addr else head)
        invariant StillToVisit(heaps[n], i, tag, goal)
        invariant PayloadsKept(m0, mem[..], hs0, heaps)
        decreases |heaps[n].blocks| - i
      {
        ghost var m1, hs1 := mem[..], heaps;
        VisitStep(m1, heads, hs1, n, i, tag, goal);
        fp, i := VisitTagged(fp, tag, n, i);
        KeptFurther(m0, m1, mem[..], hs0, hs1, heaps, n);
        fp := NextBlock(fp, n, i);
        i := i + 1;
      }
      BlocksOffHead(mem[..], heads, heaps, n);
      VisitEnd(heaps[n], tag, goal);
      assert heaps == hs0[n := goal];
    }

    /** `__free_tagged`, free.c:131-145. */
    method FreeTagged(tag: int)
      requires Valid()
      modifies mem, `heaps
      ensures Valid() && heaps == [ArenaRuns.FreeTagged(old(heaps)[0], 0, tag), ArenaRuns.FreeTagged(old(heaps)[1], 0, tag)]
      ensures PayloadsKept(old(mem[..]), mem[..], old(heaps), heaps)
    {
      hide PayloadsKept, HeapsValid, UsedBlocks, ArenaRuns.FreeTagged;
      ghost var m0, hs0 := mem[..], heaps;
      ValidHeaps(m0, heads, heaps);
      NothingWritten(m0, heaps);
      for i := 0 to NHEAP
        invariant Valid() && |heaps| == NHEAP
        invariant forall n :: 0 <= n < NHEAP ==>
                    heaps[n] == if n < i then ArenaRuns.FreeTagged(hs0[n], 0, tag) else hs0[n]
        invariant PayloadsKept(m0, mem[..], hs0, heaps)
      {
        ghost var m1, hs1 := mem[..], heaps;
        TaggedShrinks(mem[..], heads, heaps, i, tag);
        FreeTaggedIn(i, tag);
        KeptFurther(m0, m1, mem[..], hs0, hs1, heaps, i);
      }
    }

    /** The ordered walk of `__inject_free_block`, free.c:104-116. */
    method FindPlace(head: int, ah: int, ghost n: int, ghost h: Heap, ghost b: Block)
      returns (nah: int, reject: bool, ghost j: nat)
      requires HeapValid(mem[..], heads, n, h) && head == HeadAt(n)
      requires b.Good() && ah == b.addr && ah + HEADER_SPAN <= mem.Length && Field(mem[..], ah, ATTRS) == Attrs(b.size, n, TYPE_USED)
      ensures reject <==> Overlaps(h.blocks, b)
      ensures !reject ==> j == InsertPlace(h.blocks, b, 0) && nah == Succ(AllNodes(head, h), j)
    {
      hide Layout, Placed, Headers, Rings, SettledBut, HeaderAt, AllNodes, NextOf, SizeOf, HeapOf, TypeOf, Succ;
      AttrsParts(b.size, n, TYPE_USED);
      FirstReads(mem[..], head, n, h);
      SuccCases(head, h, 0);
      var aend := ah + SizeOf(Get(ah, ATTRS));
      nah := Get(head, NEXT);
      j := 0;
      reject := false;
      while nah != head
        invariant 0 <= j <= |h.blocks| && nah == (if j < |h.blocks| then h.blocks[j].addr else head)
        invariant forall i :: 0 <= i < j ==> h.blocks[i].End() <= b.addr
        invariant InsertPlace(h.blocks, b, 0) == InsertPlace(h.blocks, b, j)
        invariant nah == Succ(AllNodes(head, h), j)
        decreases |h.blocks| - j
      {
        HeaderReads(mem[..], head, n, h, j);
        NextInNodes(head, h, j);
        var nend := nah + SizeOf(Get(nah, ATTRS));
        if nah >= aend {
          break;
        }
        if ah >= nend {
          SuccCases(head, h, j + 1);
          nah := Get(nah, NEXT);
          j := j + 1;
          continue;
        }
        reject := true;
        return;
      }
      PlaceFound(mem[..], head, n, h, b, j, nah);
    }

    /** Lines 118-123 of free.c: link the block in front of `nah`. */
    method LinkBefore(ah: int, nah: int, ghost n: int, ghost h: Heap, ghost j: int, ghost b: Block)
      requires Linkable(mem[..], HeadAt(n), n, h, j, b) && ah == b.addr && nah == Succ(AllNodes(HeadAt(n), h), j)
      modifies mem
      ensures Represents(mem[..], HeadAt(n), n, LinkedIn(h, j, b))
      ensures OnlyWritable(old(mem[..]), mem[..], LinkedIn(h, j, b).blocks, HeadAt(n))
    {
      ghost var head, m0 := HeadAt(n), mem[..];
      hide Layout, Placed, Headers, Rings, SettledBut, Spaced, KeptBut, Nodes, AllNodes, HeaderAt, Insertable, LinkedIn;
      hide Succ, OnlyWritable, Writable, AllGood, Ordered;
      ghost var nodes := Nodes(head, LinkedIn(h, j, b));
      ghost var pah := LinkReads(m0, head, n, h, j, b);
      SpacedBounds(m0, nodes, ah);
      SpacedBounds(m0, nodes, nah);
      KeptRefl(m0, nodes);
      SetField(ah, NEXT, nah, m0, nodes, {});
      SetField(ah, PREV, Get(nah, PREV), m0, nodes, {(ah, NEXT)});
      SetField(nah, PREV, ah, m0, nodes, {(ah, NEXT), (ah, PREV)});
      assert Get(ah, PREV) == pah;
      SetField(Get(ah, PREV), NEXT, ah, m0, nodes, {(ah, NEXT), (ah, PREV), (nah, PREV)});
      ghost var touched: set<(int, nat)> := {(ah, NEXT), (ah, PREV), (nah, PREV), (pah, NEXT)};
      assert {(ah, NEXT), (ah, PREV), (nah, PREV)} + {(pah, NEXT)} == touched;
      LinkDone(m0, mem[..], head, n, h, j, b, nah, pah, touched);
    }

    /** Lines 118-125 of free.c: link the block and release it. */
    method LinkAndFree(ah: int, nah: int, ghost n: int, ghost b: Block, ghost j: int)
      requires Valid() && Injectable(mem[..], heads, heaps, n, b) && ah == b.addr
      requires Linkable(mem[..], HeadAt(n), n, heaps[n], j, b)
      requires nah == Succ(AllNodes(HeadAt(n), heaps[n]), j)
      modifies mem, `heaps
      ensures Valid() && heaps == old(heaps)[n := Release(LinkedIn(old(heaps)[n], j, b), j)]
      ensures PayloadsKept(old(mem[..]), mem[..], old(heaps), heaps)
    {
      ghost var h, m0, hs0 := heaps[n], mem[..], heaps;
      ghost var l := LinkedIn(h, j, b);
      hide Layout, Placed, Headers, Rings, SettledBut, HeapsValid, Represents, OnlyWritable, PayloadsKept, Release, Succ;
      LinkedInAt(h, j, b, j);
      hide LinkedIn, Linkable, Injectable;
      LinkBefore(ah, nah, n, h, j, b);
      LinkKeepsValid(m0, mem[..], heads, heaps, n, b, j);
      heaps := heaps[n := l];
      ghost var m1, hs1 := mem[..], heaps;
      var _ := FreeBlock(ah, n, j);
      FreeStep(m1, mem[..], heads, hs1, n, j);
      InjectDone(m0, m1, mem[..], hs0, n, b, j);
    }

    /** `__inject_free_block`, free.c:92-126: give the region described by the header at `ah` to heap `n`. */
    method InjectFreeBlock(ah: int, ghost n: int, ghost b: Block)
      requires Valid() && Injectable(mem[..], heads, heaps, n, b) && ah == b.addr
      modifies mem, `heaps
      ensures Valid() && heaps == old(heaps)[n := Inject(old(heaps)[n], b)]
      ensures PayloadsKept(old(mem[..]), mem[..], old(heaps), heaps)
    {
      hide Layout, Placed, Headers, Rings, SettledBut, Covers, HeapsValid, Represents, PayloadsKept, Overlaps;
      hide InsertPlace, Release, LinkedIn, SizeOf, HeapOf, TypeOf;
      ghost var h := heaps[n];
      HeapIsValid(mem[..], heads, heaps, n);
      NothingWritten(mem[..], heaps);
      InjectReads(mem[..], heads, heaps, n, b);
      var head := heads + HEADER_SPAN * HeapOf(Get(ah, ATTRS));
      ghost var j: nat;
      var nah, reject;
      nah, reject, j := FindPlace(head, ah, n, h, b);
      if reject {
        assert heaps[n := h] == heaps;
      } else {
        InjectLinkable(mem[..], heads, heaps, n, b);
        LinkAndFree(ah, nah, n, b, j);
      }
    }
  }

  /** A region that may be handed to heap `n`: prepared header, and no byte of the other heap or of a head node. */
  ghost predicate Injectable(m: Memory, heads: int, hs: seq<Heap>, n: int, b: Block) {
    && 0 <= n < NHEAP && |hs| == NHEAP
    && b.Good() && !b.free && HeaderAt(m, n, b)
    && Placed(|m|, HeadOf(heads, n), [b])
    && AllOutside(heads, 1 - n, hs[1 - n], b)
  }

  ghost predicate AllOutside(heads: int, n: int, h: Heap, b: Block) {
    forall x :: b.addr <= x < b.End() ==> Outside(heads, n, h, x)
  }

  lemma InjectReads(m: Memory, heads: int, hs: seq<Heap>, n: int, b: Block)
    requires Injectable(m, heads, hs, n, b)
    ensures 0 <= b.addr && b.addr + HEADER_SPAN <= |m| && HeapOf(Field(m, b.addr, ATTRS)) == n
  {
    assert [b][0] == b;
    AttrsParts(b.size, n, TYPE_USED);
  }

  lemma InjectLinkable(m: Memory, heads: int, hs: seq<Heap>, n: int, b: Block)
    requires HeapsValid(m, heads, hs) && Injectable(m, heads, hs, n, b) && !Overlaps(hs[n].blocks, b)
    ensures Linkable(m, HeadOf(heads, n), n, hs[n], InsertPlace(hs[n].blocks, b, 0), b)
  {
    hide Layout, Placed, Headers, Rings, SettledBut, Covers, Overlaps;
    HeapIsValid(m, heads, hs, n);
    InsertPlaceInsertable(hs[n], b);
  }

  lemma LinkReads(m: Memory, head: int, heap: int, h: Heap, j: int, b: Block) returns (pah: int)
    requires Linkable(m, head, heap, h, j, b)
    ensures var nodes, nah := Nodes(head, LinkedIn(h, j, b)), Succ(AllNodes(head, h), j);
            && pah == AllNodes(head, h)[j]
            && Spaced(m, nodes) && b.addr in nodes && nah in nodes && pah in nodes && b.addr != nah && b.addr != pah
            && Field(m, nah, PREV) == pah
    ensures Layout(LinkedIn(h, j, b))
  {
    hide Layout, Placed, Headers, SettledBut, Spaced, Distinct, LinkedIn, Inserted, AllGood, Ordered, FreeAddrs;
    pah := AllNodes(head, h)[j];
    var s := AllNodes(head, h);
    LinkedInLayout(m, head, heap, h, j, b);
    LinkedInNew(|m|, head, h, j, b);
    assert |s| == |h.blocks| + 1;
    var q := if j + 1 < |s| then j + 1 else 0;
    NodeMember(head, h, j);
    NodeMember(head, h, q);
    RingAt(m, s, NEXT, PREV, q);
  }

  lemma LinkDone(m: Memory, m': Memory, head: int, heap: int, h: Heap, j: int, b: Block, nah: int, pah: int,
                 touched: set<(int, nat)>)
    requires Linkable(m, head, heap, h, j, b) && nah == Succ(AllNodes(head, h), j) && pah == AllNodes(head, h)[j]
    requires touched == {(b.addr, NEXT), (b.addr, PREV), (nah, PREV), (pah, NEXT)}
    requires KeptBut(m, m', Nodes(head, LinkedIn(h, j, b)), touched)
    requires Field(m', b.addr, NEXT) == nah && Field(m', b.addr, PREV) == pah
    requires Field(m', nah, PREV) == b.addr && Field(m', pah, NEXT) == b.addr
    ensures Represents(m', head, heap, LinkedIn(h, j, b))
    ensures OnlyWritable(m, m', LinkedIn(h, j, b).blocks, head)
  {
    hide Layout, Placed, Headers, Rings, SettledBut, KeptBut, Nodes, LinkedIn, OnlyWritable, AllGood, Ordered, HeaderAt;
    LinkStores(m, m', head, heap, h, j, b, touched);
    var p := LinkReads(m, head, heap, h, j, b);
    FreeRingWritable(m, m', head, LinkedIn(h, j, b), Nodes(head, LinkedIn(h, j, b)), touched);
  }

  lemma LinkKeepsValid(m: Memory, m': Memory, heads: int, hs: seq<Heap>, n: int, b: Block, j: int)
    requires HeapsValid(m, heads, hs) && Injectable(m, heads, hs, n, b)
    requires Linkable(m, HeadOf(heads, n), n, hs[n], j, b)
    requires Represents(m', HeadOf(heads, n), n, LinkedIn(hs[n], j, b))
    requires OnlyWritable(m, m', LinkedIn(hs[n], j, b).blocks, HeadOf(heads, n))
    ensures HeapsValid(m', heads, hs[n := LinkedIn(hs[n], j, b)])
    ensures PayloadsKept(m, m', hs, hs[n := LinkedIn(hs[n], j, b)])
  {
    hide Placed, Headers, Rings, Covers, Writable, LinkedIn, UsedBlocks, AllGood, Ordered, FreeAddrs, Distinct, Elements;
    var l, k := LinkedIn(hs[n], j, b), 1 - n;
    HeapIsValid(m, heads, hs, n);
    LinkedInOrdered(hs[n], j, b);
    LinkedInSets(hs[n], j, b);
    forall x ensures Outside(heads, n, l, x) <==> Outside(heads, n, hs[n], x) && !(b.addr <= x < b.End()) {
      LinkedInCovers(hs[n], j, b, x);
    }
    forall x | 0 <= x < |m| && m'[x] != m[x] ensures Outside(heads, k, hs[k], x) {
      WritableCovered(l.blocks, HeadOf(heads, n), x);
      assert !Outside(heads, n, l, x);
    }
    Undisturbed(m, m', HeadOf(heads, k), k, hs[k]);
    LinkSpares(m, m', heads, hs, n, l);
  }

  lemma LinkSpares(m: Memory, m': Memory, heads: int, hs: seq<Heap>, n: int, l: Heap)
    requires HeapsValid(m, heads, hs) && 0 <= n < NHEAP
    requires Layout(l) && Placed(|m|, HeadOf(heads, n), l.blocks) && UsedBlocks(hs[n].blocks) <= UsedBlocks(l.blocks)
    requires OnlyWritable(m, m', l.blocks, HeadOf(heads, n))
    requires forall x :: 0 <= x < |m| && m'[x] != m[x] ==> Outside(heads, 1 - n, hs[1 - n], x)
    ensures PayloadsKept(m, m', hs, hs[n := l])
  {
    hide Writable, UsedBlocks, Covers, Placed, Headers, Rings, SettledBut, FreeAddrs, Distinct, Ordered;
    var hs' := hs[n := l];
    forall k, b, x | 0 <= k < NHEAP && b in UsedBlocks(hs[k].blocks) && b in UsedBlocks(hs'[k].blocks)
                     && b.addr + UNIT <= x < b.End() && 0 <= x < |m|
      ensures m'[x] == m[x]
    {
      if k == n {
        PayloadsSpared(|m|, l.blocks, HeadOf(heads, n), b, x);
      } else {
        HeapIsValid(m, heads, hs, k);
        UsedBytesCovered(hs[k].blocks, b, x);
        assert !Outside(heads, k, hs[k], x);
      }
    }
  }

  lemma InjectDone(m0: Memory, m1: Memory, m2: Memory, hs: seq<Heap>, n: int, b: Block, j: int)
    requires |hs| == NHEAP && 0 <= n < NHEAP && Insertable(hs[n], j, b)
    requires PayloadsKept(m0, m1, hs, hs[n := LinkedIn(hs[n], j, b)])
    requires PayloadsKept(m1, m2, hs[n := LinkedIn(hs[n], j, b)], hs[n := LinkedIn(hs[n], j, b)][n := Release(LinkedIn(hs[n], j, b), j)])
    ensures hs[n := LinkedIn(hs[n], j, b)][n := Release(LinkedIn(hs[n], j, b), j)] == hs[n := Release(LinkedIn(hs[n], j, b), j)]
    ensures PayloadsKept(m0, m2, hs, hs[n := Release(LinkedIn(hs[n], j, b), j)])
  {
    hide PayloadsKept, SettledBut, UsedBlocks, Release, AllGood, Ordered, FreeAddrs, Distinct, Elements;
    var l := LinkedIn(hs[n], j, b);
    LinkedInOrdered(hs[n], j, b);
    LinkedInSets(hs[n], j, b);
    LinkedInAt(hs[n], j, b, j);
    assert Layout(l);
    ReleaseCorrect(l, j);
    assert hs[n := l][n := Release(l, j)] == hs[n := Release(l, j)];
    KeptFurther(m0, m1, m2, hs, hs[n := l], hs[n := Release(l, j)], n);
  }

  lemma SuccCases(head: int, h: Heap, j: int)
    requires 0 <= j <= |h.blocks|
    ensures Succ(AllNodes(head, h), j) == if j < |h.blocks| then h.blocks[j].addr else head
  {
  }

  lemma PlaceFound(m: Memory, head: int, heap: int, h: Heap, b: Block, j: nat, nah: int)
    requires Represents(m, head, heap, h) && b.Good()
    requires j <= |h.blocks| && nah == (if j < |h.blocks| then h.blocks[j].addr else head)
    requires nah == head || nah >= b.End()
    requires forall i :: 0 <= i < j ==> h.blocks[i].End() <= b.addr
    ensures !Overlaps(h.blocks, b) && InsertPlace(h.blocks, b, j) == j
  {
    LayoutNodes(m, head, h);
    if j < |h.blocks| {
      AddrsDistinctHead(head, h, j);
      forall i | j <= i < |h.blocks| ensures h.blocks[i].addr >= b.End() {
        assert h.blocks[j].Good() && (i > j ==> h.blocks[j].End() <= h.blocks[i].addr);
      }
    }
  }

  lemma TaggedShrinks(m: Memory, heads: int, hs: seq<Heap>, n: int, tag: int)
    requires HeapsValid(m, heads, hs) && 0 <= n < NHEAP
    ensures UsedBlocks(ArenaRuns.FreeTagged(hs[n], 0, tag).blocks) <= UsedBlocks(hs[n].blocks)
  {
    hide UsedBlocks, Layout, SettledBut, ArenaRuns.FreeTagged;
    HeapIsValid(m, heads, hs, n);
    FreeTaggedCorrect(hs[n], 0, tag);
  }

  /** The heap a live pointer belongs to. */
  ghost function HeapHolding(hs: seq<Heap>, ptr: int): (n: int)
    requires |hs| == NHEAP && (Live(hs[0], ptr) || Live(hs[1], ptr))
    ensures 0 <= n < NHEAP && Live(hs[n], ptr)
  {
    if Live(hs[0], ptr) then 0 else 1
  }

  /** Every block live before and after a call keeps every word of its payload. */
  ghost predicate PayloadsKept(m: Memory, m': Memory, hs: seq<Heap>, hs': seq<Heap>) {
    && |m| == |m'| && |hs| == NHEAP && |hs'| == NHEAP
    && forall n, b, x ::
         (0 <= n < NHEAP && b in UsedBlocks(hs[n].blocks) && b in UsedBlocks(hs'[n].blocks)
          && b.addr + UNIT <= x < b.End() && 0 <= x < |m|) ==> m'[x] == m[x]
  }

  lemma NothingWritten(m: Memory, hs: seq<Heap>)
    requires |hs| == NHEAP
    ensures PayloadsKept(m, m, hs, hs)
  {
  }

  lemma ValidHeaps(m: Memory, heads: int, hs: seq<Heap>)
    requires HeapsValid(m, heads, hs)
    ensures |hs| == NHEAP
  {
  }

  lemma KeptFurther(m0: Memory, m1: Memory, m2: Memory, hs0: seq<Heap>, hs1: seq<Heap>, hs2: seq<Heap>, k: int)
    requires PayloadsKept(m0, m1, hs0, hs1) && PayloadsKept(m1, m2, hs1, hs2)
    requires 0 <= k < NHEAP && |hs1| == |hs2| == NHEAP && hs2[1 - k] == hs1[1 - k]
    requires UsedBlocks(hs2[k].blocks) <= UsedBlocks(hs1[k].blocks)
    ensures PayloadsKept(m0, m2, hs0, hs2)
  {
    hide UsedBlocks;
    forall n, b, x | 0 <= n < NHEAP && b in UsedBlocks(hs0[n].blocks) && b in UsedBlocks(hs2[n].blocks)
                     && b.addr + UNIT <= x < b.End() && 0 <= x < |m0|
      ensures m2[x] == m0[x]
    {
      assert b in UsedBlocks(hs1[n].blocks);
      assert m1[x] == m0[x];
    }
  }

  lemma FirstReads(m: Memory, head: int, heap: int, h: Heap)
    requires Represents(m, head, heap, h)
    ensures 0 <= head && head + HEADER_SPAN <= |m|
    ensures Field(m, head, NEXT) == if |h.blocks| > 0 then h.blocks[0].addr else head
  {
    hide Layout, Headers, Rings;
    HeadReads(m, head, heap, h);
  }

  lemma BlocksOffHead(m: Memory, heads: int, hs: seq<Heap>, n: int)
    requires HeapsValid(m, heads, hs) && 0 <= n < NHEAP
    ensures forall i :: 0 <= i < |hs[n].blocks| ==> hs[n].blocks[i].addr != HeadOf(heads, n)
  {
    hide Headers, Rings;
    HeapIsValid(m, heads, hs, n);
    LayoutNodes(m, HeadOf(heads, n), hs[n]);
    forall i | 0 <= i < |hs[n].blocks| ensures hs[n].blocks[i].addr != HeadOf(heads, n) {
      AddrsDistinctHead(HeadOf(heads, n), hs[n], i);
    }
  }

  ghost function Visited(h: Heap, i: int, tag: int): Heap
    requires 0 <= i < |h.blocks|
  {
    if !h.blocks[i].free && h.blocks[i].tag == tag then Release(h, i) else h
  }

  ghost function VisitPlace(h: Heap, i: int, tag: int): int
    requires 0 <= i < |h.blocks|
  {
    if !h.blocks[i].free && h.blocks[i].tag == tag then BackIndex(h, i) else i
  }

  /** Visiting the blocks from `i` on brings the heap to `goal`. */
  ghost predicate StillToVisit(h: Heap, i: nat, tag: int, goal: Heap)
    requires i <= |h.blocks|
  {
    ArenaRuns.FreeTagged(h, i, tag) == goal
  }

  lemma VisitBegin(h: Heap, tag: int) returns (goal: Heap)
    ensures goal == ArenaRuns.FreeTagged(h, 0, tag) && StillToVisit(h, 0, tag, goal)
  {
    goal := ArenaRuns.FreeTagged(h, 0, tag);
  }

  lemma VisitEnd(h: Heap, tag: int, goal: Heap)
    requires StillToVisit(h, |h.blocks|, tag, goal)
    ensures h == goal
  {
  }

  lemma VisitStep(m: Memory, heads: int, hs: seq<Heap>, n: int, i: int, tag: int, goal: Heap)
    requires HeapsValid(m, heads, hs) && 0 <= n < NHEAP && 0 <= i < |hs[n].blocks|
    requires StillToVisit(hs[n], i, tag, goal)
    ensures var r, k := Visited(hs[n], i, tag), VisitPlace(hs[n], i, tag);
            && 0 <= k < |r.blocks| && StillToVisit(r, k + 1, tag, goal)
            && |r.blocks| - k <= |hs[n].blocks| - i
            && UsedBlocks(r.blocks) <= UsedBlocks(hs[n].blocks)
  {
    hide Layout, SettledBut, UsedBlocks, Headers, Rings, Placed;
    HeapIsValid(m, heads, hs, n);
    ReleaseFreesAt(hs[n], i);
    if !hs[n].blocks[i].free {
      ReleaseCorrect(hs[n], i);
    }
  }

  lemma UsedBytesCovered(bs: seq<Block>, b: Block, x: int)
    requires AllGood(bs) && b in UsedBlocks(bs) && b.addr <= x < b.End()
    ensures Covers(bs, x)
  {
  }

  /** A step that keeps to what it may write in heap `n` spares all other payloads. */
  lemma WritesSpare(m: Memory, m': Memory, heads: int, hs: seq<Heap>, hs': seq<Heap>, n: int, bs: seq<Block>)
    requires HeapsValid(m, heads, hs) && 0 <= n < NHEAP && |hs'| == NHEAP
    requires AllGood(bs) && Ordered(bs) && Placed(|m|, HeadOf(heads, n), bs)
    requires SameCover(bs, hs[n].blocks) && OnlyWritable(m, m', bs, HeadOf(heads, n))
    requires forall b :: b in UsedBlocks(hs[n].blocks) && b in UsedBlocks(hs'[n].blocks) ==> b in UsedBlocks(bs)
    ensures PayloadsKept(m, m', hs, hs')
  {
    hide Writable, UsedBlocks, Covers, Placed, Headers, Rings, SettledBut, FreeAddrs, Distinct, Ordered;
    forall k, b, x | 0 <= k < NHEAP && b in UsedBlocks(hs[k].blocks) && b in UsedBlocks(hs'[k].blocks)
                     && b.addr + UNIT <= x < b.End() && 0 <= x < |m|
      ensures m'[x] == m[x]
    {
      if k == n {
        PayloadsSpared(|m|, bs, HeadOf(heads, n), b, x);
      } else {
        UsedBytesCovered(hs[k].blocks, b, x);
        WritableCovered(bs, HeadOf(heads, n), x);
        assert Covers(bs, x) <==> Covers(hs[n].blocks, x);
        assert Outside(heads, 0, hs[0], x) || Outside(heads, 1, hs[1], x);
      }
    }
  }

  lemma MallocStep(m: Memory, m': Memory, heads: int, hs: seq<Heap>, n: int, i: int, need: int, tag: int)
    requires HeapsValid(m, heads, hs) && 0 <= n < NHEAP && 0 <= i < |hs[n].blocks| && hs[n].blocks[i].free
    requires 2 * UNIT <= need <= hs[n].blocks[i].size && need % UNIT == 0
    requires Represents(m', HeadOf(heads, n), n, Allocate(hs[n], i, need, tag))
    requires OnlyWritable(m, m', hs[n].blocks, HeadOf(heads, n))
    ensures HeapsValid(m', heads, hs[n := Allocate(hs[n], i, need, tag)])
    ensures PayloadsKept(m, m', hs, hs[n := Allocate(hs[n], i, need, tag)])
  {
    hide Allocate, OnlyWritable, UsedBlocks, Covers, Headers, Rings, Placed, SettledBut, AllGood, Ordered, FreeAddrs, Distinct;
    HeapIsValid(m, heads, hs, n);
    AllocateCorrect(hs[n], i, need, tag);
    HeapsKept(m, m', heads, hs, n, Allocate(hs[n], i, need, tag), hs[n].blocks);
    WritesSpare(m, m', heads, hs, hs[n := Allocate(hs[n], i, need, tag)], n, hs[n].blocks);
  }

  lemma FreeStep(m: Memory, m': Memory, heads: int, hs: seq<Heap>, n: int, i: int)
    requires HeapsValid(m, heads, hs) && 0 <= n < NHEAP && 0 <= i < |hs[n].blocks| && !hs[n].blocks[i].free
    requires OnlyWritable(m, m', Marked(hs[n].blocks, i), HeadOf(heads, n))
    ensures PayloadsKept(m, m', hs, hs[n := Release(hs[n], i)])
  {
    hide Release, OnlyWritable, Covers, Headers, Rings, SettledBut, FreeAddrs, Distinct, UsedBlocks, PayloadsKept;
    HeapIsValid(m, heads, hs, n);
    ReleaseCorrect(hs[n], i);
    MarkedFacts(hs[n].blocks, i);
    MarkedSets(hs[n].blocks, i);
    WritesSpare(m, m', heads, hs, hs[n := Release(hs[n], i)], n, Marked(hs[n].blocks, i));
  }

  lemma FitFound(h: Heap, need: int)
    requires Layout(h) && FirstFit(h, need, 0) < |h.avail|
    ensures var a := h.avail[FirstFit(h, need, 0)];
            && a in Addrs(h.blocks) && h.blocks[BlockAt(h.blocks, a)].free && h.blocks[BlockAt(h.blocks, a)].size >= need
  {
    FreeIsAddr(h, h.avail[FirstFit(h, need, 0)]);
  }

  lemma RingStart(head: int, h: Heap)
    ensures Succ(FreeNodes(head, h), 0) == if |h.avail| > 0 then h.avail[0] else head
  {
  }

  /** What the search loop reads of the `k`-th free block. */
  lemma AvailReads(m: Memory, head: int, heap: int, h: Heap, k: int, need: int)
    requires Represents(m, head, heap, h) && 0 <= k <= |h.avail|
    requires (if k < |h.avail| then h.avail[k] else head) != head
    ensures k < |h.avail| && h.avail[k] in Addrs(h.blocks)
    ensures var a, i := h.avail[k], BlockAt(h.blocks, h.avail[k]);
            && 0 <= a && a + HEADER_SPAN <= |m| && h.blocks[i].free && h.blocks[i].addr == a
            && SizeOf(Field(m, a, ATTRS)) == h.blocks[i].size
            && (Fits(h, need, a) <==> h.blocks[i].size >= need)
            && Field(m, a, NEXT_FREE) == if k + 1 < |h.avail| then h.avail[k + 1] else head
  {
    hide Ordered, AllGood, Headers, Placed, Distinct, Elements, FreeAddrs, SizeOf, TypeOf, HeapOf;
    FreeIsAddr(h, h.avail[k]);
    HeaderReads(m, head, heap, h, BlockAt(h.blocks, h.avail[k]));
    RingAt(m, FreeNodes(head, h), NEXT_FREE, PREV_FREE, k + 1);
  }

  lemma HeadOffFreeRing(m: Memory, head: int, heap: int, h: Heap)
    requires Represents(m, head, heap, h)
    ensures head !in h.avail
  {
    hide Ordered, AllGood, Headers, Rings, Elements, FreeAddrs;
    LayoutNodes(m, head, h);
    forall k | 0 <= k < |h.avail| ensures h.avail[k] != head {
      assert FreeNodes(head, h)[0] != FreeNodes(head, h)[k + 1];
    }
  }

  lemma SplittableBlock(h: Heap, i: int, size: int)
    requires Layout(h) && 0 <= i < |h.blocks| && h.blocks[i].free
    requires 2 * UNIT <= size && size + 2 * UNIT <= h.blocks[i].size && size % UNIT == 0
    ensures Splittable(h.blocks, i, size)
  {
  }

  /** What `__malloc_from_block` reads before it splits block `i`. */
  lemma SplitReads(m: Memory, head: int, heap: int, h: Heap, i: int, size: int, tag: int)
    requires Represents(m, head, heap, h) && Settled(h.blocks) && Splittable(h.blocks, i, size)
    ensures h.blocks[i].addr in h.avail
    ensures var fp, nfp, nodes := h.blocks[i].addr, h.blocks[i].addr + size, Nodes(head, Split(h, i, size, tag));
            var na, nf, pf := NextOf(head, h, i), NextFreeOf(head, h, i), PrevFreeOf(head, h, i);
            && Spaced(m, nodes) && 0 <= fp && fp + HEADER_SPAN <= |m|
            && fp in nodes && nfp in nodes && na in nodes && nf in nodes && pf in nodes
            && nfp != fp && nfp != na && nfp != nf && nfp != pf && fp != nf && fp != pf
            && Field(m, fp, ATTRS) == Attrs(h.blocks[i].size, heap, TYPE_FREE)
            && HeapOf(Field(m, fp, ATTRS)) == heap && SizeOf(Field(m, fp, ATTRS)) == h.blocks[i].size
            && Field(m, fp, NEXT) == na && Field(m, fp, NEXT_FREE) == nf && Field(m, fp, PREV_FREE) == pf
            && h.blocks[i].size % UNIT == 0
  {
    hide Layout, Placed, Headers, Rings, Spaced, SplitBlocks, Inserted, AllNodes, AllGood, Ordered, FreeNodes, Elements, Distinct;
    hide NextOf, NextFreeOf, PrevFreeOf, Split, SettledBut, HeapOf, SizeOf, TypeOf, Nodes;
    HeaderReads(m, head, heap, h, i);
    FreeBlockOnRing(m, head, heap, h, i);
    NextInNodes(head, h, i);
    SplitNodes(m, head, h, i, size, tag);
    RestIsNew(|m|, head, h, i, size);
  }

  // The fields each burst of a split touches.
  function HeaderBurst(fp: int, nfp: int): set<(int, nat)> {
    {(nfp, ATTRS), (nfp, TAG), (fp, ATTRS), (fp, TAG)}
  }

  function ChainBurst(fp: int, nfp: int, na: int): set<(int, nat)> {
    {(nfp, PREV), (nfp, NEXT), (na, PREV), (fp, NEXT)}
  }

  function FreeChainBurst(nfp: int, nf: int, pf: int): set<(int, nat)> {
    {(nfp, NEXT_FREE), (nfp, PREV_FREE), (nf, PREV_FREE), (pf, NEXT_FREE)}
  }

  lemma HeaderBurstKeeps(m: Memory, m': Memory, nodes: set<int>, fp: int, nfp: int)
    requires KeptBut(m, m', nodes, HeaderBurst(fp, nfp)) && fp in nodes
    ensures |m'| == |m| && Field(m', fp, NEXT) == Field(m, fp, NEXT)
    ensures Field(m', fp, NEXT_FREE) == Field(m, fp, NEXT_FREE) && Field(m', fp, PREV_FREE) == Field(m, fp, PREV_FREE)
  {
  }

  lemma ChainBurstKeeps(m: Memory, m': Memory, nodes: set<int>, fp: int, nfp: int, na: int)
    requires KeptBut(m, m', nodes, ChainBurst(fp, nfp, na)) && fp in nodes
    ensures |m'| == |m|
    ensures Field(m', fp, NEXT_FREE) == Field(m, fp, NEXT_FREE) && Field(m', fp, PREV_FREE) == Field(m, fp, PREV_FREE)
  {
  }

  lemma BurstsTogether(head: int, h: Heap, i: int, nfp: int)
    requires 0 <= i < |h.blocks| && h.blocks[i].addr in h.avail
    ensures var fp := h.blocks[i].addr;
            HeaderBurst(fp, nfp) + ChainBurst(fp, nfp, NextOf(head, h, i))
              + FreeChainBurst(nfp, NextFreeOf(head, h, i), PrevFreeOf(head, h, i))
            == SplitTouched(head, h, i, nfp)
  {
    hide NextOf, NextFreeOf, PrevFreeOf;
  }

  lemma BurstsKeep(m1: Memory, m2: Memory, m3: Memory, nodes: set<int>, fp: int, nfp: int, na: int, nf: int, pf: int)
    requires fp in nodes && nfp in nodes && na in nodes
    requires KeptBut(m1, m2, nodes, ChainBurst(fp, nfp, na)) && KeptBut(m2, m3, nodes, FreeChainBurst(nfp, nf, pf))
    ensures forall k: nat :: k == TAG || k == ATTRS ==> Field(m3, fp, k) == Field(m1, fp, k) && Field(m3, nfp, k) == Field(m1, nfp, k)
    ensures Field(m3, nfp, PREV) == Field(m2, nfp, PREV) && Field(m3, nfp, NEXT) == Field(m2, nfp, NEXT)
    ensures Field(m3, na, PREV) == Field(m2, na, PREV) && Field(m3, fp, NEXT) == Field(m2, fp, NEXT)
  {
    hide KeptBut;
    forall k: nat | k == TAG || k == ATTRS
      ensures Field(m3, fp, k) == Field(m1, fp, k) && Field(m3, nfp, k) == Field(m1, nfp, k)
    {
      KeptField(m1, m2, nodes, ChainBurst(fp, nfp, na), fp, k);
      KeptField(m1, m2, nodes, ChainBurst(fp, nfp, na), nfp, k);
      KeptField(m2, m3, nodes, FreeChainBurst(nfp, nf, pf), fp, k);
      KeptField(m2, m3, nodes, FreeChainBurst(nfp, nf, pf), nfp, k);
    }
    KeptField(m2, m3, nodes, FreeChainBurst(nfp, nf, pf), nfp, PREV);
    KeptField(m2, m3, nodes, FreeChainBurst(nfp, nf, pf), nfp, NEXT);
    KeptField(m2, m3, nodes, FreeChainBurst(nfp, nf, pf), na, PREV);
    KeptField(m2, m3, nodes, FreeChainBurst(nfp, nf, pf), fp, NEXT);
  }

  /** The three bursts of a split together are the stores that SplitStores asks for. */
  lemma SplitDone(m0: Memory, m1: Memory, m2: Memory, m3: Memory, head: int, heap: int,
                  h: Heap, i: int, size: int, tag: int)
    requires Represents(m0, head, heap, h) && Settled(h.blocks) && Splittable(h.blocks, i, size)
    requires h.blocks[i].addr in h.avail
    requires
      var fp, nfp, nodes := h.blocks[i].addr, h.blocks[i].addr + size, Nodes(head, Split(h, i, size, tag));
      var na, nf, pf := NextOf(head, h, i), NextFreeOf(head, h, i), PrevFreeOf(head, h, i);
      && KeptBut(m0, m1, nodes, HeaderBurst(fp, nfp))
      && KeptBut(m1, m2, nodes, ChainBurst(fp, nfp, na))
      && KeptBut(m2, m3, nodes, FreeChainBurst(nfp, nf, pf))
      && HeaderAt(m1, heap, Block(fp, size, false, tag)) && HeaderAt(m1, heap, Rest(h.blocks[i], size))
      && Field(m2, nfp, PREV) == fp && Field(m2, nfp, NEXT) == na
      && Field(m2, na, PREV) == nfp && Field(m2, fp, NEXT) == nfp
      && Field(m3, nfp, NEXT_FREE) == nf && Field(m3, nfp, PREV_FREE) == pf
      && Field(m3, nf, PREV_FREE) == nfp && Field(m3, pf, NEXT_FREE) == nfp
    ensures Represents(m3, head, heap, Split(h, i, size, tag))
    ensures OnlyWritable(m0, m3, h.blocks, head)
  {
    hide Layout, Placed, Headers, Rings, Spaced, Nodes, AllNodes, FreeNodes, Elements, Distinct, Split, KeptBut;
    hide NextOf, NextFreeOf, PrevFreeOf, SettledBut, OnlyWritable, Writable, AllGood, Ordered;
    hide SplitTouched, HeaderBurst, ChainBurst, FreeChainBurst;
    var fp, nfp, nodes := h.blocks[i].addr, h.blocks[i].addr + size, Nodes(head, Split(h, i, size, tag));
    var na, nf, pf := NextOf(head, h, i), NextFreeOf(head, h, i), PrevFreeOf(head, h, i);
    SplitReads(m0, head, heap, h, i, size, tag);
    KeptTwice(m0, m1, m2, nodes, HeaderBurst(fp, nfp), ChainBurst(fp, nfp, na));
    KeptTwice(m0, m2, m3, nodes, HeaderBurst(fp, nfp) + ChainBurst(fp, nfp, na), FreeChainBurst(nfp, nf, pf));
    BurstsTogether(head, h, i, nfp);
    BurstsKeep(m1, m2, m3, nodes, fp, nfp, na, nf, pf);
    SplitStores(m0, m3, head, heap, h, i, size, tag);
    SplitWritable(m0, m3, head, heap, h, i, size, nodes);
  }

  lemma SplitWritable(m: Memory, m': Memory, head: int, heap: int, h: Heap, i: int, size: int, nodes: set<int>)
    requires Represents(m, head, heap, h) && Splittable(h.blocks, i, size) && h.blocks[i].addr in h.avail
    requires KeptBut(m, m', nodes, SplitTouched(head, h, i, h.blocks[i].addr + size))
    ensures OnlyWritable(m, m', h.blocks, head)
  {
    hide Layout, Placed, Headers, Rings, Spaced, AllGood, Ordered, FreeAddrs, Elements, Distinct, KeptBut;
    hide NextOf, NextFreeOf, PrevFreeOf, Addrs, FreeNodes, Nodes, Writable;
    HeaderReads(m, head, heap, h, i);
    FreeBlockOnRing(m, head, heap, h, i);
    NextInNodes(head, h, i);
    var nfp, touched := h.blocks[i].addr + size, SplitTouched(head, h, i, h.blocks[i].addr + size);
    forall t | t in touched ensures Writable(h.blocks, head, t.0 + t.1) {
      if t.0 == nfp {
        RestWritable(h.blocks, head, i, size, t.1);
      } else if t.1 < UNIT {
        NodeWritable(m, head, h, t.0, t.1);
      } else {
        FreeNodeWritable(m, head, h, t.0, t.1);
      }
    }
    TouchedWritable(m, m', head, h.blocks, nodes, touched);
  }

  lemma RestWritable(bs: seq<Block>, head: int, i: int, size: int, k: nat)
    requires Splittable(bs, i, size) && k < HEADER_SPAN
    ensures Writable(bs, head, bs[i].addr + size + k)
  {
    assert bs[i].addr <= bs[i].addr + size + k < bs[i].End();
  }

  lemma SpacedBounds(m: Memory, nodes: set<int>, a: int)
    requires Spaced(m, nodes) && a in nodes
    ensures 0 <= a && a + HEADER_SPAN <= |m|
  {
  }

  lemma SpacedLength(m: Memory, m': Memory, nodes: set<int>)
    requires Spaced(m, nodes) && |m'| == |m|
    ensures Spaced(m', nodes)
  {
  }

  lemma KeptRefl(m: Memory, nodes: set<int>)
    ensures KeptBut(m, m, nodes, {})
  {
  }

  /** The three macros that set type, heap and size overwrite all of an attribute word. */
  lemma FreshAttrs(attrs: int, heap: int, size: int)
    requires 0 <= heap < 4 && 0 <= size && size % 16 == 0
    ensures WithSize(WithHeap(WithType(attrs, TYPE_FREE), heap), size) == Attrs(size, heap, TYPE_FREE)
  {
    hide WithType, WithHeap, TypeOf;
    TypeSet(attrs);
    HeapSet(WithType(attrs, TYPE_FREE), heap);
  }

  lemma TypeSet(attrs: int)
    ensures TypeOf(WithType(attrs, TYPE_FREE)) == TYPE_FREE
  {
    Quotient(attrs, 4);
    DivUnique(WithType(attrs, TYPE_FREE), 4, attrs / 4, TYPE_FREE);
  }

  lemma HeapSet(attrs: int, heap: int)
    requires 0 <= heap < 4 && TypeOf(attrs) == TYPE_FREE
    ensures WithHeap(attrs, heap) % 16 == heap * 4 + TYPE_FREE
  {
    hide TypeOf;
    DivUnique(heap, 4, 0, heap);
    Quotient(attrs, 16);
    DivUnique(WithHeap(attrs, heap), 16, attrs / 16, heap * 4 + TYPE_FREE);
  }

  lemma ReleaseSteps(h: Heap, i: int)
    requires Layout(h) && Settled(h.blocks) && 0 <= i < |h.blocks| && !h.blocks[i].free
    ensures var b, k := ReleasedBack(h, i), BackIndex(h, i);
            && SettledBut(b.blocks, k) && b.blocks[k].free
            && k < |Release(h, i).blocks| && Release(h, i).blocks[k].addr == b.blocks[k].addr
    ensures SameCover(Release(h, i).blocks, h.blocks) && Settled(Release(h, i).blocks)
    ensures AllGood(Marked(h.blocks, i)) && SameCover(Marked(h.blocks, i), h.blocks)
  {
    hide Covers, FreeAddrs, Distinct, Elements, UsedBlocks;
    ReleaseCorrect(h, i);
    MarkedFacts(h.blocks, i);
    if JoinsPrevious(h.blocks, i) {
      AbsorbReleases(h, i);
    } else {
      PushReleases(h, i);
    }
    var b, k := ReleasedBack(h, i), BackIndex(h, i);
    if JoinsNext(b.blocks, k) {
      JoinedAt(b.blocks, k, k);
    }
  }

  /** A free block's place on the free ring, as its header tells it. */
  lemma FreeBlockOnRing(m: Memory, head: int, heap: int, h: Heap, i: int)
    requires Represents(m, head, heap, h) && 0 <= i < |h.blocks| && h.blocks[i].free
    ensures h.blocks[i].addr in h.avail
    ensures Field(m, h.blocks[i].addr, NEXT_FREE) == NextFreeOf(head, h, i)
    ensures Field(m, h.blocks[i].addr, PREV_FREE) == PrevFreeOf(head, h, i)
    ensures NextFreeOf(head, h, i) in FreeNodes(head, h) && NextFreeOf(head, h, i) in Nodes(head, h)
    ensures PrevFreeOf(head, h, i) in FreeNodes(head, h) && PrevFreeOf(head, h, i) in Nodes(head, h)
    ensures h.blocks[i].addr != NextFreeOf(head, h, i) && h.blocks[i].addr != PrevFreeOf(head, h, i)
  {
    hide Ordered, AllGood, Headers, Placed, Spaced, Ring;
    LayoutNodes(m, head, h);
    var f := FreeNodes(head, h);
    assert h.blocks[i].addr in FreeAddrs(h.blocks);
    assert h.blocks[i].addr in Elements(h.avail);
    var p := IndexOf(h.avail, h.blocks[i].addr) + 1;
    assert f[p] == h.blocks[i].addr;
    RingAt(m, f, NEXT_FREE, PREV_FREE, p);
    var q := if p + 1 < |f| then p + 1 else 0;
    assert f[q] in Elements(f) && f[p - 1] in Elements(f);
    assert if q < p then f[q] != f[p] else f[p] != f[q];
    assert f[p - 1] != f[p];
  }

  lemma RingAt(m: Memory, s: seq<int>, n: nat, p: nat, i: int)
    requires Ring(m, s, n, p) && 0 <= i < |s|
    ensures Field(m, s[i], n) == Succ(s, i) && Field(m, s[i], p) == Pred(s, i)
  {
    assert Linked(m, s, n, p, i);
  }

  /** Stores to ring words of all nodes and to free-ring words of free nodes are writable. */
  lemma FreeRingWritable(m: Memory, m': Memory, head: int, h: Heap, nodes: set<int>, touched: set<(int, nat)>)
    requires Layout(h) && nodes == Nodes(head, h) && KeptBut(m, m', nodes, touched)
    requires forall t :: t in touched ==> (t.0 in nodes && t.1 < UNIT) || (t.0 in FreeNodes(head, h) && t.1 < HEADER_SPAN)
    ensures OnlyWritable(m, m', h.blocks, head)
  {
    hide KeptBut, Writable, Nodes, Layout, FreeNodes;
    forall t | t in touched ensures Writable(h.blocks, head, t.0 + t.1) {
      if t.0 in nodes && t.1 < UNIT {
        NodeWritable(m, head, h, t.0, t.1);
      } else {
        FreeNodeWritable(m, head, h, t.0, t.1);
      }
    }
    TouchedWritable(m, m', head, h.blocks, nodes, touched);
  }

  /** Stores to the first four words of any node stay within what may be written. */
  lemma NodesWritable(m: Memory, m': Memory, head: int, h: Heap, nodes: set<int>, touched: set<(int, nat)>)
    requires Layout(h) && nodes == Nodes(head, h) && KeptBut(m, m', nodes, touched)
    requires forall t :: t in touched ==> t.0 in nodes && t.1 < UNIT
    ensures OnlyWritable(m, m', h.blocks, head)
  {
    hide KeptBut, Writable, Nodes;
    forall t | t in touched ensures Writable(h.blocks, head, t.0 + t.1) {
      NodeWritable(m, head, h, t.0, t.1);
    }
    TouchedWritable(m, m', head, h.blocks, nodes, touched);
  }

  lemma PushWritable(m: Memory, m': Memory, head: int, h: Heap, i: int, nodes: set<int>, touched: set<(int, nat)>)
    requires Layout(h) && nodes == Nodes(head, h) && KeptBut(m, m', nodes, touched)
    requires 0 <= i < |h.blocks|
    requires var ah, nf := h.blocks[i].addr, Succ(FreeNodes(head, h), 0);
      touched == {(ah, ATTRS), (ah, TAG), (ah, NEXT_FREE), (ah, PREV_FREE), (head, NEXT_FREE), (nf, PREV_FREE)}
    ensures OnlyWritable(m, m', Marked(h.blocks, i), head)
  {
    hide KeptBut, Ordered, FreeAddrs, Elements, Addrs, Nodes;
    var bs := Marked(h.blocks, i);
    assert bs[i].addr == h.blocks[i].addr && bs[i].free && h.blocks[i].Good();
    var nf := Succ(FreeNodes(head, h), 0);
    FreeNodeWritable(m, head, h, nf, PREV_FREE);
    MarkedWritable(h.blocks, i, head, nf + PREV_FREE);
    forall t | t in touched ensures Writable(bs, head, t.0 + t.1) {
    }
    TouchedWritable(m, m', head, bs, nodes, touched);
  }

  lemma NextInNodes(head: int, h: Heap, i: int)
    requires 0 <= i < |h.blocks|
    ensures NextOf(head, h, i) in Nodes(head, h)
    ensures NextOf(head, h, i) == if i + 1 < |h.blocks| then h.blocks[i + 1].addr else head
  {
    NodeMember(head, h, if i + 2 < |AllNodes(head, h)| then i + 2 else 0);
  }

  lemma UsedOffFreeRing(m: Memory, head: int, h: Heap, i: int)
    requires Layout(h) && NodesOk(m, head, h) && 0 <= i < |h.blocks| && !h.blocks[i].free
    ensures h.blocks[i].addr !in FreeNodes(head, h) && h.blocks[i].addr !in h.avail
  {
    MarkedSets(h.blocks, i);
    assert h.blocks[i].addr !in Elements(h.avail);
    AddrsDistinctHead(head, h, i);
  }

  lemma FirstFreeInNodes(m: Memory, head: int, h: Heap)
    requires NodesOk(m, head, h)
    ensures Succ(FreeNodes(head, h), 0) in Nodes(head, h)
    ensures Succ(FreeNodes(head, h), 0) in FreeNodes(head, h)
  {
    var f := FreeNodes(head, h);
    assert f[if |f| > 1 then 1 else 0] in Elements(f);
  }

  lemma MarkedWritable(bs: seq<Block>, i: int, head: int, x: int)
    requires 0 <= i < |bs| && bs[i].Good() && Writable(bs, head, x)
    ensures Writable(Marked(bs, i), head, x)
  {
    if !(head <= x < head + HEADER_SPAN) {
      var j :| 0 <= j < |bs| && bs[j].addr <= x < (if bs[j].free then bs[j].End() else bs[j].addr + UNIT);
      var r := Marked(bs, i);
      assert r[j].addr <= x < (if r[j].free then r[j].End() else r[j].addr + UNIT);
    }
  }

  lemma TouchedWritable(m: Memory, m': Memory, head: int, bs: seq<Block>, nodes: set<int>, touched: set<(int, nat)>)
    requires KeptBut(m, m', nodes, touched)
    requires forall t :: t in touched ==> Writable(bs, head, t.0 + t.1)
    ensures OnlyWritable(m, m', bs, head)
  {
  }
}
