/**
 Whole-heap consequences: the blocks are a function of the managed bytes and the live
 allocations, a request fails only for want of a free stretch, and any run of requests
 can be undone.
 */
module ArenaRuns {
  import opened WordRings
  import opened ArenaModel

  ghost predicate Normal(bs: seq<Block>) {
    AllGood(bs) && Ordered(bs) && Settled(bs)
  }

  lemma NormalTail(bs: seq<Block>)
    requires Normal(bs) && bs != []
    ensures Normal(bs[1..])
    ensures UsedBlocks(bs[1..]) == UsedBlocks(bs) - {bs[0]}
  {
    var t := bs[1..];
    forall i | 0 <= i < |t| - 1 ensures !Touching(t[i], t[i + 1]) {
      assert !Touching(bs[i + 1], bs[i + 2]);
    }
    forall b | b in UsedBlocks(t) ensures b in UsedBlocks(bs) - {bs[0]} {
      var i :| 0 <= i < |t| && !t[i].free && t[i] == b;
      AddrsDiffer(bs, i + 1, 0);
    }
    forall b | b in UsedBlocks(bs) - {bs[0]} ensures b in UsedBlocks(t) {
      var i :| 0 <= i < |bs| && !bs[i].free && bs[i] == b;
      assert t[i - 1] == b;
    }
  }

  lemma TailCovers(bs: seq<Block>, x: int)
    requires Normal(bs) && bs != []
    ensures Covers(bs[1..], x) <==> Covers(bs, x) && x >= bs[0].End()
  {
    var t := bs[1..];
    if Covers(t, x) {
      var i :| 0 <= i < |t| && t[i].addr <= x < t[i].End();
      assert bs[i + 1].addr <= x < bs[i + 1].End();
    }
    if Covers(bs, x) && x >= bs[0].End() {
      var i :| 0 <= i < |bs| && bs[i].addr <= x < bs[i].End();
      assert t[i - 1].addr <= x < t[i - 1].End();
    }
  }

  lemma FirstCovers(bs: seq<Block>, x: int)
    requires Normal(bs) && bs != [] && bs[0].addr <= x < bs[0].End()
    ensures Covers(bs, x)
  {
  }

  lemma CoversFromFirst(bs: seq<Block>, x: int)
    requires Normal(bs) && Covers(bs, x)
    ensures bs != [] && bs[0].addr <= x
  {
    var i :| 0 <= i < |bs| && bs[i].addr <= x < bs[i].End();
    assert bs[0].Good();
    if i > 0 { assert bs[0].End() <= bs[i].addr; }
  }

  /** A live block lying in the first block's bytes is the first block. */
  lemma UsedInFirst(bs: seq<Block>, b: Block)
    requires Normal(bs) && bs != [] && b in UsedBlocks(bs) && b.addr < bs[0].End()
    ensures b == bs[0]
  {
    var i :| 0 <= i < |bs| && !bs[i].free && bs[i] == b;
    if i > 0 { assert bs[0].End() <= bs[i].addr; }
  }

  lemma SecondBefore(bs: seq<Block>, i: int)
    requires Normal(bs) && 1 < i < |bs|
    ensures bs[1].End() <= bs[i].addr
  {
  }

  /** A free first block ends where managed memory ends or a live block begins. */
  lemma FreeFirstEnds(bs: seq<Block>)
    requires Normal(bs) && bs != [] && bs[0].free && Covers(bs, bs[0].End())
    ensures |bs| > 1 && !bs[1].free && bs[1].addr == bs[0].End() && bs[1] in UsedBlocks(bs)
  {
    var x := bs[0].End();
    var i :| 0 <= i < |bs| && bs[i].addr <= x < bs[i].End();
    assert bs[0].End() <= bs[1].addr;
    assert i == 1 by {
      assert bs[1].Good();
      if i > 1 { SecondBefore(bs, i); }
    }
    assert !Touching(bs[0], bs[1]);
  }

  lemma FreeFirstNotShorter(bs: seq<Block>, cs: seq<Block>)
    requires Normal(bs) && Normal(cs) && bs != [] && cs != []
    requires SameCover(bs, cs) && UsedBlocks(bs) == UsedBlocks(cs)
    requires bs[0].addr == cs[0].addr && bs[0].free && cs[0].free
    ensures bs[0].End() >= cs[0].End()
  {
    if bs[0].End() < cs[0].End() {
      assert bs[0].Good();
      FirstCovers(cs, bs[0].End());
      FreeFirstEnds(bs);
      UsedInFirst(cs, bs[1]);
    }
  }

  /** The blocks are determined by the managed bytes and the live allocations alone. */
  lemma {:induction false} BlocksDetermined(bs: seq<Block>, cs: seq<Block>)
    requires Normal(bs) && Normal(cs)
    requires SameCover(bs, cs) && UsedBlocks(bs) == UsedBlocks(cs)
    ensures bs == cs
  {
    if bs == [] {
      if cs != [] {
        assert cs[0].Good();
        FirstCovers(cs, cs[0].addr);
      }
    } else {
      assert bs[0].Good();
      FirstCovers(bs, bs[0].addr);
      CoversFromFirst(cs, bs[0].addr);
      assert cs[0].Good();
      FirstCovers(cs, cs[0].addr);
      CoversFromFirst(bs, cs[0].addr);
      FirstsAgree(bs, cs);
      NormalTail(bs);
      NormalTail(cs);
      forall x ensures Covers(bs[1..], x) <==> Covers(cs[1..], x) {
        TailCovers(bs, x);
        TailCovers(cs, x);
      }
      BlocksDetermined(bs[1..], cs[1..]);
      assert bs == [bs[0]] + bs[1..] && cs == [cs[0]] + cs[1..];
    }
  }

  lemma FirstsAgree(bs: seq<Block>, cs: seq<Block>)
    requires Normal(bs) && Normal(cs) && bs != [] && cs != []
    requires SameCover(bs, cs) && UsedBlocks(bs) == UsedBlocks(cs)
    requires bs[0].addr == cs[0].addr
    ensures bs[0] == cs[0]
  {
    assert bs[0].Good() && cs[0].Good();
    if !bs[0].free {
      assert bs[0] in UsedBlocks(bs);
      UsedInFirst(cs, bs[0]);
    } else if !cs[0].free {
      assert cs[0] in UsedBlocks(cs);
      UsedInFirst(bs, cs[0]);
    } else {
      FreeFirstNotShorter(bs, cs);
      FreeFirstNotShorter(cs, bs);
    }
  }

  // ---------- requests (malloc.c:57-84, free.c:66-141)

  const WORD: int := 0x1_0000_0000

  /** The block size for a request: one header more, rounded up to whole units in 32 bits. */
  function Rounded(size: int): int {
    var up := (size + 2 * UNIT - 1) % WORD;
    up - up % UNIT
  }

  /** The 32-bit rounding makes room for header and payload exactly up to 2^32 - 32. */
  lemma RoundedFits(size: int)
    requires 0 < size < WORD
    ensures size <= WORD - 2 * UNIT <==> Rounded(size) >= size + UNIT
    ensures size <= WORD - 2 * UNIT ==> Rounded(size) < size + 2 * UNIT
    ensures Rounded(size) % UNIT == 0
  {
    if size <= WORD - 2 * UNIT {
      assert (size + 2 * UNIT - 1) % WORD == size + 2 * UNIT - 1;
    } else {
      assert (size + 2 * UNIT - 1) % WORD == size + 2 * UNIT - 1 - WORD;
    }
  }

  ghost function BlockAt(bs: seq<Block>, a: int): (i: nat)
    requires a in Addrs(bs)
    ensures i < |bs| && bs[i].addr == a
  {
    IndexOf(Addrs(bs), a)
  }

  ghost predicate Fits(h: Heap, need: int, a: int) {
    a in Addrs(h.blocks) && h.blocks[BlockAt(h.blocks, a)].size >= need
  }

  /** Position on the free ring of the first block that is large enough. */
  ghost function FirstFit(h: Heap, need: int, k: nat): (r: nat)
    requires k <= |h.avail|
    ensures k <= r <= |h.avail|
    ensures forall j :: k <= j < r ==> !Fits(h, need, h.avail[j])
    ensures r < |h.avail| ==> Fits(h, need, h.avail[r])
    decreases |h.avail| - k
  {
    if k == |h.avail| || Fits(h, need, h.avail[k]) then k else FirstFit(h, need, k + 1)
  }

  datatype Answer = Answer(heap: Heap, ptr: int)

  ghost function Malloc(h: Heap, size: int, tag: int): Answer {
    if size == 0 then Answer(h, 0)
    else
      var k := FirstFit(h, Rounded(size), 0);
      if k == |h.avail| then Answer(h, 0)
      else Answer(Allocate(h, BlockAt(h.blocks, h.avail[k]), Rounded(size), tag), h.avail[k] + UNIT)
  }

  ghost predicate Live(h: Heap, ptr: int) {
    exists i :: 0 <= i < |h.blocks| && !h.blocks[i].free && h.blocks[i].addr + UNIT == ptr
  }

  ghost function LiveAt(h: Heap, ptr: int): (i: int)
    requires Live(h, ptr)
    ensures 0 <= i < |h.blocks| && !h.blocks[i].free && h.blocks[i].addr + UNIT == ptr
  {
    var i :| 0 <= i < |h.blocks| && !h.blocks[i].free && h.blocks[i].addr + UNIT == ptr;
    i
  }

  ghost function FreeTagged(h: Heap, i: nat, tag: int): Heap
    requires i <= |h.blocks|
    decreases |h.blocks| - i
  {
    if i == |h.blocks| then h
    else if !h.blocks[i].free && h.blocks[i].tag == tag then
      FreeTagged(Release(h, i), BackIndex(h, i) + 1, tag)
    else FreeTagged(h, i + 1, tag)
  }

  ghost predicate Sound(h: Heap) {
    Layout(h) && Settled(h.blocks)
  }

  // ---------- allocation

  /** `n` consecutive bytes that the heap manages and nobody holds. */
  ghost predicate FreeStretch(bs: seq<Block>, x: int, n: int) {
    forall y :: x <= y < x + n ==> FreeByte(bs, y)
  }

  /** A stretch of free bytes that starts in a free block ends in the same block. */
  lemma {:induction false} StretchInBlock(bs: seq<Block>, x: int, n: int, i: int)
    requires Normal(bs) && n > 0 && FreeStretch(bs, x, n)
    requires 0 <= i < |bs| && bs[i].free && bs[i].addr <= x < bs[i].End()
    ensures x + n <= bs[i].End()
    decreases n
  {
    if n > 1 {
      StretchInBlock(bs, x, n - 1, i);
      var y := x + n - 1;
      assert FreeByte(bs, y);
      var j :| 0 <= j < |bs| && bs[j].free && bs[j].addr <= y < bs[j].End();
      if y == bs[i].End() {
        NextFreeApart(bs, i, j);
      }
    }
  }

  lemma NextFreeApart(bs: seq<Block>, i: int, j: int)
    requires Normal(bs) && 0 <= i < |bs| && 0 <= j < |bs| && bs[i].free && bs[j].free
    ensures !(bs[j].addr <= bs[i].End() < bs[j].End())
  {
    assert bs[i].Good() && bs[j].Good();
    if j > i + 1 {
      assert bs[i + 1].Good();
      assert bs[i].End() <= bs[i + 1].addr && bs[i + 1].End() <= bs[j].addr;
    } else if j == i + 1 {
      assert !Touching(bs[i], bs[i + 1]);
      assert bs[i].End() <= bs[j].addr;
    } else if j < i {
      assert bs[j].End() <= bs[i].addr;
    }
  }

  lemma FitsIsFreeBlock(h: Heap, need: int)
    requires Layout(h)
    ensures (exists k :: 0 <= k < |h.avail| && Fits(h, need, h.avail[k]))
       <==> (exists i :: 0 <= i < |h.blocks| && h.blocks[i].free && h.blocks[i].size >= need)
  {
    if k :| 0 <= k < |h.avail| && Fits(h, need, h.avail[k]) {
      FreeIsAddr(h, h.avail[k]);
    }
    if i :| 0 <= i < |h.blocks| && h.blocks[i].free && h.blocks[i].size >= need {
      var a := h.blocks[i].addr;
      assert a in FreeAddrs(h.blocks) && a in Elements(h.avail);
      var k :| 0 <= k < |h.avail| && h.avail[k] == a;
      assert Addrs(h.blocks)[i] == a;
      if BlockAt(h.blocks, a) != i { AddrsDiffer(h.blocks, BlockAt(h.blocks, a), i); }
      assert Fits(h, need, h.avail[k]);
    }
  }

  /** A nonzero request fails only when no stretch of free bytes is long enough for it. */
  lemma MallocFailsOnlyWhenFull(h: Heap, size: int, tag: int)
    requires Sound(h) && 0 < size <= WORD - 2 * UNIT
    ensures Malloc(h, size, tag).ptr == 0 <==> !exists x :: FreeStretch(h.blocks, x, Rounded(size))
    ensures Malloc(h, size, tag).ptr == 0 ==> Malloc(h, size, tag).heap == h
  {
    var need := Rounded(size);
    RoundedFits(size);
    FitsIsFreeBlock(h, need);
    var k := FirstFit(h, need, 0);
    if k < |h.avail| {
      FreeIsAddr(h, h.avail[k]);
      var i := BlockAt(h.blocks, h.avail[k]);
      assert h.blocks[i].Good();
      assert FreeStretch(h.blocks, h.blocks[i].addr, need);
    } else if x :| FreeStretch(h.blocks, x, need) {
      assert FreeByte(h.blocks, x);
      var i :| 0 <= i < |h.blocks| && h.blocks[i].free && h.blocks[i].addr <= x < h.blocks[i].End();
      StretchInBlock(h.blocks, x, need, i);
    }
  }

  /**
     A successful request adds one live block with room for the payload.  It takes less than
     four units more than was asked for, and every other free byte stays free.
   */
  lemma MallocSound(h: Heap, size: int, tag: int)
    requires Sound(h) && 0 <= size <= WORD - 2 * UNIT && Malloc(h, size, tag).ptr != 0
    ensures exists b: Block ::
              && b.addr + UNIT == Malloc(h, size, tag).ptr && size <= b.size - UNIT && b.size < size + 4 * UNIT
              && b.tag == tag && !b.free
              && Allocates(h, Malloc(h, size, tag).heap, b)
              && TakesOnly(h.blocks, Malloc(h, size, tag).heap.blocks, b)
  {
    hide Allocates, TakesOnly, Rounded, Layout, Settled;
    RoundedFits(size);
    var need := Rounded(size);
    var k := FirstFit(h, need, 0);
    FreeIsAddr(h, h.avail[k]) by { assert Sound(h); }
    AllocateCorrect(h, BlockAt(h.blocks, h.avail[k]), need, tag);
  }

  lemma MallocPtr(h: Heap, size: int, tag: int)
    requires Sound(h)
    ensures Malloc(h, size, tag).ptr == 0 ==> Malloc(h, size, tag).heap == h
    ensures size == 0 ==> Malloc(h, size, tag).ptr == 0
  {
    if size != 0 {
      var k := FirstFit(h, Rounded(size), 0);
      if k < |h.avail| {
        FreeIsAddr(h, h.avail[k]);
        assert h.blocks[BlockAt(h.blocks, h.avail[k])].Good();
      }
    }
  }

  lemma UsedIsLive(h: Heap, b: Block)
    requires Layout(h) && b in UsedBlocks(h.blocks)
    ensures Live(h, b.addr + UNIT) && h.blocks[LiveAt(h, b.addr + UNIT)] == b
  {
    var i :| 0 <= i < |h.blocks| && !h.blocks[i].free && h.blocks[i] == b;
    assert Live(h, b.addr + UNIT);
    var j := LiveAt(h, b.addr + UNIT);
    if i != j { AddrsDiffer(h.blocks, i, j); }
  }

  lemma AllocatesLive(h: Heap, h': Heap, b: Block)
    requires Allocates(h, h', b)
    ensures b in UsedBlocks(h'.blocks)
    ensures UsedBlocks(h'.blocks) - {b} == UsedBlocks(h.blocks)
  {
    hide UsedBlocks, Layout, SettledBut, Covers;
    assert b in UsedBlocks(h.blocks) + {b};
  }

  /** Freeing what was just allocated restores every block. */
  lemma FreeUndoesMalloc(h: Heap, size: int, tag: int)
    requires Sound(h) && 0 <= size <= WORD - 2 * UNIT && Malloc(h, size, tag).ptr != 0
    ensures var a := Malloc(h, size, tag);
            Live(a.heap, a.ptr) && Release(a.heap, LiveAt(a.heap, a.ptr)).blocks == h.blocks
  {
    var a := Malloc(h, size, tag);
    MallocSound(h, size, tag);
    var b: Block :| b.addr + UNIT == a.ptr && !b.free && Allocates(h, a.heap, b);
    AllocatesLive(h, a.heap, b);
    UsedIsLive(a.heap, b);
    var i := LiveAt(a.heap, a.ptr);
    ReleaseCorrect(a.heap, i);
    var r := Release(a.heap, i);
    CoverTransitive(r.blocks, a.heap.blocks, h.blocks);
    BlocksDetermined(r.blocks, h.blocks);
  }

  lemma CoverTransitive(a: seq<Block>, b: seq<Block>, c: seq<Block>)
    requires SameCover(a, b) && SameCover(b, c)
    ensures SameCover(a, c)
  {
    forall x ensures Covers(a, x) <==> Covers(c, x) {
      assert Covers(a, x) <==> Covers(b, x);
    }
  }

  // ---------- freeing by tag

  ghost function Tagged(bs: seq<Block>, tag: int): set<Block> {
    set b | b in UsedBlocks(bs) && b.tag == tag
  }

  /** Nothing before position `i` is live with this tag. */
  ghost predicate ClearOfTag(bs: seq<Block>, i: nat, tag: int) {
    forall j :: 0 <= j < i && j < |bs| && !bs[j].free ==> bs[j].tag != tag
  }

  lemma ReleasePrefix(h: Heap, i: int, j: int)
    requires 0 <= i < |h.blocks| && 0 <= j < BackIndex(h, i)
    ensures j < |Release(h, i).blocks| && Release(h, i).blocks[j] == h.blocks[j]
  {
    var b, k := ReleasedBack(h, i), BackIndex(h, i);
    if JoinsPrevious(h.blocks, i) {
      JoinedAt(Marked(h.blocks, i), i - 1, j);
    }
    if JoinsNext(b.blocks, k) {
      JoinedAt(b.blocks, k, j);
    }
  }

  lemma ReleaseFreesAt(h: Heap, i: int)
    requires 0 <= i < |h.blocks|
    ensures BackIndex(h, i) < |Release(h, i).blocks| && Release(h, i).blocks[BackIndex(h, i)].free
  {
    var b, k := ReleasedBack(h, i), BackIndex(h, i);
    if JoinsPrevious(h.blocks, i) {
      JoinedAt(Marked(h.blocks, i), i - 1, k);
    }
    if JoinsNext(b.blocks, k) {
      JoinedAt(b.blocks, k, k);
    }
  }

  lemma ReleaseClear(h: Heap, i: nat, tag: int)
    requires i < |h.blocks| && ClearOfTag(h.blocks, i, tag)
    ensures ClearOfTag(Release(h, i).blocks, BackIndex(h, i) + 1, tag)
  {
    hide Release, BackIndex;
    BackBefore(h, i);
    ReleaseFreesAt(h, i);
    var r, k := Release(h, i), BackIndex(h, i);
    forall j | 0 <= j < k + 1 && j < |r.blocks| && !r.blocks[j].free ensures r.blocks[j].tag != tag {
      if j < k { ReleasePrefix(h, i, j); }
    }
  }

  lemma BackBefore(h: Heap, i: nat)
    requires i < |h.blocks|
    ensures BackIndex(h, i) <= i
  {
  }

  lemma TaggedLess(bs: seq<Block>, rs: seq<Block>, b: Block, tag: int)
    requires UsedBlocks(rs) == UsedBlocks(bs) - {b} && b in UsedBlocks(bs) && b.tag == tag
    ensures b in Tagged(bs, tag) && Tagged(bs, tag) == Tagged(rs, tag) + {b}
  {
  }

  /** Freeing by tag frees the live blocks with that tag and no other. */
  lemma {:induction false} FreeTaggedCorrect(h: Heap, i: nat, tag: int)
    requires Sound(h) && i <= |h.blocks| && ClearOfTag(h.blocks, i, tag)
    ensures Releases(h, FreeTagged(h, i, tag), Tagged(h.blocks, tag))
    ensures Sound(FreeTagged(h, i, tag))
    decreases |h.blocks| - i
  {
    if i == |h.blocks| {
      assert Tagged(h.blocks, tag) == {};
    } else if !h.blocks[i].free && h.blocks[i].tag == tag {
      var r, k := Release(h, i), BackIndex(h, i);
      ReleaseCorrect(h, i);
      ReleaseFreesAt(h, i);
      ReleaseClear(h, i, tag);
      FreeTaggedCorrect(r, k + 1, tag);
      CoverTransitive(FreeTagged(r, k + 1, tag).blocks, r.blocks, h.blocks);
      TaggedLess(h.blocks, r.blocks, h.blocks[i], tag);
    } else {
      FreeTaggedCorrect(h, i + 1, tag);
    }
  }

  // ---------- injecting memory (free.c:92-126)

  ghost predicate Overlaps(bs: seq<Block>, b: Block) {
    exists i :: 0 <= i < |bs| && bs[i].addr < b.End() && b.addr < bs[i].End()
  }

  /** The place the ordered insertion walks to. */
  ghost function InsertPlace(bs: seq<Block>, b: Block, j: nat): (r: nat)
    requires j <= |bs|
    ensures j <= r <= |bs|
    ensures forall i :: j <= i < r ==> bs[i].addr < b.End()
    ensures r < |bs| ==> bs[r].addr >= b.End()
    decreases |bs| - j
  {
    if j == |bs| || bs[j].addr >= b.End() then j else InsertPlace(bs, b, j + 1)
  }

  function LinkedIn(h: Heap, j: int, b: Block): Heap
    requires 0 <= j <= |h.blocks|
  {
    h.(blocks := h.blocks[..j] + [b] + h.blocks[j..])
  }

  ghost function Inject(h: Heap, b: Block): Heap {
    if Overlaps(h.blocks, b) then h
    else
      var j := InsertPlace(h.blocks, b, 0);
      Release(LinkedIn(h, j, b), j)
  }

  lemma LinkedInAt(h: Heap, j: int, b: Block, i: int)
    requires 0 <= j <= |h.blocks| && 0 <= i <= |h.blocks|
    ensures |LinkedIn(h, j, b).blocks| == |h.blocks| + 1
    ensures LinkedIn(h, j, b).blocks[i] == if i < j then h.blocks[i] else if i == j then b else h.blocks[i - 1]
  {
  }

  ghost predicate Insertable(h: Heap, j: int, b: Block) {
    && Sound(h) && 0 <= j <= |h.blocks| && b.Good() && !b.free
    && (forall i :: 0 <= i < j ==> h.blocks[i].End() <= b.addr)
    && (forall i :: j <= i < |h.blocks| ==> b.End() <= h.blocks[i].addr)
  }

  lemma InsertPlaceInsertable(h: Heap, b: Block)
    requires Sound(h) && b.Good() && !b.free && !Overlaps(h.blocks, b)
    ensures Insertable(h, InsertPlace(h.blocks, b, 0), b)
  {
    var j := InsertPlace(h.blocks, b, 0);
    forall i | j <= i < |h.blocks| ensures b.End() <= h.blocks[i].addr {
      assert h.blocks[j].Good() && (i > j ==> h.blocks[j].End() <= h.blocks[i].addr);
    }
  }

  lemma LinkedInOrdered(h: Heap, j: int, b: Block)
    requires Insertable(h, j, b)
    ensures Ordered(LinkedIn(h, j, b).blocks) && AllGood(LinkedIn(h, j, b).blocks)
    ensures Settled(LinkedIn(h, j, b).blocks)
    ensures Addrs(LinkedIn(h, j, b).blocks) == Addrs(h.blocks)[..j] + [b.addr] + Addrs(h.blocks)[j..]
  {
    var r := LinkedIn(h, j, b).blocks;
    forall i | 0 <= i < |r| ensures r[i].Good() {
      LinkedInAt(h, j, b, i);
    }
    forall i, k | 0 <= i < k < |r| ensures r[i].End() <= r[k].addr {
      LinkedInApart(h, j, b, i, k);
    }
    forall i | 0 <= i < |r| - 1 ensures !Touching(r[i], r[i + 1]) {
      LinkedInSettled(h, j, b, i);
    }
  }

  lemma LinkedInApart(h: Heap, j: int, b: Block, i: int, k: int)
    requires Insertable(h, j, b) && 0 <= i < k < |LinkedIn(h, j, b).blocks|
    ensures LinkedIn(h, j, b).blocks[i].End() <= LinkedIn(h, j, b).blocks[k].addr
  {
    hide Settled, FreeAddrs;
    LinkedInAt(h, j, b, i);
    LinkedInAt(h, j, b, k);
  }

  lemma LinkedInSettled(h: Heap, j: int, b: Block, i: int)
    requires Insertable(h, j, b) && 0 <= i < |LinkedIn(h, j, b).blocks| - 1
    ensures !Touching(LinkedIn(h, j, b).blocks[i], LinkedIn(h, j, b).blocks[i + 1])
  {
    hide FreeAddrs, Ordered, AllGood;
    LinkedInAt(h, j, b, i);
    LinkedInAt(h, j, b, i + 1);
    if i != j && i + 1 != j {
      assert !Touching(h.blocks[if i < j then i else i - 1], h.blocks[if i < j then i + 1 else i]);
    }
  }

  lemma LinkedInSets(h: Heap, j: int, b: Block)
    requires Insertable(h, j, b)
    ensures FreeAddrs(LinkedIn(h, j, b).blocks) == FreeAddrs(h.blocks)
    ensures UsedBlocks(LinkedIn(h, j, b).blocks) == UsedBlocks(h.blocks) + {b}
    ensures b !in UsedBlocks(h.blocks)
  {
    var r := LinkedIn(h, j, b).blocks;
    forall i | 0 <= i < |h.blocks| ensures r[if i < j then i else i + 1] == h.blocks[i] && h.blocks[i] != b {
      LinkedInAt(h, j, b, if i < j then i else i + 1);
      assert h.blocks[i].Good();
    }
    forall i | 0 <= i < |r| ensures i == j || r[i] == h.blocks[if i < j then i else i - 1] {
      LinkedInAt(h, j, b, i);
    }
    LinkedInAt(h, j, b, j);
  }

  /** Injecting adds exactly the new bytes to the managed ones, all free, or rejects an overlap. */
  lemma InjectCorrect(h: Heap, b: Block)
    requires Sound(h) && b.Good() && !b.free
    ensures Sound(Inject(h, b)) && UsedBlocks(Inject(h, b).blocks) == UsedBlocks(h.blocks)
    ensures Overlaps(h.blocks, b) ==> Inject(h, b) == h
    ensures !Overlaps(h.blocks, b) ==>
              forall x :: Covers(Inject(h, b).blocks, x) <==> Covers(h.blocks, x) || b.addr <= x < b.End()
  {
    if !Overlaps(h.blocks, b) {
      var j := InsertPlace(h.blocks, b, 0);
      var l := LinkedIn(h, j, b);
      InsertPlaceInsertable(h, b);
      LinkedInOrdered(h, j, b);
      LinkedInSets(h, j, b);
      LinkedInAt(h, j, b, j);
      ReleaseCorrect(l, j);
      forall x ensures Covers(Inject(h, b).blocks, x) <==> Covers(h.blocks, x) || b.addr <= x < b.End() {
        assert Covers(Inject(h, b).blocks, x) <==> Covers(l.blocks, x);
        LinkedInCovers(h, j, b, x);
      }
    }
  }

  lemma LinkedInCovers(h: Heap, j: int, b: Block, x: int)
    requires 0 <= j <= |h.blocks|
    ensures Covers(LinkedIn(h, j, b).blocks, x) <==> Covers(h.blocks, x) || b.addr <= x < b.End()
  {
    var r := LinkedIn(h, j, b).blocks;
    if Covers(r, x) {
      var i :| 0 <= i < |r| && r[i].addr <= x < r[i].End();
      LinkedInAt(h, j, b, i);
    }
    if i :| 0 <= i < |h.blocks| && h.blocks[i].addr <= x < h.blocks[i].End() {
      LinkedInAt(h, j, b, if i < j then i else i + 1);
    }
    LinkedInAt(h, j, b, j);
  }

  // ---------- runs

  datatype Request =
    | MallocReq(size: int, tag: int)
    | FreeReq(ptr: int)
    | FreeTaggedReq(tag: int)

  /** Callers ask for sizes that do not wrap and free only what they hold, or null. */
  ghost predicate Legal(h: Heap, q: Request) {
    match q
    case MallocReq(size, _) => 0 <= size <= WORD - 2 * UNIT
    case FreeReq(ptr) => ptr == 0 || Live(h, ptr)
    case FreeTaggedReq(_) => true
  }

  ghost function Serve(h: Heap, q: Request): Heap
    requires Legal(h, q)
  {
    match q
    case MallocReq(size, tag) => Malloc(h, size, tag).heap
    case FreeReq(ptr) => if ptr == 0 then h else Release(h, LiveAt(h, ptr))
    case FreeTaggedReq(tag) => FreeTagged(h, 0, tag)
  }

  ghost predicate LegalRun(h: Heap, qs: seq<Request>)
    decreases |qs|
  {
    qs == [] || (Legal(h, qs[0]) && LegalRun(Serve(h, qs[0]), qs[1..]))
  }

  ghost function Run(h: Heap, qs: seq<Request>): Heap
    requires LegalRun(h, qs)
    decreases |qs|
  {
    if qs == [] then h else Run(Serve(h, qs[0]), qs[1..])
  }

  lemma ServeSound(h: Heap, q: Request)
    requires Sound(h) && Legal(h, q)
    ensures Sound(Serve(h, q)) && SameCover(Serve(h, q).blocks, h.blocks)
  {
    match q
    case MallocReq(size, tag) =>
      if Malloc(h, size, tag).ptr == 0 {
        MallocPtr(h, size, tag);
      } else {
        MallocSound(h, size, tag);
      }
    case FreeReq(ptr) =>
      if ptr != 0 {
        ReleaseCorrect(h, LiveAt(h, ptr));
      }
    case FreeTaggedReq(tag) =>
      FreeTaggedCorrect(h, 0, tag);
  }

  /** Every run keeps the heap sound and manages the same bytes throughout. */
  lemma {:induction false} RunSound(h: Heap, qs: seq<Request>)
    requires Sound(h) && LegalRun(h, qs)
    ensures Sound(Run(h, qs)) && SameCover(Run(h, qs).blocks, h.blocks)
    decreases |qs|
  {
    if qs != [] {
      ServeSound(h, qs[0]);
      RunSound(Serve(h, qs[0]), qs[1..]);
      CoverTransitive(Run(h, qs).blocks, Serve(h, qs[0]).blocks, h.blocks);
    }
  }

  /** After any run, two live allocations share no byte. */
  lemma LiveApart(h: Heap, qs: seq<Request>, b: Block, c: Block)
    requires Sound(h) && LegalRun(h, qs) && b != c
    requires b in UsedBlocks(Run(h, qs).blocks) && c in UsedBlocks(Run(h, qs).blocks)
    ensures b.End() <= c.addr || c.End() <= b.addr
  {
    RunSound(h, qs);
    var bs := Run(h, qs).blocks;
    var i :| 0 <= i < |bs| && !bs[i].free && bs[i] == b;
    var j :| 0 <= j < |bs| && !bs[j].free && bs[j] == c;
    assert if i < j then bs[i].End() <= bs[j].addr else bs[j].End() <= bs[i].addr;
  }

  /** Runs that leave the same allocations live leave the same blocks, whatever their order. */
  lemma RunsMeet(h: Heap, qs: seq<Request>, rs: seq<Request>)
    requires Sound(h) && LegalRun(h, qs) && LegalRun(h, rs)
    requires UsedBlocks(Run(h, qs).blocks) == UsedBlocks(Run(h, rs).blocks)
    ensures Run(h, qs).blocks == Run(h, rs).blocks
  {
    RunSound(h, qs);
    RunSound(h, rs);
    forall x ensures Covers(Run(h, qs).blocks, x) <==> Covers(Run(h, rs).blocks, x) {
      assert Covers(Run(h, qs).blocks, x) <==> Covers(h.blocks, x);
    }
    BlocksDetermined(Run(h, qs).blocks, Run(h, rs).blocks);
  }

  /** Once everything is freed the heap is back to the free blocks it started with. */
  lemma AllFreedRestores(h: Heap, qs: seq<Request>)
    requires Sound(h) && UsedBlocks(h.blocks) == {} && LegalRun(h, qs)
    requires UsedBlocks(Run(h, qs).blocks) == {}
    ensures Run(h, qs).blocks == h.blocks
  {
    RunsMeet(h, qs, []);
  }
}
