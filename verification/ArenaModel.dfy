/**
 The arena heap seen as values: an address-ordered sequence of blocks, plus the order in
 which the free ring visits the free ones.
 */
module ArenaModel {
  import opened WordRings

  // Owner tags (syslinux/libcore/mem/malloc.h:17-22).
  const MALLOC_FREE: int := 0
  const MALLOC_HEAD: int := 1

  // sizeof(struct arena_header), the alignment unit; a free block needs two of them.
  const UNIT: nat := 16

  datatype Block = Block(addr: int, size: int, free: bool, tag: int) {
    function End(): int { addr + size }

    function Freed(): Block { this.(free := true, tag := MALLOC_FREE) }

    ghost predicate Good() {
      && 0 <= addr && addr % UNIT == 0
      && 2 * UNIT <= size && size % UNIT == 0
      && (free ==> tag == MALLOC_FREE)
    }
  }

  datatype Heap = Heap(blocks: seq<Block>, avail: seq<int>)

  ghost predicate AllGood(bs: seq<Block>) {
    forall i :: 0 <= i < |bs| ==> bs[i].Good()
  }

  ghost predicate Ordered(bs: seq<Block>) {
    forall i, j :: 0 <= i < j < |bs| ==> bs[i].End() <= bs[j].addr
  }

  predicate Touching(a: Block, b: Block) {
    a.free && b.free && a.End() == b.addr
  }

  /** No two free blocks touch, except perhaps the blocks `k` and `k + 1`. */
  ghost predicate SettledBut(bs: seq<Block>, k: int) {
    forall i :: 0 <= i < |bs| - 1 && i != k ==> !Touching(bs[i], bs[i + 1])
  }

  ghost predicate Settled(bs: seq<Block>) {
    SettledBut(bs, -1)
  }

  function Addrs(bs: seq<Block>): (r: seq<int>)
    ensures |r| == |bs|
    ensures forall i :: 0 <= i < |bs| ==> r[i] == bs[i].addr
  {
    seq(|bs|, i requires 0 <= i < |bs| => bs[i].addr)
  }

  ghost function FreeAddrs(bs: seq<Block>): set<int> {
    set i | 0 <= i < |bs| && bs[i].free :: bs[i].addr
  }

  /** The live allocations. */
  ghost function UsedBlocks(bs: seq<Block>): set<Block> {
    set i | 0 <= i < |bs| && !bs[i].free :: bs[i]
  }

  /** Byte `x` belongs to the memory the heap manages. */
  ghost predicate Covers(bs: seq<Block>, x: int) {
    exists i :: 0 <= i < |bs| && bs[i].addr <= x < bs[i].End()
  }

  ghost predicate SameCover(bs: seq<Block>, cs: seq<Block>) {
    forall x :: Covers(bs, x) <==> Covers(cs, x)
  }

  /** Blocks are well formed, in address order, and the free ring visits every free one once. */
  ghost predicate Layout(h: Heap) {
    && AllGood(h.blocks) && Ordered(h.blocks)
    && Distinct(h.avail) && Elements(h.avail) == FreeAddrs(h.blocks)
  }

  // ---------- joining a block with its successor

  function Joined(bs: seq<Block>, k: int): (r: seq<Block>)
    requires 0 <= k < |bs| - 1
    ensures |r| == |bs| - 1
  {
    bs[..k] + [bs[k].(size := bs[k].size + bs[k + 1].size)] + bs[k + 2..]
  }

  lemma JoinedAt(bs: seq<Block>, k: int, j: int)
    requires 0 <= k < |bs| - 1 && 0 <= j < |bs| - 1
    ensures |Joined(bs, k)| == |bs| - 1
    ensures j < k ==> Joined(bs, k)[j] == bs[j]
    ensures j == k ==> Joined(bs, k)[j] == bs[k].(size := bs[k].size + bs[k + 1].size)
    ensures j > k ==> Joined(bs, k)[j] == bs[j + 1]
  {
  }

  lemma JoinedOrdered(bs: seq<Block>, k: int)
    requires 0 <= k < |bs| - 1 && AllGood(bs) && Ordered(bs) && bs[k].End() == bs[k + 1].addr
    ensures AllGood(Joined(bs, k)) && Ordered(Joined(bs, k))
  {
    var r := Joined(bs, k);
    forall i | 0 <= i < |r| ensures r[i].Good() {
      JoinedAt(bs, k, i);
      assert bs[k].Good() && bs[k + 1].Good();
    }
    forall i, j | 0 <= i < j < |r| ensures r[i].End() <= r[j].addr {
      JoinedAt(bs, k, i);
      JoinedAt(bs, k, j);
    }
  }

  lemma JoinedAddrs(bs: seq<Block>, k: int)
    requires 0 <= k < |bs| - 1
    ensures Addrs(Joined(bs, k)) == Without(Addrs(bs), k + 1)
  {
    var r := Joined(bs, k);
    forall j | 0 <= j < |r| ensures Addrs(r)[j] == Without(Addrs(bs), k + 1)[j] {
      JoinedAt(bs, k, j);
    }
  }

  lemma JoinedFreeAddrs(bs: seq<Block>, k: int)
    requires 0 <= k < |bs| - 1 && AllGood(bs) && Ordered(bs)
    ensures FreeAddrs(Joined(bs, k)) == FreeAddrs(bs) - {bs[k + 1].addr}
  {
    hide Joined, AllGood, Ordered;
    var r := Joined(bs, k);
    var want := FreeAddrs(bs) - {bs[k + 1].addr};
    forall a | a in FreeAddrs(r) ensures a in want {
      var j :| 0 <= j < |r| && r[j].free && r[j].addr == a;
      JoinedAt(bs, k, j);
      AddrsDiffer(bs, if j <= k then j else j + 1, k + 1);
    }
    forall a | a in want ensures a in FreeAddrs(r) {
      var j :| 0 <= j < |bs| && bs[j].free && bs[j].addr == a;
      JoinedAt(bs, k, if j <= k then j else j - 1);
    }
  }

  lemma AddrsDiffer(bs: seq<Block>, i: int, j: int)
    requires AllGood(bs) && Ordered(bs) && 0 <= i < |bs| && 0 <= j < |bs| && i != j
    ensures bs[i].addr != bs[j].addr
  {
    assert bs[i].Good() && bs[j].Good();
    if i < j { assert bs[i].End() <= bs[j].addr; } else { assert bs[j].End() <= bs[i].addr; }
  }

  lemma JoinedCovers(bs: seq<Block>, k: int)
    requires 0 <= k < |bs| - 1 && AllGood(bs) && bs[k].End() == bs[k + 1].addr
    ensures SameCover(Joined(bs, k), bs)
  {
    var r := Joined(bs, k);
    assert bs[k].Good() && bs[k + 1].Good();
    forall x ensures Covers(r, x) <==> Covers(bs, x) {
      if Covers(r, x) {
        var j :| 0 <= j < |r| && r[j].addr <= x < r[j].End();
        JoinedAt(bs, k, j);
        var i := if j < k || (j == k && x < bs[k].End()) then j else j + 1;
        assert bs[i].addr <= x < bs[i].End();
      }
      if Covers(bs, x) {
        var i :| 0 <= i < |bs| && bs[i].addr <= x < bs[i].End();
        var j := if i <= k then i else i - 1;
        JoinedAt(bs, k, j);
        assert r[j].addr <= x < r[j].End();
      }
    }
  }

  lemma JoinedUsed(bs: seq<Block>, k: int)
    requires 0 <= k < |bs| - 1 && bs[k].free && bs[k + 1].free
    ensures UsedBlocks(Joined(bs, k)) == UsedBlocks(bs)
  {
    var r := Joined(bs, k);
    forall b | b in UsedBlocks(r) ensures b in UsedBlocks(bs) {
      var j :| 0 <= j < |r| && !r[j].free && r[j] == b;
      JoinedAt(bs, k, j);
      assert bs[if j < k then j else j + 1] == b;
    }
    forall b | b in UsedBlocks(bs) ensures b in UsedBlocks(r) {
      var i :| 0 <= i < |bs| && !bs[i].free && bs[i] == b;
      JoinedAt(bs, k, if i < k then i else i - 1);
    }
  }

  /** Joining the one touching pair at `k` can only make the pair behind it touch. */
  lemma JoinedSettled(bs: seq<Block>, k: int)
    requires 0 <= k < |bs| - 1 && Touching(bs[k], bs[k + 1])
    requires forall i :: 0 <= i < |bs| - 1 && i != k && i != k + 1 ==> !Touching(bs[i], bs[i + 1])
    ensures SettledBut(Joined(bs, k), k)
    ensures SettledBut(bs, k) ==> Settled(Joined(bs, k))
  {
    var r := Joined(bs, k);
    forall i | 0 <= i < |r| - 1 && i != k ensures !Touching(r[i], r[i + 1]) {
      JoinedAt(bs, k, i);
      JoinedAt(bs, k, i + 1);
      assert !Touching(bs[if i < k then i else i + 1], bs[if i < k then i + 1 else i + 2]);
    }
    if SettledBut(bs, k) && k < |r| - 1 {
      JoinedAt(bs, k, k);
      JoinedAt(bs, k, k + 1);
      assert !Touching(bs[k + 1], bs[k + 2]);
    }
  }

  // ---------- marking a block free

  function Marked(bs: seq<Block>, i: int): seq<Block>
    requires 0 <= i < |bs|
  {
    bs[i := bs[i].Freed()]
  }

  lemma MarkedFacts(bs: seq<Block>, i: int)
    requires 0 <= i < |bs| && AllGood(bs) && Ordered(bs) && !bs[i].free
    ensures AllGood(Marked(bs, i)) && Ordered(Marked(bs, i))
    ensures Addrs(Marked(bs, i)) == Addrs(bs)
    ensures SameCover(Marked(bs, i), bs)
  {
    assert bs[i].Good();
    MarkedCovers(bs, i);
  }

  lemma MarkedCovers(bs: seq<Block>, i: int)
    requires 0 <= i < |bs|
    ensures SameCover(Marked(bs, i), bs)
  {
    var r := Marked(bs, i);
    forall x ensures Covers(r, x) <==> Covers(bs, x) {
      if Covers(r, x) {
        var j :| 0 <= j < |r| && r[j].addr <= x < r[j].End();
        assert bs[j].addr <= x < bs[j].End();
      }
      if Covers(bs, x) {
        var j :| 0 <= j < |bs| && bs[j].addr <= x < bs[j].End();
        assert r[j].addr <= x < r[j].End();
      }
    }
  }

  lemma MarkedSets(bs: seq<Block>, i: int)
    requires 0 <= i < |bs| && AllGood(bs) && Ordered(bs) && !bs[i].free
    ensures bs[i].addr !in FreeAddrs(bs)
    ensures FreeAddrs(Marked(bs, i)) == FreeAddrs(bs) + {bs[i].addr}
    ensures UsedBlocks(Marked(bs, i)) == UsedBlocks(bs) - {bs[i]}
  {
    var r := Marked(bs, i);
    forall j | 0 <= j < |bs| && j != i ensures bs[j].addr != bs[i].addr {
      AddrsDiffer(bs, i, j);
    }
    forall a | a in FreeAddrs(bs) ensures a in FreeAddrs(r) {
      var j :| 0 <= j < |bs| && bs[j].free && bs[j].addr == a;
      assert r[j].free;
    }
    assert r[i].free;
    forall b | b in UsedBlocks(bs) - {bs[i]} ensures b in UsedBlocks(r) {
      var j :| 0 <= j < |bs| && !bs[j].free && bs[j] == b;
      assert r[j] == b;
    }
  }

  // ---------- releasing a block (free.c:11-62)

  predicate JoinsPrevious(bs: seq<Block>, i: int)
    requires 0 <= i < |bs|
  {
    i > 0 && bs[i - 1].free && bs[i - 1].End() == bs[i].addr
  }

  predicate JoinsNext(bs: seq<Block>, k: int)
    requires 0 <= k < |bs|
  {
    k + 1 < |bs| && bs[k + 1].free && bs[k].End() == bs[k + 1].addr
  }

  /** Grow the free predecessor of block `i` over it. */
  function AbsorbIntoPrevious(h: Heap, i: int): Heap
    requires 0 < i < |h.blocks|
  {
    h.(blocks := Joined(Marked(h.blocks, i), i - 1))
  }

  /** Mark block `i` free and put it first on the free ring. */
  function PushFree(h: Heap, i: int): Heap
    requires 0 <= i < |h.blocks|
  {
    Heap(Marked(h.blocks, i), [h.blocks[i].addr] + h.avail)
  }

  /** Grow block `k` over its free successor, which leaves the free ring. */
  function MergeNext(h: Heap, k: int): Heap
    requires 0 <= k < |h.blocks| - 1
  {
    Heap(Joined(h.blocks, k), Removed(h.avail, h.blocks[k + 1].addr))
  }

  /** What a step of releasing keeps: the managed bytes, and the live blocks but `gone`. */
  ghost predicate Releases(h: Heap, h': Heap, gone: set<Block>) {
    && Layout(h')
    && SameCover(h'.blocks, h.blocks)
    && UsedBlocks(h'.blocks) == UsedBlocks(h.blocks) - gone
  }

  lemma AbsorbReleases(h: Heap, i: int)
    requires Layout(h) && Settled(h.blocks)
    requires 0 <= i < |h.blocks| && !h.blocks[i].free && JoinsPrevious(h.blocks, i)
    ensures Releases(h, AbsorbIntoPrevious(h, i), {h.blocks[i]})
    ensures SettledBut(AbsorbIntoPrevious(h, i).blocks, i - 1)
    ensures AbsorbIntoPrevious(h, i).blocks[i - 1].free
    ensures Addrs(AbsorbIntoPrevious(h, i).blocks) == Without(Addrs(h.blocks), i)
  {
    var bs := Marked(h.blocks, i);
    MarkedFacts(h.blocks, i);
    MarkedSets(h.blocks, i);
    JoinedOrdered(bs, i - 1);
    JoinedAddrs(bs, i - 1);
    JoinedFreeAddrs(bs, i - 1);
    JoinedCovers(bs, i - 1);
    JoinedUsed(bs, i - 1);
    forall j | 0 <= j < |bs| - 1 && j != i - 1 && j != i ensures !Touching(bs[j], bs[j + 1]) {
      assert !Touching(h.blocks[j], h.blocks[j + 1]);
    }
    JoinedSettled(bs, i - 1);
    JoinedAt(bs, i - 1, i - 1);
  }

  lemma PushReleases(h: Heap, i: int)
    requires Layout(h) && Settled(h.blocks)
    requires 0 <= i < |h.blocks| && !h.blocks[i].free && !JoinsPrevious(h.blocks, i)
    ensures Releases(h, PushFree(h, i), {h.blocks[i]})
    ensures SettledBut(PushFree(h, i).blocks, i)
    ensures PushFree(h, i).blocks[i].free
    ensures Addrs(PushFree(h, i).blocks) == Addrs(h.blocks)
  {
    var r := PushFree(h, i);
    MarkedFacts(h.blocks, i);
    MarkedSets(h.blocks, i);
    assert forall a :: a in r.avail <==> a == h.blocks[i].addr || a in h.avail;
    assert forall a :: a in h.avail <==> a in Elements(h.avail);
    forall j | 0 <= j < |r.blocks| - 1 && j != i ensures !Touching(r.blocks[j], r.blocks[j + 1]) {
      assert !Touching(h.blocks[j], h.blocks[j + 1]);
    }
  }

  lemma MergeReleases(h: Heap, k: int)
    requires Layout(h) && SettledBut(h.blocks, k)
    requires 0 <= k < |h.blocks| && h.blocks[k].free && JoinsNext(h.blocks, k)
    ensures h.blocks[k + 1].addr in h.avail
    ensures Releases(h, MergeNext(h, k), {})
    ensures Settled(MergeNext(h, k).blocks)
    ensures Addrs(MergeNext(h, k).blocks) == Without(Addrs(h.blocks), k + 1)
  {
    var n := h.blocks[k + 1].addr;
    assert n in FreeAddrs(h.blocks);
    JoinedOrdered(h.blocks, k);
    JoinedAddrs(h.blocks, k);
    JoinedFreeAddrs(h.blocks, k);
    JoinedCovers(h.blocks, k);
    JoinedUsed(h.blocks, k);
    JoinedSettled(h.blocks, k);
    WithoutElements(h.avail, IndexOf(h.avail, n));
  }

  // The first half of a release, and the place of the block it leaves free.
  function ReleasedBack(h: Heap, i: int): Heap
    requires 0 <= i < |h.blocks|
  {
    if JoinsPrevious(h.blocks, i) then AbsorbIntoPrevious(h, i) else PushFree(h, i)
  }

  function BackIndex(h: Heap, i: int): (k: int)
    requires 0 <= i < |h.blocks|
    ensures 0 <= k < |ReleasedBack(h, i).blocks|
  {
    if JoinsPrevious(h.blocks, i) then i - 1 else i
  }

  function Release(h: Heap, i: int): Heap
    requires 0 <= i < |h.blocks|
  {
    var b, k := ReleasedBack(h, i), BackIndex(h, i);
    if JoinsNext(b.blocks, k) then MergeNext(b, k) else b
  }

  /** Releasing a live block frees exactly it and leaves no two touching free blocks. */
  lemma ReleaseCorrect(h: Heap, i: int)
    requires Layout(h) && Settled(h.blocks) && 0 <= i < |h.blocks| && !h.blocks[i].free
    ensures Releases(h, Release(h, i), {h.blocks[i]}) && Settled(Release(h, i).blocks)
  {
    hide AllGood, Ordered, Distinct, FreeAddrs, Covers, AbsorbIntoPrevious, PushFree, MergeNext, Layout, UsedBlocks;
    var b, k := ReleasedBack(h, i), BackIndex(h, i);
    if JoinsPrevious(h.blocks, i) {
      AbsorbReleases(h, i);
    } else {
      PushReleases(h, i);
    }
    if JoinsNext(b.blocks, k) {
      MergeReleases(b, k);
    }
  }

  // ---------- allocating from a block (malloc.c:13-55)

  function Claimed(h: Heap, i: int, tag: int): Heap
    requires 0 <= i < |h.blocks|
  {
    Heap(h.blocks[i := h.blocks[i].(free := false, tag := tag)], Removed(h.avail, h.blocks[i].addr))
  }

  function Rest(b: Block, size: int): Block {
    Block(b.addr + size, b.size - size, true, MALLOC_FREE)
  }

  function SplitBlocks(bs: seq<Block>, i: int, size: int, tag: int): (r: seq<Block>)
    requires 0 <= i < |bs|
    ensures |r| == |bs| + 1
  {
    bs[..i] + [Block(bs[i].addr, size, false, tag), Rest(bs[i], size)] + bs[i + 1..]
  }

  function Split(h: Heap, i: int, size: int, tag: int): Heap
    requires 0 <= i < |h.blocks|
  {
    var a := h.blocks[i].addr;
    Heap(SplitBlocks(h.blocks, i, size, tag),
         if a in h.avail then h.avail[IndexOf(h.avail, a) := a + size] else h.avail)
  }

  /** A block is split when what is left can hold a free header. */
  function Allocate(h: Heap, i: int, size: int, tag: int): Heap
    requires 0 <= i < |h.blocks|
  {
    if h.blocks[i].size >= size + 2 * UNIT then Split(h, i, size, tag) else Claimed(h, i, tag)
  }

  /** What allocating keeps: the managed bytes and every live block, plus the new one. */
  ghost predicate Allocates(h: Heap, h': Heap, b: Block) {
    && Layout(h') && Settled(h'.blocks)
    && SameCover(h'.blocks, h.blocks)
    && b !in UsedBlocks(h.blocks)
    && UsedBlocks(h'.blocks) == UsedBlocks(h.blocks) + {b}
  }

  /** Byte `x` is managed and nobody holds it. */
  ghost predicate FreeByte(bs: seq<Block>, x: int) {
    exists i :: 0 <= i < |bs| && bs[i].free && bs[i].addr <= x < bs[i].End()
  }

  /** The bytes of `b`, and no others, are no longer free. */
  ghost predicate TakesOnly(bs: seq<Block>, bs': seq<Block>, b: Block) {
    forall x :: FreeByte(bs', x) <==> FreeByte(bs, x) && !(b.addr <= x < b.End())
  }

  /** Free bytes are the managed ones outside all live blocks. */
  lemma FreeIsUnused(bs: seq<Block>, x: int)
    requires AllGood(bs) && Ordered(bs)
    ensures FreeByte(bs, x) <==> Covers(bs, x) && forall u :: u in UsedBlocks(bs) ==> !(u.addr <= x < u.End())
  {
    if i :| 0 <= i < |bs| && bs[i].free && bs[i].addr <= x < bs[i].End() {
      forall u | u in UsedBlocks(bs) ensures !(u.addr <= x < u.End()) {
        var j :| 0 <= j < |bs| && !bs[j].free && bs[j] == u;
        assert if i < j then bs[i].End() <= bs[j].addr else bs[j].End() <= bs[i].addr;
      }
    }
    if i :| 0 <= i < |bs| && bs[i].addr <= x < bs[i].End() && !bs[i].free {
      assert bs[i] in UsedBlocks(bs);
    }
  }

  lemma AllocatesTakes(h: Heap, h': Heap, b: Block)
    requires Layout(h) && Allocates(h, h', b)
    ensures TakesOnly(h.blocks, h'.blocks, b)
  {
    hide UsedBlocks, Covers, FreeByte, FreeAddrs, AllGood, Ordered, SettledBut;
    forall x ensures FreeByte(h'.blocks, x) <==> FreeByte(h.blocks, x) && !(b.addr <= x < b.End()) {
      FreeIsUnused(h.blocks, x);
      FreeIsUnused(h'.blocks, x);
      assert Covers(h'.blocks, x) <==> Covers(h.blocks, x);
      assert b in UsedBlocks(h.blocks) + {b};
      assert forall u :: u in UsedBlocks(h'.blocks) <==> u in UsedBlocks(h.blocks) || u == b;
    }
  }

  lemma SplitAt(bs: seq<Block>, i: int, size: int, tag: int, j: int)
    requires 0 <= i < |bs| && 0 <= j <= |bs|
    ensures |SplitBlocks(bs, i, size, tag)| == |bs| + 1
    ensures j < i ==> SplitBlocks(bs, i, size, tag)[j] == bs[j]
    ensures j == i ==> SplitBlocks(bs, i, size, tag)[j] == Block(bs[i].addr, size, false, tag)
    ensures j == i + 1 ==> SplitBlocks(bs, i, size, tag)[j] == Rest(bs[i], size)
    ensures j > i + 1 ==> SplitBlocks(bs, i, size, tag)[j] == bs[j - 1]
  {
  }

  ghost predicate Splittable(bs: seq<Block>, i: int, size: int) {
    && AllGood(bs) && Ordered(bs) && 0 <= i < |bs| && bs[i].free
    && 2 * UNIT <= size && size % UNIT == 0 && bs[i].size >= size + 2 * UNIT
  }

  lemma SplitOrdered(bs: seq<Block>, i: int, size: int, tag: int)
    requires Splittable(bs, i, size)
    ensures AllGood(SplitBlocks(bs, i, size, tag)) && Ordered(SplitBlocks(bs, i, size, tag))
    ensures Addrs(SplitBlocks(bs, i, size, tag)) == Inserted(Addrs(bs), i, bs[i].addr + size)
  {
    hide SplitBlocks;
    var r := SplitBlocks(bs, i, size, tag);
    assert bs[i].Good();
    forall j | 0 <= j < |r|
      ensures r[j].Good() && Addrs(r)[j] == Inserted(Addrs(bs), i, bs[i].addr + size)[j]
    {
      SplitAt(bs, i, size, tag, j);
    }
    forall j, k | 0 <= j < k < |r| ensures r[j].End() <= r[k].addr {
      SplitAt(bs, i, size, tag, j);
      SplitAt(bs, i, size, tag, k);
    }
  }

  lemma SplitCovers(bs: seq<Block>, i: int, size: int, tag: int)
    requires Splittable(bs, i, size)
    ensures SameCover(SplitBlocks(bs, i, size, tag), bs)
  {
    hide SplitBlocks, AllGood, Ordered;
    var r := SplitBlocks(bs, i, size, tag);
    forall x ensures Covers(r, x) <==> Covers(bs, x) {
      if Covers(r, x) {
        SplitCoversOnly(bs, i, size, tag, x);
      }
      if Covers(bs, x) {
        SplitStillCovers(bs, i, size, tag, x);
      }
    }
  }

  lemma SplitCoversOnly(bs: seq<Block>, i: int, size: int, tag: int, x: int)
    requires Splittable(bs, i, size) && Covers(SplitBlocks(bs, i, size, tag), x)
    ensures Covers(bs, x)
  {
    hide SplitBlocks, AllGood, Ordered;
    var r := SplitBlocks(bs, i, size, tag);
    var j :| 0 <= j < |r| && r[j].addr <= x < r[j].End();
    SplitAt(bs, i, size, tag, j);
    var k := if j <= i then j else j - 1;
    assert bs[k].addr <= x < bs[k].End();
  }

  lemma SplitStillCovers(bs: seq<Block>, i: int, size: int, tag: int, x: int)
    requires Splittable(bs, i, size) && Covers(bs, x)
    ensures Covers(SplitBlocks(bs, i, size, tag), x)
  {
    hide SplitBlocks, AllGood, Ordered;
    var r := SplitBlocks(bs, i, size, tag);
    var k :| 0 <= k < |bs| && bs[k].addr <= x < bs[k].End();
    var j := if k < i || (k == i && x < bs[i].addr + size) then k else k + 1;
    SplitAt(bs, i, size, tag, j);
    assert r[j].addr <= x < r[j].End();
  }

  lemma SplitUsed(bs: seq<Block>, i: int, size: int, tag: int)
    requires Splittable(bs, i, size)
    ensures UsedBlocks(SplitBlocks(bs, i, size, tag)) == UsedBlocks(bs) + {Block(bs[i].addr, size, false, tag)}
  {
    hide SplitBlocks, AllGood, Ordered;
    var r := SplitBlocks(bs, i, size, tag);
    forall b | b in UsedBlocks(r) ensures b in UsedBlocks(bs) + {Block(bs[i].addr, size, false, tag)} {
      var j :| 0 <= j < |r| && !r[j].free && r[j] == b;
      SplitAt(bs, i, size, tag, j);
      assert j == i || b == bs[if j < i then j else j - 1];
    }
    forall b | b in UsedBlocks(bs) ensures b in UsedBlocks(r) {
      var k :| 0 <= k < |bs| && !bs[k].free && bs[k] == b;
      SplitAt(bs, i, size, tag, if k < i then k else k + 1);
    }
    SplitAt(bs, i, size, tag, i);
    assert r[i] == Block(bs[i].addr, size, false, tag);
  }

  lemma SplitSettled(bs: seq<Block>, i: int, size: int, tag: int)
    requires Splittable(bs, i, size) && Settled(bs)
    ensures Settled(SplitBlocks(bs, i, size, tag))
  {
    hide SplitBlocks, AllGood, Ordered;
    var r := SplitBlocks(bs, i, size, tag);
    forall j | 0 <= j < |r| - 1 ensures !Touching(r[j], r[j + 1]) {
      SplitAt(bs, i, size, tag, j);
      SplitAt(bs, i, size, tag, j + 1);
      if j != i {
        assert !Touching(bs[if j < i then j else j - 1], bs[if j < i then j + 1 else j]);
      }
    }
  }

  lemma NoBlockInside(bs: seq<Block>, i: int, size: int)
    requires Splittable(bs, i, size)
    ensures forall k :: 0 <= k < |bs| ==> bs[k].addr != bs[i].addr + size
  {
    forall k | 0 <= k < |bs| ensures bs[k].addr != bs[i].addr + size {
      assert bs[k].Good() && bs[i].Good();
    }
  }

  lemma SplitFree(bs: seq<Block>, i: int, size: int, tag: int)
    requires Splittable(bs, i, size)
    ensures bs[i].addr + size !in Addrs(bs)
    ensures FreeAddrs(SplitBlocks(bs, i, size, tag)) == FreeAddrs(bs) - {bs[i].addr} + {bs[i].addr + size}
  {
    hide SplitBlocks, AllGood, Ordered;
    var r := SplitBlocks(bs, i, size, tag);
    var want := FreeAddrs(bs) - {bs[i].addr} + {bs[i].addr + size};
    NoBlockInside(bs, i, size);
    forall a | a in FreeAddrs(r) ensures a in want {
      var j :| 0 <= j < |r| && r[j].free && r[j].addr == a;
      SplitAt(bs, i, size, tag, j);
      if j != i + 1 {
        AddrsDiffer(bs, if j < i then j else j - 1, i);
      }
    }
    forall a | a in want ensures a in FreeAddrs(r) {
      if a == bs[i].addr + size {
        SplitAt(bs, i, size, tag, i + 1);
      } else {
        var k :| 0 <= k < |bs| && bs[k].free && bs[k].addr == a;
        SplitAt(bs, i, size, tag, if k < i then k else k + 1);
      }
    }
  }

  lemma ReplacedElements(s: seq<int>, k: int, x: int)
    requires Distinct(s) && 0 <= k < |s| && x !in s
    ensures Distinct(s[k := x]) && Elements(s[k := x]) == Elements(s) - {s[k]} + {x}
  {
    var r := s[k := x];
    forall a | a in s && a != s[k] ensures a in r {
      var j :| 0 <= j < |s| && s[j] == a;
      assert r[j] == a;
    }
    assert r[k] == x;
  }

  lemma SplitAllocates(h: Heap, i: int, size: int, tag: int)
    requires Layout(h) && Settled(h.blocks) && Splittable(h.blocks, i, size)
    ensures h.blocks[i].addr in h.avail
    ensures Allocates(h, Split(h, i, size, tag), Block(h.blocks[i].addr, size, false, tag))
  {
    var a := h.blocks[i].addr;
    assert a in FreeAddrs(h.blocks);
    SplitOrdered(h.blocks, i, size, tag);
    SplitCovers(h.blocks, i, size, tag);
    SplitUsed(h.blocks, i, size, tag);
    SplitSettled(h.blocks, i, size, tag);
    SplitFree(h.blocks, i, size, tag);
    forall k | 0 <= k < |h.blocks| && !h.blocks[k].free ensures h.blocks[k].addr != a {
      AddrsDiffer(h.blocks, k, i);
    }
    if a + size in h.avail {
      FreeIsAddr(h, a + size);
    }
    ReplacedElements(h.avail, IndexOf(h.avail, a), a + size);
  }

  lemma FreeIsAddr(h: Heap, a: int)
    requires Layout(h) && a in h.avail
    ensures a in Addrs(h.blocks)
    ensures h.blocks[IndexOf(Addrs(h.blocks), a)].free
  {
    assert a in Elements(h.avail);
    var k :| 0 <= k < |h.blocks| && h.blocks[k].free && h.blocks[k].addr == a;
    assert Addrs(h.blocks)[k] == a;
    var i := IndexOf(Addrs(h.blocks), a);
    if i != k { AddrsDiffer(h.blocks, i, k); }
  }

  lemma ClaimedAllocates(h: Heap, i: int, tag: int)
    requires Layout(h) && Settled(h.blocks) && 0 <= i < |h.blocks| && h.blocks[i].free
    ensures h.blocks[i].addr in h.avail
    ensures Allocates(h, Claimed(h, i, tag), h.blocks[i].(free := false, tag := tag))
    ensures Addrs(Claimed(h, i, tag).blocks) == Addrs(h.blocks)
  {
    // Claiming undoes marking, so what marking changes is known from the other side.
    var r := Claimed(h, i, tag);
    var a := h.blocks[i].addr;
    assert a in FreeAddrs(h.blocks);
    WithoutElements(h.avail, IndexOf(h.avail, a));
    assert h.blocks[i].Good();
    assert AllGood(r.blocks) && Ordered(r.blocks);
    assert Marked(r.blocks, i) == h.blocks;
    MarkedFacts(r.blocks, i);
    MarkedSets(r.blocks, i);
    assert r.blocks[i] in UsedBlocks(r.blocks);
    assert FreeAddrs(r.blocks) == FreeAddrs(h.blocks) - {a};
    forall j | 0 <= j < |r.blocks| - 1 ensures !Touching(r.blocks[j], r.blocks[j + 1]) {
      assert !Touching(h.blocks[j], h.blocks[j + 1]);
    }
  }

  /** A request takes what it needs and less than two units more; every other free byte stays free. */
  lemma AllocateCorrect(h: Heap, i: int, size: int, tag: int)
    requires Layout(h) && Settled(h.blocks) && 0 <= i < |h.blocks| && h.blocks[i].free
    requires 2 * UNIT <= size <= h.blocks[i].size && size % UNIT == 0
    ensures exists b: Block ::
              && b.addr == h.blocks[i].addr && size <= b.size < size + 2 * UNIT && !b.free && b.tag == tag
              && Allocates(h, Allocate(h, i, size, tag), b)
              && TakesOnly(h.blocks, Allocate(h, i, size, tag).blocks, b)
  {
    hide AllGood, Ordered, Distinct, FreeAddrs, Covers, UsedBlocks, SettledBut, TakesOnly;
    if h.blocks[i].size >= size + 2 * UNIT {
      assert AllGood(h.blocks) && Ordered(h.blocks);
      SplitAllocates(h, i, size, tag);
      AllocatesTakes(h, Split(h, i, size, tag), Block(h.blocks[i].addr, size, false, tag));
    } else {
      ClaimedAllocates(h, i, tag);
      AllocatesTakes(h, Claimed(h, i, tag), h.blocks[i].(free := false, tag := tag));
    }
  }
}
