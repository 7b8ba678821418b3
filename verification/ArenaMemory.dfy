/**
 How the headers and the two rings of one heap lie in the word memory, and what each
 burst of pointer stores of the allocator does to them.
 */
module ArenaMemory {
  import opened WordRings
  import opened ArenaModel
  import opened ArenaRuns

  // Field offsets of struct free_arena_header (syslinux/libcore/mem/malloc.h:29-76).
  const TAG: nat := 0
  const ATTRS: nat := 4
  const NEXT: nat := 8
  const PREV: nat := 12
  const NEXT_FREE: nat := 16
  const PREV_FREE: nat := 20

  const TYPE_USED: int := 0
  const TYPE_FREE: int := 1
  const TYPE_HEAD: int := 2

  const NHEAP: nat := 2

  // The attribute word: type in bits 0-1, heap in bits 2-3, size above.
  function SizeOf(attrs: int): int { attrs - attrs % 16 }
  function TypeOf(attrs: int): int { attrs % 4 }
  function HeapOf(attrs: int): int { attrs % 16 / 4 }
  function WithSize(attrs: int, size: int): int { SizeOf(size) + attrs % 16 }
  function WithHeap(attrs: int, heap: int): int { SizeOf(attrs) + heap % 4 * 4 + TypeOf(attrs) }
  function WithType(attrs: int, typ: int): int { attrs - TypeOf(attrs) + typ % 4 }

  function Attrs(size: int, heap: int, typ: int): int { size + 4 * heap + typ }

  function BlockType(b: Block): int { if b.free then TYPE_FREE else TYPE_USED }

  ghost predicate HeaderAt(m: Memory, heap: int, b: Block) {
    && Field(m, b.addr, TAG) == b.tag
    && Field(m, b.addr, ATTRS) == Attrs(b.size, heap, BlockType(b))
  }

  ghost predicate Headers(m: Memory, heap: int, bs: seq<Block>) {
    forall i :: 0 <= i < |bs| ==> HeaderAt(m, heap, bs[i])
  }

  /** Head node and blocks lie inside the memory and no block overlaps the head. */
  ghost predicate Placed(limit: int, head: int, bs: seq<Block>) {
    && 0 <= head && head + HEADER_SPAN <= limit
    && (forall i :: 0 <= i < |bs| ==>
          bs[i].End() <= limit && (bs[i].End() <= head || head + HEADER_SPAN <= bs[i].addr))
  }

  function AllNodes(head: int, h: Heap): (s: seq<int>)
    ensures |s| == |h.blocks| + 1
  {
    [head] + Addrs(h.blocks)
  }

  function FreeNodes(head: int, h: Heap): seq<int> { [head] + h.avail }

  function Nodes(head: int, h: Heap): set<int> { Elements(AllNodes(head, h)) }

  ghost predicate Rings(m: Memory, head: int, h: Heap) {
    Ring(m, AllNodes(head, h), NEXT, PREV) && Ring(m, FreeNodes(head, h), NEXT_FREE, PREV_FREE)
  }

  /** Memory `m` holds heap number `heap`, with its head node at `head`, with contents `h`. */
  ghost predicate Represents(m: Memory, head: int, heap: int, h: Heap) {
    && 0 <= heap < NHEAP
    && Layout(h) && Placed(|m|, head, h.blocks)
    && Field(m, head, ATTRS) == Attrs(0, heap, TYPE_HEAD)
    && Headers(m, heap, h.blocks)
    && Rings(m, head, h)
  }

  // ---------- nodes

  lemma NodesApart(limit: int, head: int, bs: seq<Block>, i: int, j: int)
    requires AllGood(bs) && Ordered(bs) && Placed(limit, head, bs) && 0 <= i < j < |bs| + 1
    ensures var s := [head] + Addrs(bs); s[i] != s[j] && Apart(s[i], s[j]) && Apart(s[j], s[i])
  {
    assert bs[j - 1].Good();
    if i > 0 {
      assert bs[i - 1].Good() && bs[i - 1].End() <= bs[j - 1].addr;
    }
  }

  lemma NodesInside(limit: int, head: int, bs: seq<Block>, i: int)
    requires AllGood(bs) && Placed(limit, head, bs) && 0 <= i < |bs| + 1
    ensures var s := [head] + Addrs(bs); 0 <= s[i] && s[i] + HEADER_SPAN <= limit
  {
    if i > 0 { assert bs[i - 1].Good(); }
  }

  lemma NodesSpaced(m: Memory, head: int, bs: seq<Block>)
    requires AllGood(bs) && Ordered(bs) && Placed(|m|, head, bs)
    ensures Spaced(m, Elements([head] + Addrs(bs)))
    ensures Distinct([head] + Addrs(bs))
  {
    hide AllGood, Ordered, Placed;
    var s := [head] + Addrs(bs);
    forall i | 0 <= i < |s| ensures 0 <= s[i] && s[i] + HEADER_SPAN <= |m| {
      NodesInside(|m|, head, bs, i);
    }
    forall i, j | 0 <= i < j < |s| ensures s[i] != s[j] && Apart(s[i], s[j]) && Apart(s[j], s[i]) {
      NodesApart(|m|, head, bs, i, j);
    }
  }

  ghost predicate NodesOk(m: Memory, head: int, h: Heap) {
    && Spaced(m, Nodes(head, h)) && Distinct(AllNodes(head, h)) && Distinct(FreeNodes(head, h))
    && Elements(AllNodes(head, h)) <= Nodes(head, h) && Elements(FreeNodes(head, h)) <= Nodes(head, h)
  }

  lemma LayoutNodes(m: Memory, head: int, h: Heap)
    requires Layout(h) && Placed(|m|, head, h.blocks)
    ensures NodesOk(m, head, h)
  {
    var s := AllNodes(head, h);
    NodesSpaced(m, head, h.blocks);
    assert head == s[0];
    forall a | a in h.avail ensures a in s && a != head {
      FreeIsAddr(h, a);
      var j := IndexOf(Addrs(h.blocks), a);
      assert s[j + 1] == a && s[0] != s[j + 1];
    }
    var f := FreeNodes(head, h);
    forall i, j | 0 <= i < j < |f| ensures f[i] != f[j] {
      assert f[j] == h.avail[j - 1] && f[j] in h.avail;
      if i > 0 { assert f[i] == h.avail[i - 1]; }
    }
  }

  lemma NodeMember(head: int, h: Heap, k: int)
    requires 0 <= k <= |h.blocks|
    ensures AllNodes(head, h)[k] in Nodes(head, h)
    ensures k > 0 ==> AllNodes(head, h)[k] == h.blocks[k - 1].addr
  {
  }

  lemma AddrsDistinct(head: int, h: Heap, i: int, j: int)
    requires 0 <= i < |h.blocks| && 0 <= j < |h.blocks| && i != j && Distinct(AllNodes(head, h))
    ensures h.blocks[i].addr != h.blocks[j].addr && h.blocks[i].addr != head
  {
    var s := AllNodes(head, h);
    assert s[0] != s[i + 1];
    if i < j { assert s[i + 1] != s[j + 1]; } else { assert s[j + 1] != s[i + 1]; }
  }

  // The neighbours of block `i` on either ring, as the pointers of its header name them.
  function NextOf(head: int, h: Heap, i: int): int
    requires 0 <= i < |h.blocks|
  {
    Succ(AllNodes(head, h), i + 1)
  }

  function NextFreeOf(head: int, h: Heap, i: int): int
    requires 0 <= i < |h.blocks| && h.blocks[i].addr in h.avail
  {
    Succ(FreeNodes(head, h), IndexOf(h.avail, h.blocks[i].addr) + 1)
  }

  function PrevFreeOf(head: int, h: Heap, i: int): int
    requires 0 <= i < |h.blocks| && h.blocks[i].addr in h.avail
  {
    FreeNodes(head, h)[IndexOf(h.avail, h.blocks[i].addr)]
  }

  // ---------- joins

  lemma JoinedPlaced(limit: int, head: int, bs: seq<Block>, k: int)
    requires 0 <= k < |bs| - 1 && AllGood(bs) && Placed(limit, head, bs) && bs[k].End() == bs[k + 1].addr
    ensures Placed(limit, head, Joined(bs, k))
  {
    var r := Joined(bs, k);
    forall j | 0 <= j < |r| ensures r[j].End() <= limit && (r[j].End() <= head || head + HEADER_SPAN <= r[j].addr) {
      JoinedAt(bs, k, j);
      assert bs[k].Good() && bs[k + 1].Good();
    }
  }

  lemma JoinedHeaders(m: Memory, m': Memory, heap: int, bs: seq<Block>, k: int,
                      nodes: set<int>, touched: set<(int, nat)>)
    requires 0 <= k < |bs| - 1 && Headers(m, heap, bs)
    requires KeptBut(m, m', nodes, touched) && Elements(Addrs(bs)) <= nodes
    requires forall i :: 0 <= i < |bs| ==> (bs[i].addr, TAG) !in touched
    requires forall i :: 0 <= i < |bs| && i != k ==> (bs[i].addr, ATTRS) !in touched
    requires Field(m', bs[k].addr, ATTRS) == Attrs(bs[k].size + bs[k + 1].size, heap, BlockType(bs[k]))
    ensures Headers(m', heap, Joined(bs, k))
  {
    var r := Joined(bs, k);
    forall i | 0 <= i < |bs| ensures bs[i].addr in nodes && HeaderAt(m, heap, bs[i]) {
      assert Addrs(bs)[i] in Elements(Addrs(bs));
    }
    forall j | 0 <= j < |r| ensures HeaderAt(m', heap, r[j]) {
      JoinedAt(bs, k, j);
    }
  }

  lemma NodesWithout(head: int, bs: seq<int>, i: int)
    requires 0 <= i < |bs|
    ensures [head] + Without(bs, i) == Without([head] + bs, i + 1)
  {
  }

  lemma MarkedJoin(bs: seq<Block>, i: int)
    requires 0 < i < |bs|
    ensures Joined(Marked(bs, i), i - 1) == Joined(bs, i - 1)
  {
  }

  lemma AbsorbRings(m: Memory, m': Memory, head: int, h: Heap, i: int, touched: set<(int, nat)>)
    requires Rings(m, head, h) && NodesOk(m, head, h)
    requires 0 < i < |h.blocks|
    requires
      var pah, nah := h.blocks[i - 1].addr, NextOf(head, h, i);
      && touched == {(pah, ATTRS), (pah, NEXT), (nah, PREV)}
      && KeptBut(m, m', Nodes(head, h), touched)
      && Field(m', pah, NEXT) == nah
      && Field(m', nah, PREV) == pah
    ensures Ring(m', Without(AllNodes(head, h), i + 1), NEXT, PREV)
    ensures Ring(m', FreeNodes(head, h), NEXT_FREE, PREV_FREE)
  {
    hide Distinct, Spaced, Ring;
    var s, f, nodes := AllNodes(head, h), FreeNodes(head, h), Nodes(head, h);
    assert s[i] == h.blocks[i - 1].addr;
    RingRemove(m, m', s, NEXT, PREV, i + 1, nodes, touched);
    RingKept(m, m', f, NEXT_FREE, PREV_FREE, nodes, touched);
  }

  /** Lines 25-28 of free.c: the freed block at `i` is swallowed by its predecessor. */
  lemma AbsorbStores(m: Memory, m': Memory, head: int, heap: int, h: Heap, i: int, touched: set<(int, nat)>)
    requires Represents(m, head, heap, h) && Settled(h.blocks)
    requires 0 <= i < |h.blocks| && !h.blocks[i].free && JoinsPrevious(h.blocks, i)
    requires
      var pah, nah := h.blocks[i - 1].addr, NextOf(head, h, i);
      && touched == {(pah, ATTRS), (pah, NEXT), (nah, PREV)}
      && KeptBut(m, m', Nodes(head, h), touched)
      && Field(m', pah, ATTRS) == Attrs(h.blocks[i - 1].size + h.blocks[i].size, heap, TYPE_FREE)
      && Field(m', pah, NEXT) == nah
      && Field(m', nah, PREV) == pah
    ensures Represents(m', head, heap, AbsorbIntoPrevious(h, i))
  {
    hide AllGood, Ordered, SettledBut, Placed, Headers, Distinct, Ring, Spaced, Covers, UsedBlocks, FreeAddrs, Marked, Joined;
    LayoutNodes(m, head, h);
    AbsorbReleases(h, i);
    NodesWithout(head, Addrs(h.blocks), i);
    AbsorbRings(m, m', head, h, i, touched);
    MarkedJoin(h.blocks, i);
    JoinedPlaced(|m|, head, h.blocks, i - 1);
    forall j | 0 <= j < |h.blocks| && j != i - 1 ensures (h.blocks[j].addr, ATTRS) !in touched {
      AddrsDistinct(head, h, i - 1, j);
    }
    assert Elements(Addrs(h.blocks)) <= Nodes(head, h);
    JoinedHeaders(m, m', heap, h.blocks, i - 1, Nodes(head, h), touched);
    NodeMember(head, h, 0);
    AddrsDistinct(head, h, i - 1, i);
  }

  // ---------- entering the free ring

  lemma MarkedHeaders(m: Memory, m': Memory, heap: int, bs: seq<Block>, i: int,
                      nodes: set<int>, touched: set<(int, nat)>)
    requires 0 <= i < |bs| && Headers(m, heap, bs)
    requires KeptBut(m, m', nodes, touched) && Elements(Addrs(bs)) <= nodes
    requires forall j :: 0 <= j < |bs| && j != i ==> (bs[j].addr, TAG) !in touched && (bs[j].addr, ATTRS) !in touched
    requires HeaderAt(m', heap, bs[i].Freed())
    ensures Headers(m', heap, Marked(bs, i))
  {
    forall j | 0 <= j < |bs| ensures HeaderAt(m', heap, Marked(bs, i)[j]) {
      assert Addrs(bs)[j] in Elements(Addrs(bs)) && HeaderAt(m, heap, bs[j]);
    }
  }

  lemma PushRings(m: Memory, m': Memory, head: int, h: Heap, i: int, touched: set<(int, nat)>)
    requires Rings(m, head, h) && NodesOk(m, head, h)
    requires 0 <= i < |h.blocks| && h.blocks[i].addr !in h.avail && h.blocks[i].addr != head
    requires
      var ah, nf := h.blocks[i].addr, Succ(FreeNodes(head, h), 0);
      && touched == {(ah, ATTRS), (ah, TAG), (ah, NEXT_FREE), (ah, PREV_FREE), (head, NEXT_FREE), (nf, PREV_FREE)}
      && KeptBut(m, m', Nodes(head, h), touched)
      && Field(m', ah, NEXT_FREE) == nf && Field(m', ah, PREV_FREE) == head
      && Field(m', head, NEXT_FREE) == ah && Field(m', nf, PREV_FREE) == ah
    ensures Ring(m', AllNodes(head, h), NEXT, PREV)
    ensures Ring(m', FreeNodes(head, PushFree(h, i)), NEXT_FREE, PREV_FREE)
  {
    hide Distinct, Spaced, Ring;
    var s, f, nodes := AllNodes(head, h), FreeNodes(head, h), Nodes(head, h);
    var ah := h.blocks[i].addr;
    RingKept(m, m', s, NEXT, PREV, nodes, touched);
    RingInsert(m, m', f, NEXT_FREE, PREV_FREE, 0, ah, nodes, touched);
    assert FreeNodes(head, PushFree(h, i)) == Inserted(f, 0, ah);
  }

  /** Lines 38-45 of free.c: block `i` becomes the first of the free ring. */
  lemma PushStores(m: Memory, m': Memory, head: int, heap: int, h: Heap, i: int, touched: set<(int, nat)>)
    requires Represents(m, head, heap, h) && Settled(h.blocks)
    requires 0 <= i < |h.blocks| && !h.blocks[i].free && !JoinsPrevious(h.blocks, i)
    requires
      var ah, nf := h.blocks[i].addr, Succ(FreeNodes(head, h), 0);
      && touched == {(ah, ATTRS), (ah, TAG), (ah, NEXT_FREE), (ah, PREV_FREE), (head, NEXT_FREE), (nf, PREV_FREE)}
      && KeptBut(m, m', Nodes(head, h), touched)
      && HeaderAt(m', heap, h.blocks[i].Freed())
      && Field(m', ah, NEXT_FREE) == nf && Field(m', ah, PREV_FREE) == head
      && Field(m', head, NEXT_FREE) == ah && Field(m', nf, PREV_FREE) == ah
    ensures Represents(m', head, heap, PushFree(h, i))
  {
    hide AllGood, Ordered, SettledBut, Headers, Distinct, Ring, Spaced, Covers, UsedBlocks;
    LayoutNodes(m, head, h);
    PushReleases(h, i);
    MarkedSets(h.blocks, i);
    assert h.blocks[i].addr !in Elements(h.avail);
    NodeMember(head, h, 0);
    forall j | 0 <= j < |h.blocks| && j != i
      ensures (h.blocks[j].addr, TAG) !in touched && (h.blocks[j].addr, ATTRS) !in touched
    {
      AddrsDistinct(head, h, i, j);
    }
    AddrsDistinctHead(head, h, i);
    PushRings(m, m', head, h, i, touched);
    assert Elements(Addrs(h.blocks)) <= Nodes(head, h);
    MarkedHeaders(m, m', heap, h.blocks, i, Nodes(head, h), touched);
  }

  lemma AddrsDistinctHead(head: int, h: Heap, i: int)
    requires 0 <= i < |h.blocks| && Distinct(AllNodes(head, h))
    ensures h.blocks[i].addr != head
  {
    assert AllNodes(head, h)[0] != AllNodes(head, h)[i + 1];
  }

  // ---------- merging with the successor

  lemma MergeRings(m: Memory, m': Memory, head: int, h: Heap, k: int, touched: set<(int, nat)>)
    requires Rings(m, head, h) && NodesOk(m, head, h)
    requires 0 <= k < |h.blocks| - 1 && h.blocks[k + 1].addr in h.avail
    requires
      var ah, nn := h.blocks[k].addr, NextOf(head, h, k + 1);
      var nf, pf := NextFreeOf(head, h, k + 1), PrevFreeOf(head, h, k + 1);
      && touched == {(ah, ATTRS), (nf, PREV_FREE), (pf, NEXT_FREE), (ah, NEXT), (nn, PREV)}
      && KeptBut(m, m', Nodes(head, h), touched)
      && Field(m', nf, PREV_FREE) == pf && Field(m', pf, NEXT_FREE) == nf
      && Field(m', ah, NEXT) == nn && Field(m', nn, PREV) == ah
    ensures Ring(m', Without(AllNodes(head, h), k + 2), NEXT, PREV)
    ensures Ring(m', FreeNodes(head, MergeNext(h, k)), NEXT_FREE, PREV_FREE)
  {
    hide Distinct, Spaced, Ring;
    var s, f, nodes := AllNodes(head, h), FreeNodes(head, h), Nodes(head, h);
    var p := IndexOf(h.avail, h.blocks[k + 1].addr) + 1;
    assert s[k + 1] == h.blocks[k].addr;
    RingRemove(m, m', s, NEXT, PREV, k + 2, nodes, touched);
    RingRemove(m, m', f, NEXT_FREE, PREV_FREE, p, nodes, touched);
    NodesWithout(head, h.avail, p - 1);
  }

  /** Lines 52-59 of free.c: the free block at `k` swallows its free successor. */
  lemma MergeStores(m: Memory, m': Memory, head: int, heap: int, h: Heap, k: int, touched: set<(int, nat)>)
    requires Represents(m, head, heap, h) && SettledBut(h.blocks, k)
    requires 0 <= k < |h.blocks| && h.blocks[k].free && JoinsNext(h.blocks, k)
    requires h.blocks[k + 1].addr in h.avail
    requires
      var ah, nn := h.blocks[k].addr, NextOf(head, h, k + 1);
      var nf, pf := NextFreeOf(head, h, k + 1), PrevFreeOf(head, h, k + 1);
      && touched == {(ah, ATTRS), (nf, PREV_FREE), (pf, NEXT_FREE), (ah, NEXT), (nn, PREV)}
      && KeptBut(m, m', Nodes(head, h), touched)
      && Field(m', ah, ATTRS) == Attrs(h.blocks[k].size + h.blocks[k + 1].size, heap, TYPE_FREE)
      && Field(m', nf, PREV_FREE) == pf && Field(m', pf, NEXT_FREE) == nf
      && Field(m', ah, NEXT) == nn && Field(m', nn, PREV) == ah
    ensures Represents(m', head, heap, MergeNext(h, k))
  {
    hide AllGood, Ordered, SettledBut, Placed, Headers, Distinct, Ring, Spaced, Covers, UsedBlocks, FreeAddrs, Joined;
    LayoutNodes(m, head, h);
    MergeReleases(h, k);
    MergeRings(m, m', head, h, k, touched);
    NodesWithout(head, Addrs(h.blocks), k + 1);
    JoinedPlaced(|m|, head, h.blocks, k);
    forall j | 0 <= j < |h.blocks| && j != k ensures (h.blocks[j].addr, ATTRS) !in touched {
      AddrsDistinct(head, h, k, j);
    }
    assert Elements(Addrs(h.blocks)) <= Nodes(head, h);
    JoinedHeaders(m, m', heap, h.blocks, k, Nodes(head, h), touched);
    NodeMember(head, h, 0);
    AddrsDistinctHead(head, h, k);
  }

  // ---------- leaving the free ring whole

  lemma ClaimRings(m: Memory, m': Memory, head: int, h: Heap, i: int, tag: int, touched: set<(int, nat)>)
    requires Rings(m, head, h) && NodesOk(m, head, h)
    requires 0 <= i < |h.blocks| && h.blocks[i].addr in h.avail
    requires
      var fp, nf, pf := h.blocks[i].addr, NextFreeOf(head, h, i), PrevFreeOf(head, h, i);
      && touched == {(fp, ATTRS), (fp, TAG), (nf, PREV_FREE), (pf, NEXT_FREE)}
      && KeptBut(m, m', Nodes(head, h), touched)
      && Field(m', nf, PREV_FREE) == pf && Field(m', pf, NEXT_FREE) == nf
    ensures Ring(m', AllNodes(head, h), NEXT, PREV)
    ensures Ring(m', FreeNodes(head, Claimed(h, i, tag)), NEXT_FREE, PREV_FREE)
  {
    hide Distinct, Spaced, Ring;
    var s, f, nodes := AllNodes(head, h), FreeNodes(head, h), Nodes(head, h);
    var p := IndexOf(h.avail, h.blocks[i].addr) + 1;
    RingKept(m, m', s, NEXT, PREV, nodes, touched);
    RingRemove(m, m', f, NEXT_FREE, PREV_FREE, p, nodes, touched);
    NodesWithout(head, h.avail, p - 1);
  }

  /** Lines 46-51 of malloc.c: the whole block at `i` is handed out. */
  lemma ClaimStores(m: Memory, m': Memory, head: int, heap: int, h: Heap, i: int, tag: int, touched: set<(int, nat)>)
    requires Represents(m, head, heap, h) && Settled(h.blocks)
    requires 0 <= i < |h.blocks| && h.blocks[i].free && h.blocks[i].addr in h.avail
    requires
      var fp, nf, pf := h.blocks[i].addr, NextFreeOf(head, h, i), PrevFreeOf(head, h, i);
      && touched == {(fp, ATTRS), (fp, TAG), (nf, PREV_FREE), (pf, NEXT_FREE)}
      && KeptBut(m, m', Nodes(head, h), touched)
      && HeaderAt(m', heap, h.blocks[i].(free := false, tag := tag))
      && Field(m', nf, PREV_FREE) == pf && Field(m', pf, NEXT_FREE) == nf
    ensures Represents(m', head, heap, Claimed(h, i, tag))
  {
    hide AllGood, Ordered, SettledBut, Distinct, Ring, Spaced, Covers, UsedBlocks, FreeAddrs;
    LayoutNodes(m, head, h);
    ClaimedAllocates(h, i, tag);
    ClaimRings(m, m', head, h, i, tag, touched);
    NodeMember(head, h, 0);
    AddrsDistinctHead(head, h, i);
    assert Elements(Addrs(h.blocks)) <= Nodes(head, h);
    var r := Claimed(h, i, tag).blocks;
    forall j | 0 <= j < |r| ensures HeaderAt(m', heap, r[j]) {
      if j != i {
        AddrsDistinct(head, h, i, j);
        NodeMember(head, h, j + 1);
        assert HeaderAt(m, heap, h.blocks[j]);
      }
    }
  }

  // ---------- splitting a block

  lemma SplitPlaced(limit: int, head: int, bs: seq<Block>, i: int, size: int, tag: int)
    requires Splittable(bs, i, size) && Placed(limit, head, bs)
    ensures Placed(limit, head, SplitBlocks(bs, i, size, tag))
  {
    var r := SplitBlocks(bs, i, size, tag);
    forall j | 0 <= j < |r| ensures r[j].End() <= limit && (r[j].End() <= head || head + HEADER_SPAN <= r[j].addr) {
      SplitAt(bs, i, size, tag, j);
    }
  }

  lemma InsertedNodes(head: int, a: seq<int>, i: int, x: int)
    requires 0 <= i < |a|
    ensures [head] + Inserted(a, i, x) == Inserted([head] + a, i + 1, x)
    ensures Elements([head] + Inserted(a, i, x)) == Elements([head] + a) + {x}
  {
    var s, r := [head] + a, Inserted([head] + a, i + 1, x);
    assert [head] + Inserted(a, i, x) == r;
    forall y | y in s ensures y in r {
      var j :| 0 <= j < |s| && s[j] == y;
      assert r[if j <= i + 1 then j else j + 1] == y;
    }
    assert r[i + 2] == x;
  }

  lemma SplitHeaders(m: Memory, m': Memory, heap: int, bs: seq<Block>, i: int, size: int, tag: int,
                     nodes: set<int>, touched: set<(int, nat)>)
    requires 0 <= i < |bs| && Headers(m, heap, bs)
    requires KeptBut(m, m', nodes, touched) && Elements(Addrs(bs)) <= nodes
    requires forall j :: 0 <= j < |bs| && j != i ==> (bs[j].addr, TAG) !in touched && (bs[j].addr, ATTRS) !in touched
    requires HeaderAt(m', heap, Block(bs[i].addr, size, false, tag)) && HeaderAt(m', heap, Rest(bs[i], size))
    ensures Headers(m', heap, SplitBlocks(bs, i, size, tag))
  {
    var r := SplitBlocks(bs, i, size, tag);
    forall j | 0 <= j < |bs| ensures bs[j].addr in nodes && HeaderAt(m, heap, bs[j]) {
      assert Addrs(bs)[j] in Elements(Addrs(bs));
    }
    forall j | 0 <= j < |r| ensures HeaderAt(m', heap, r[j]) {
      SplitAt(bs, i, size, tag, j);
    }
  }

  function SplitTouched(head: int, h: Heap, i: int, nfp: int): set<(int, nat)>
    requires 0 <= i < |h.blocks| && h.blocks[i].addr in h.avail
  {
    var fp := h.blocks[i].addr;
    {(nfp, ATTRS), (nfp, TAG), (fp, ATTRS), (fp, TAG),
     (nfp, PREV), (nfp, NEXT), (NextOf(head, h, i), PREV), (fp, NEXT),
     (nfp, NEXT_FREE), (nfp, PREV_FREE), (NextFreeOf(head, h, i), PREV_FREE), (PrevFreeOf(head, h, i), NEXT_FREE)}
  }

  ghost predicate SplitLinks(m: Memory, head: int, h: Heap, i: int, nfp: int)
    requires 0 <= i < |h.blocks| && h.blocks[i].addr in h.avail
  {
    var fp, na := h.blocks[i].addr, NextOf(head, h, i);
    var nf, pf := NextFreeOf(head, h, i), PrevFreeOf(head, h, i);
    && Field(m, nfp, PREV) == fp && Field(m, nfp, NEXT) == na
    && Field(m, na, PREV) == nfp && Field(m, fp, NEXT) == nfp
    && Field(m, nfp, NEXT_FREE) == nf && Field(m, nfp, PREV_FREE) == pf
    && Field(m, nf, PREV_FREE) == nfp && Field(m, pf, NEXT_FREE) == nfp
  }

  lemma SplitRings(m: Memory, m': Memory, head: int, h: Heap, i: int, nfp: int, nodes: set<int>)
    requires Rings(m, head, h) && NodesOk(m, head, h) && Nodes(head, h) <= nodes
    requires 0 <= i < |h.blocks| && h.blocks[i].addr in h.avail
    requires nfp !in Nodes(head, h)
    requires KeptBut(m, m', nodes, SplitTouched(head, h, i, nfp))
    requires SplitLinks(m', head, h, i, nfp)
    ensures Ring(m', Inserted(AllNodes(head, h), i + 1, nfp), NEXT, PREV)
    ensures Ring(m', FreeNodes(head, h)[IndexOf(h.avail, h.blocks[i].addr) + 1 := nfp], NEXT_FREE, PREV_FREE)
  {
    hide Distinct, Spaced, Ring, KeptBut;
    var s, f := AllNodes(head, h), FreeNodes(head, h);
    var p, touched := IndexOf(h.avail, h.blocks[i].addr) + 1, SplitTouched(head, h, i, nfp);
    assert s[i + 1] == h.blocks[i].addr;
    RingInsert(m, m', s, NEXT, PREV, i + 1, nfp, nodes, touched);
    RingReplace(m, m', f, NEXT_FREE, PREV_FREE, p, nfp, nodes, touched);
  }

  lemma SplitMisses(m: Memory, head: int, h: Heap, i: int, nfp: int, j: int)
    requires NodesOk(m, head, h) && nfp !in Nodes(head, h)
    requires 0 <= i < |h.blocks| && h.blocks[i].addr in h.avail && 0 <= j <= |h.blocks| && j != i + 1
    ensures (AllNodes(head, h)[j], TAG) !in SplitTouched(head, h, i, nfp)
    ensures (AllNodes(head, h)[j], ATTRS) !in SplitTouched(head, h, i, nfp)
  {
    hide Spaced;
    NodeMember(head, h, j);
    if j > 0 {
      AddrsDistinct(head, h, i, j - 1);
    } else {
      AddrsDistinctHead(head, h, i);
    }
  }

  /** Lines 28-45 of malloc.c: the block at `i` is cut and its rest takes its place on the free ring. */
  lemma SplitStores(m: Memory, m': Memory, head: int, heap: int, h: Heap, i: int, size: int, tag: int)
    requires Represents(m, head, heap, h) && Settled(h.blocks) && Splittable(h.blocks, i, size)
    requires h.blocks[i].addr in h.avail
    requires KeptBut(m, m', Nodes(head, Split(h, i, size, tag)), SplitTouched(head, h, i, h.blocks[i].addr + size))
    requires HeaderAt(m', heap, Block(h.blocks[i].addr, size, false, tag)) && HeaderAt(m', heap, Rest(h.blocks[i], size))
    requires SplitLinks(m', head, h, i, h.blocks[i].addr + size)
    ensures Represents(m', head, heap, Split(h, i, size, tag))
  {
    hide AllGood, Ordered, SettledBut, Placed, Headers, Distinct, Ring, Spaced, Covers, UsedBlocks, FreeAddrs;
    hide SplitBlocks, SplitLinks, SplitTouched, HeaderAt, KeptBut, Inserted;
    var nfp, nodes := h.blocks[i].addr + size, Nodes(head, Split(h, i, size, tag));
    LayoutNodes(m, head, h);
    assert Layout(Split(h, i, size, tag)) by { SplitAllocates(h, i, size, tag); }
    SplitNodes(m, head, h, i, size, tag);
    RestIsNew(|m|, head, h, i, size);
    SplitRings(m, m', head, h, i, nfp, nodes);
    assert FreeNodes(head, Split(h, i, size, tag)) == FreeNodes(head, h)[IndexOf(h.avail, h.blocks[i].addr) + 1 := nfp];
    SplitMisses(m, head, h, i, nfp, 0);
    NodeMember(head, h, 0);
    KeptField(m, m', nodes, SplitTouched(head, h, i, nfp), head, ATTRS);
    forall j | 0 <= j < |h.blocks| && j != i
      ensures (h.blocks[j].addr, TAG) !in SplitTouched(head, h, i, nfp)
      ensures (h.blocks[j].addr, ATTRS) !in SplitTouched(head, h, i, nfp)
    {
      SplitMisses(m, head, h, i, nfp, j + 1);
      NodeMember(head, h, j + 1);
    }
    assert Elements(Addrs(h.blocks)) <= Nodes(head, h);
    SplitHeaders(m, m', heap, h.blocks, i, size, tag, nodes, SplitTouched(head, h, i, nfp));
  }

  /** The node of the rest is new, and lies in the memory like all others. */
  lemma SplitNodes(m: Memory, head: int, h: Heap, i: int, size: int, tag: int)
    requires Layout(h) && Settled(h.blocks) && Placed(|m|, head, h.blocks) && Splittable(h.blocks, i, size)
    ensures Placed(|m|, head, Split(h, i, size, tag).blocks)
    ensures AllNodes(head, Split(h, i, size, tag)) == Inserted(AllNodes(head, h), i + 1, h.blocks[i].addr + size)
    ensures Nodes(head, Split(h, i, size, tag)) == Nodes(head, h) + {h.blocks[i].addr + size}
    ensures NodesOk(m, head, Split(h, i, size, tag))
  {
    hide AllGood, Ordered, SettledBut, Covers, UsedBlocks, FreeAddrs, SplitBlocks, Placed, Distinct, Spaced;
    hide Inserted, Elements, Rest, Layout, NodesOk;
    var r := Split(h, i, size, tag);
    SplitAllocates(h, i, size, tag);
    SplitOrdered(h.blocks, i, size, tag);
    SplitPlaced(|m|, head, h.blocks, i, size, tag);
    LayoutNodes(m, head, r);
    InsertedNodes(head, Addrs(h.blocks), i, h.blocks[i].addr + size);
  }

  lemma RestIsNew(limit: int, head: int, h: Heap, i: int, size: int)
    requires Layout(h) && Splittable(h.blocks, i, size) && Placed(limit, head, h.blocks)
    ensures h.blocks[i].addr + size !in Nodes(head, h)
  {
    SplitFree(h.blocks, i, size, MALLOC_FREE);
    RestNotHead(limit, head, h.blocks, i, size);
  }

  lemma RestNotHead(limit: int, head: int, bs: seq<Block>, i: int, size: int)
    requires Splittable(bs, i, size) && Placed(limit, head, bs)
    ensures bs[i].addr + size != head
  {
  }

  // ---------- linking a new block into the all-blocks ring

  lemma LinkedInHeaders(m: Memory, m': Memory, heap: int, h: Heap, j: int, b: Block,
                        nodes: set<int>, touched: set<(int, nat)>)
    requires 0 <= j <= |h.blocks| && Headers(m, heap, h.blocks) && HeaderAt(m, heap, b)
    requires KeptBut(m, m', nodes, touched) && Elements(Addrs(h.blocks)) <= nodes && b.addr in nodes
    requires forall t :: t in touched ==> t.1 != TAG && t.1 != ATTRS
    ensures Headers(m', heap, LinkedIn(h, j, b).blocks)
  {
    var r := LinkedIn(h, j, b).blocks;
    forall i | 0 <= i < |h.blocks| ensures h.blocks[i].addr in nodes && HeaderAt(m, heap, h.blocks[i]) {
      assert Addrs(h.blocks)[i] in Elements(Addrs(h.blocks));
    }
    forall i | 0 <= i < |r| ensures HeaderAt(m', heap, r[i]) {
      LinkedInAt(h, j, b, i);
    }
  }

  lemma LinkedInNodes(head: int, h: Heap, j: int, b: Block)
    requires 0 <= j <= |h.blocks|
    requires Addrs(LinkedIn(h, j, b).blocks) == Addrs(h.blocks)[..j] + [b.addr] + Addrs(h.blocks)[j..]
    ensures AllNodes(head, LinkedIn(h, j, b)) == Inserted(AllNodes(head, h), j, b.addr)
    ensures Nodes(head, LinkedIn(h, j, b)) == Nodes(head, h) + {b.addr}
  {
    var s, r := AllNodes(head, h), AllNodes(head, LinkedIn(h, j, b));
    assert r == Inserted(s, j, b.addr);
    forall y | y in s ensures y in r {
      var i :| 0 <= i < |s| && s[i] == y;
      assert r[if i <= j then i else i + 1] == y;
    }
    assert r[j + 1] == b.addr;
  }

  lemma LinkedInPlaced(limit: int, head: int, h: Heap, j: int, b: Block)
    requires 0 <= j <= |h.blocks| && Placed(limit, head, h.blocks) && Placed(limit, head, [b])
    ensures Placed(limit, head, LinkedIn(h, j, b).blocks)
  {
    var r := LinkedIn(h, j, b).blocks;
    assert [b][0] == b;
    forall i | 0 <= i < |r| ensures r[i].End() <= limit && (r[i].End() <= head || head + HEADER_SPAN <= r[i].addr) {
      LinkedInAt(h, j, b, i);
    }
  }

  lemma LinkedInNew(limit: int, head: int, h: Heap, j: int, b: Block)
    requires Insertable(h, j, b) && Placed(limit, head, h.blocks) && Placed(limit, head, [b])
    ensures b.addr !in AllNodes(head, h)
  {
    var s := AllNodes(head, h);
    assert [b][0] == b;
    forall i | 0 <= i < |s| ensures s[i] != b.addr {
      if i > 0 { assert h.blocks[i - 1].Good(); }
    }
  }

  /** What holds of a block about to be injected at place `j`. */
  ghost predicate Linkable(m: Memory, head: int, heap: int, h: Heap, j: int, b: Block) {
    && Represents(m, head, heap, h) && Insertable(h, j, b)
    && Placed(|m|, head, [b]) && HeaderAt(m, heap, b)
  }

  lemma LinkedInLayout(m: Memory, head: int, heap: int, h: Heap, j: int, b: Block)
    requires Linkable(m, head, heap, h, j, b)
    ensures Layout(LinkedIn(h, j, b)) && Settled(LinkedIn(h, j, b).blocks)
    ensures Placed(|m|, head, LinkedIn(h, j, b).blocks)
    ensures AllNodes(head, LinkedIn(h, j, b)) == Inserted(AllNodes(head, h), j, b.addr)
    ensures Nodes(head, LinkedIn(h, j, b)) == Nodes(head, h) + {b.addr}
    ensures NodesOk(m, head, LinkedIn(h, j, b))
  {
    hide AllGood, Ordered, SettledBut, Covers, UsedBlocks, FreeAddrs, Placed, Distinct, Spaced, Headers, Rings;
    hide Inserted, Elements, NodesOk;
    LinkedInOrdered(h, j, b);
    LinkedInSets(h, j, b);
    LinkedInPlaced(|m|, head, h, j, b);
    LinkedInNodes(head, h, j, b);
    LayoutNodes(m, head, LinkedIn(h, j, b));
  }

  /** Lines 118-123 of free.c: the injected block joins the all-blocks ring behind node `j`. */
  lemma LinkStores(m: Memory, m': Memory, head: int, heap: int, h: Heap, j: int, b: Block, touched: set<(int, nat)>)
    requires Linkable(m, head, heap, h, j, b)
    requires
      var nah, pah := Succ(AllNodes(head, h), j), AllNodes(head, h)[j];
      && touched == {(b.addr, NEXT), (b.addr, PREV), (nah, PREV), (pah, NEXT)}
      && KeptBut(m, m', Nodes(head, LinkedIn(h, j, b)), touched)
      && Field(m', b.addr, NEXT) == nah && Field(m', b.addr, PREV) == pah
      && Field(m', nah, PREV) == b.addr && Field(m', pah, NEXT) == b.addr
    ensures Represents(m', head, heap, LinkedIn(h, j, b))
  {
    hide AllGood, Ordered, SettledBut, Covers, UsedBlocks, FreeAddrs, Placed, Distinct, Spaced, Headers, Ring, Inserted;
    var s, f, nodes := AllNodes(head, h), FreeNodes(head, h), Nodes(head, LinkedIn(h, j, b));
    LinkedInNew(|m|, head, h, j, b);
    LinkedInLayout(m, head, heap, h, j, b);
    LayoutNodes(m, head, h);
    RingInsert(m, m', s, NEXT, PREV, j, b.addr, nodes, touched);
    RingKept(m, m', f, NEXT_FREE, PREV_FREE, nodes, touched);
    assert Elements(Addrs(h.blocks)) <= Nodes(head, h);
    LinkedInHeaders(m, m', heap, h, j, b, nodes, touched);
    NodeMember(head, h, 0);
    KeptField(m, m', nodes, touched, head, ATTRS);
    assert LinkedIn(h, j, b).avail == h.avail;
  }
}
