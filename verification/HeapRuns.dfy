/**
 Whole runs of the allocator in memory: whatever callers allocate, free, inject and store,
 a payload holds what was last stored in it from its allocation until it is freed.
 */
module HeapRuns {
  import opened WordRings
  import opened ArenaModel
  import opened ArenaMemory
  import R = ArenaRuns
  import A = Arena

  const WORD: int := 0x1_0000_0000

  datatype Call =
    | Malloc(size: int, heap: int, tag: int)
    | Free(ptr: int)
    | FreeTagged(tag: int)
    | Inject(heap: int, region: Block)    // with its header, which the caller prepares
    | Store(at: int, value: int)

  /** `x` is a byte of the payload of block `b`. */
  predicate InPayload(b: Block, x: int) { b.addr + UNIT <= x < b.End() }

  ghost predicate Live(hs: seq<Heap>, n: int, b: Block)
    requires |hs| == NHEAP
  {
    0 <= n < NHEAP && b in UsedBlocks(hs[n].blocks)
  }

  ghost predicate Owned(hs: seq<Heap>, x: int)
    requires |hs| == NHEAP
  {
    exists n, b :: Live(hs, n, b) && InPayload(b, x)
  }

  /** Callers ask for sizes that do not wrap, free and store only in what they hold, and give away only what no heap has. */
  ghost predicate Legal(limit: int, heads: int, hs: seq<Heap>, c: Call)
    requires |hs| == NHEAP
  {
    match c
    case Malloc(size, heap, _) => 0 <= size <= WORD - 2 * UNIT && 0 <= heap < NHEAP
    case Free(ptr) => ptr == 0 || R.Live(hs[0], ptr) || R.Live(hs[1], ptr)
    case FreeTagged(_) => true
    case Inject(heap, b) =>
      && 0 <= heap < NHEAP && !b.free && A.Region(limit, b.addr, b.size)
      && A.Disjoint(heads, NHEAP * HEADER_SPAN, b.addr, b.size)
      && A.ClearOf(hs[0].blocks, b.addr, b.size) && A.ClearOf(hs[1].blocks, b.addr, b.size)
    case Store(at, _) => 0 <= at < limit && Owned(hs, at)
  }

  /** The heaps after a call. */
  ghost function After(hs: seq<Heap>, c: Call): (r: seq<Heap>)
    requires |hs| == NHEAP && (c.Free? && c.ptr != 0 ==> R.Live(hs[0], c.ptr) || R.Live(hs[1], c.ptr))
    ensures |r| == NHEAP
  {
    match c
    case Malloc(size, heap, tag) => if 0 <= heap < NHEAP then hs[heap := R.Malloc(hs[heap], size, tag).heap] else hs
    case Free(ptr) =>
      if ptr == 0 then hs
      else var n := A.HeapHolding(hs, ptr); hs[n := Release(hs[n], R.LiveAt(hs[n], ptr))]
    case FreeTagged(tag) => [R.FreeTagged(hs[0], 0, tag), R.FreeTagged(hs[1], 0, tag)]
    case Inject(heap, b) => if 0 <= heap < NHEAP then hs[heap := R.Inject(hs[heap], b)] else hs
    case Store(_, _) => hs
  }

  ghost predicate LegalRun(limit: int, heads: int, hs: seq<Heap>, cs: seq<Call>)
    requires |hs| == NHEAP
    decreases |cs|
  {
    cs == [] || (Legal(limit, heads, hs, cs[0]) && LegalRun(limit, heads, After(hs, cs[0]), cs[1..]))
  }

  /** The call takes the block away from its owner. */
  predicate Frees(c: Call, b: Block) {
    c == Free(b.addr + UNIT) || c == FreeTagged(b.tag)
  }

  predicate Untouched(cs: seq<Call>, b: Block) {
    forall i :: 0 <= i < |cs| ==> !Frees(cs[i], b)
  }

  /** The word last stored at `x`, or else `v`. */
  function Latest(cs: seq<Call>, x: int, v: int): int
    decreases |cs|
  {
    if cs == [] then v else Latest(cs[1..], x, Stored(cs[0], x, v))
  }

  function Stored(c: Call, x: int, v: int): int {
    if c.Store? && c.at == x then c.value else v
  }

  ghost predicate Sound(hs: seq<Heap>) {
    |hs| == NHEAP && R.Sound(hs[0]) && R.Sound(hs[1])
  }

  /** What a call keeps of the live blocks. */
  lemma StaysLive(limit: int, heads: int, hs: seq<Heap>, c: Call, n: int, b: Block)
    requires Sound(hs) && Legal(limit, heads, hs, c) && Live(hs, n, b) && !Frees(c, b)
    ensures Live(After(hs, c), n, b)
  {
    hide UsedBlocks, R.Sound, A.ClearOf, A.Disjoint, Layout, Settled, R.Malloc, R.Inject, R.FreeTagged, Release, Covers;
    match c
    case Malloc(size, heap, tag) =>
      if heap == n { MallocKeeps(hs[n], size, tag, b); }
    case Free(ptr) =>
      if ptr != 0 && A.HeapHolding(hs, ptr) == n { FreeKeeps(hs[n], ptr, b); }
    case FreeTagged(tag) =>
      TaggedKeeps(hs[n], tag, b);
    case Inject(heap, r) =>
      if heap == n { InjectKeeps(limit, hs[n], r); }
    case Store(_, _) =>
  }

  lemma MallocKeeps(h: Heap, size: int, tag: int, b: Block)
    requires R.Sound(h) && 0 <= size <= WORD - 2 * UNIT && b in UsedBlocks(h.blocks)
    ensures b in UsedBlocks(R.Malloc(h, size, tag).heap.blocks)
  {
    hide UsedBlocks, R.Malloc;
    if R.Malloc(h, size, tag).ptr == 0 {
      R.MallocPtr(h, size, tag);
    } else {
      R.MallocSound(h, size, tag);
    }
  }

  lemma FreeKeeps(h: Heap, ptr: int, b: Block)
    requires R.Sound(h) && R.Live(h, ptr) && b in UsedBlocks(h.blocks) && ptr != b.addr + UNIT
    ensures b in UsedBlocks(Release(h, R.LiveAt(h, ptr)).blocks)
  {
    hide UsedBlocks, Release;
    ReleaseCorrect(h, R.LiveAt(h, ptr));
  }

  lemma TaggedKeeps(h: Heap, tag: int, b: Block)
    requires R.Sound(h) && b in UsedBlocks(h.blocks) && b.tag != tag
    ensures b in UsedBlocks(R.FreeTagged(h, 0, tag).blocks)
  {
    hide UsedBlocks, R.FreeTagged;
    R.FreeTaggedCorrect(h, 0, tag);
  }

  lemma InjectKeeps(limit: int, h: Heap, r: Block)
    requires R.Sound(h) && !r.free && A.Region(limit, r.addr, r.size)
    ensures UsedBlocks(R.Inject(h, r).blocks) == UsedBlocks(h.blocks)
  {
    hide UsedBlocks, R.Inject;
    R.InjectCorrect(h, r);
  }

  /** Words of blocks live before and after a call change only by a store. */
  ghost predicate WordsKept(m: Memory, m': Memory, hs: seq<Heap>, hs': seq<Heap>, c: Call)
    requires |hs| == |hs'| == NHEAP
  {
    && |m'| == |m|
    && forall n, b, x :: Live(hs, n, b) && Live(hs', n, b) && InPayload(b, x) && 0 <= x < |m| ==>
         m'[x] == Stored(c, x, m[x])
  }

  lemma KeptWords(m: Memory, m': Memory, hs: seq<Heap>, hs': seq<Heap>, c: Call)
    requires A.PayloadsKept(m, m', hs, hs') && !c.Store?
    ensures WordsKept(m, m', hs, hs', c)
  {
  }

  /** A store in a payload disturbs no heap. */
  lemma StoreKeeps(m: Memory, heads: int, hs: seq<Heap>, x: int, v: int)
    requires A.HeapsValid(m, heads, hs) && 0 <= x < |m| && Owned(hs, x)
    ensures A.HeapsValid(m[x := v], heads, hs)
  {
    hide Represents, Layout, SettledBut, A.Writable, UsedBlocks;
    var m' := m[x := v];
    var n, b :| Live(hs, n, b) && InPayload(b, x);
    forall k | 0 <= k < NHEAP ensures A.HeapValid(m', heads, k, hs[k]) {
      A.HeapIsValid(m, heads, hs, k);
      NotWritable(m, heads, hs, n, b, x, k);
      A.Unwritten(m, m', A.HeadOf(heads, k), k, hs[k]);
    }
  }

  /** A byte of a payload is none that heap `k` may write. */
  lemma NotWritable(m: Memory, heads: int, hs: seq<Heap>, n: int, b: Block, x: int, k: int)
    requires A.HeapsValid(m, heads, hs) && Live(hs, n, b) && InPayload(b, x) && 0 <= k < NHEAP
    ensures !A.Writable(hs[k].blocks, A.HeadOf(heads, k), x)
  {
    hide Headers, Rings, SettledBut, A.Writable, Covers;
    A.HeapIsValid(m, heads, hs, n);
    A.HeapIsValid(m, heads, hs, k);
    if k == n {
      A.PayloadsSpared(|m|, hs[n].blocks, A.HeadOf(heads, n), b, x);
    } else {
      A.UsedBytesCovered(hs[n].blocks, b, x);
      A.WritableCovered(hs[k].blocks, A.HeadOf(heads, k), x);
      assert !A.Outside(heads, n, hs[n], x);
    }
  }

  /** Valid heaps in memory are sound. */
  lemma ValidSound(m: Memory, heads: int, hs: seq<Heap>)
    requires A.HeapsValid(m, heads, hs)
    ensures Sound(hs)
  {
  }

  /** The caller writes the header of the region it is about to give away. */
  method Prepare(a: A.Arena, heap: int, b: Block)
    requires a.Valid() && |a.heaps| == NHEAP && Legal(a.mem.Length, a.heads, a.heaps, Inject(heap, b))
    modifies a.mem
    ensures a.Valid() && A.Injectable(a.mem[..], a.heads, a.heaps, heap, b)
    ensures A.PayloadsKept(old(a.mem[..]), a.mem[..], a.heaps, a.heaps)
  {
    hide A.HeapsValid, A.Injectable, A.ClearOf, UsedBlocks;
    ghost var m := a.mem[..];
    a.mem[b.addr + ATTRS] := Attrs(b.size, heap, TYPE_USED);
    a.mem[b.addr + TAG] := b.tag;
    A.RegionReady(m, a.mem[..], a.heads, a.heaps, heap, b);
    forall n, u, x | 0 <= n < NHEAP && u in UsedBlocks(a.heaps[n].blocks) && u.addr + UNIT <= x < u.End() && 0 <= x < |m|
      ensures a.mem[..][x] == m[x]
    {
      RegionApart(a.heaps[n], u, b, x);
    }
  }

  lemma RegionApart(h: Heap, u: Block, b: Block, x: int)
    requires u in UsedBlocks(h.blocks) && A.ClearOf(h.blocks, b.addr, b.size) && InPayload(u, x)
    ensures !(b.addr <= x < b.End())
  {
  }

  /** One call. */
  method Serve(a: A.Arena, c: Call)
    requires a.Valid() && |a.heaps| == NHEAP && Legal(a.mem.Length, a.heads, a.heaps, c)
    modifies a`heaps, a.mem
    ensures a.Valid() && a.heaps == After(old(a.heaps), c)
    ensures WordsKept(old(a.mem[..]), a.mem[..], old(a.heaps), a.heaps, c)
  {
    hide A.HeapsValid, A.PayloadsKept, WordsKept, UsedBlocks, R.Malloc, R.Inject, R.FreeTagged, Release, A.ClearOf, A.Disjoint;
    ghost var m, hs := a.mem[..], a.heaps;
    match c {
      case Malloc(size, heap, tag) =>
        var p := a.Malloc(size, heap, tag);
        KeptWords(m, a.mem[..], hs, a.heaps, c);
      case Free(ptr) =>
        a.Free(ptr);
        KeptWords(m, a.mem[..], hs, a.heaps, c);
      case FreeTagged(tag) =>
        a.FreeTagged(tag);
        KeptWords(m, a.mem[..], hs, a.heaps, c);
      case Inject(heap, b) =>
        GiveAway(a, heap, b);
        KeptWords(m, a.mem[..], hs, a.heaps, c);
      case Store(at, value) =>
        StoreKeeps(m, a.heads, a.heaps, at, value);
        a.mem[at] := value;
        assert a.mem[..] == m[at := value];
        StoredWords(m, hs, at, value);
    }
  }

  lemma StoredWords(m: Memory, hs: seq<Heap>, x: int, v: int)
    requires |hs| == NHEAP && 0 <= x < |m|
    ensures WordsKept(m, m[x := v], hs, hs, Store(x, v))
  {
  }

  method GiveAway(a: A.Arena, heap: int, b: Block)
    requires a.Valid() && |a.heaps| == NHEAP && Legal(a.mem.Length, a.heads, a.heaps, Inject(heap, b))
    modifies a`heaps, a.mem
    ensures a.Valid() && a.heaps == After(old(a.heaps), Inject(heap, b))
    ensures A.PayloadsKept(old(a.mem[..]), a.mem[..], old(a.heaps), a.heaps)
  {
    hide A.HeapsValid, A.Injectable, UsedBlocks, R.Inject, A.ClearOf, A.Disjoint;
    ghost var m, hs := a.mem[..], a.heaps;
    Prepare(a, heap, b);
    a.InjectFreeBlock(b.addr, heap, b);
  }

  /** Block `b` of heap `n` is live, and its words are what `cs` leaves of those in `m`. */
  ghost predicate Holds(m: Memory, m': Memory, hs: seq<Heap>, n: int, b: Block, cs: seq<Call>)
    requires |hs| == NHEAP
  {
    && |m'| == |m| && Live(hs, n, b)
    && forall x :: InPayload(b, x) && 0 <= x < |m| ==> m'[x] == Latest(cs, x, m[x])
  }

  lemma HoldsFurther(m: Memory, m1: Memory, m2: Memory, limit: int, heads: int, hs: seq<Heap>, cs: seq<Call>, c: Call, n: int, b: Block)
    requires Sound(hs) && Legal(limit, heads, hs, c) && !Frees(c, b)
    requires Holds(m, m1, hs, n, b, cs) && WordsKept(m1, m2, hs, After(hs, c), c)
    ensures Holds(m, m2, After(hs, c), n, b, cs + [c])
  {
    hide Legal, Sound, After, Latest, UsedBlocks;
    StaysLive(limit, heads, hs, c, n, b);
    forall x | InPayload(b, x) && 0 <= x < |m| ensures m2[x] == Latest(cs + [c], x, m[x]) {
      assert m1[x] == Latest(cs, x, m[x]);
      LatestNext(cs, c, x, m[x]);
    }
  }

  lemma {:induction false} LatestNext(cs: seq<Call>, c: Call, x: int, v: int)
    ensures Latest(cs + [c], x, v) == Stored(c, x, Latest(cs, x, v))
    decreases |cs|
  {
    if cs == [] {
      assert (cs + [c])[1..] == [];
    } else {
      assert (cs + [c])[1..] == cs[1..] + [c];
      LatestNext(cs[1..], c, x, Stored(cs[0], x, v));
    }
  }

  ghost function RunOf(limit: int, heads: int, hs: seq<Heap>, cs: seq<Call>): (r: seq<Heap>)
    requires |hs| == NHEAP && LegalRun(limit, heads, hs, cs)
    ensures |r| == NHEAP
    decreases |cs|
  {
    if cs == [] then hs else RunOf(limit, heads, After(hs, cs[0]), cs[1..])
  }

  /** One call after another: the heaps are valid throughout, and every payload keeps what its owner stored. */
  method Run(a: A.Arena, cs: seq<Call>)
    requires a.Valid() && |a.heaps| == NHEAP && LegalRun(a.mem.Length, a.heads, a.heaps, cs)
    modifies a`heaps, a.mem
    ensures a.Valid() && a.heaps == RunOf(a.mem.Length, a.heads, old(a.heaps), cs)
    ensures forall n, b :: Live(old(a.heaps), n, b) && Untouched(cs, b) ==> Holds(old(a.mem[..]), a.mem[..], a.heaps, n, b, cs)
  {
    hide A.HeapsValid, WordsKept, UsedBlocks, After, Legal, Latest, Sound, Frees, Live;
    ghost var m0, hs0, limit := a.mem[..], a.heaps, a.mem.Length;
    var i := 0;
    NothingYet(m0, hs0);
    assert cs[0..] == cs && cs[..0] == [];
    while i < |cs|
      invariant 0 <= i <= |cs| && a.Valid() && |a.heaps| == NHEAP && LegalRun(limit, a.heads, a.heaps, cs[i..])
      invariant RunOf(limit, a.heads, a.heaps, cs[i..]) == RunOf(limit, a.heads, hs0, cs)
      invariant forall n, b :: Live(hs0, n, b) && Untouched(cs[..i], b) ==> Holds(m0, a.mem[..], a.heaps, n, b, cs[..i])
    {
      ghost var m1, hs := a.mem[..], a.heaps;
      assert cs[i..][0] == cs[i] && cs[i..][1..] == cs[i + 1..];
      ValidSound(m1, a.heads, hs);
      Serve(a, cs[i]);
      AllHold(m0, m1, a.mem[..], limit, a.heads, hs0, hs, cs, i);
      i := i + 1;
    }
    assert cs[..i] == cs && cs[i..] == [];
  }

  lemma NothingYet(m: Memory, hs: seq<Heap>)
    requires |hs| == NHEAP
    ensures forall n, b :: Live(hs, n, b) ==> Holds(m, m, hs, n, b, [])
  {
  }

  lemma AllHold(m0: Memory, m1: Memory, m2: Memory, limit: int, heads: int, hs0: seq<Heap>, hs: seq<Heap>, cs: seq<Call>, i: nat)
    requires |hs0| == NHEAP && Sound(hs) && i < |cs| && Legal(limit, heads, hs, cs[i])
    requires forall n, b :: Live(hs0, n, b) && Untouched(cs[..i], b) ==> Holds(m0, m1, hs, n, b, cs[..i])
    requires WordsKept(m1, m2, hs, After(hs, cs[i]), cs[i])
    ensures forall n, b :: Live(hs0, n, b) && Untouched(cs[..i + 1], b) ==> Holds(m0, m2, After(hs, cs[i]), n, b, cs[..i + 1])
  {
    hide After, Live, WordsKept, Holds, Frees;
    assert cs[..i + 1] == cs[..i] + [cs[i]];
    forall n, b | Live(hs0, n, b) && Untouched(cs[..i + 1], b) ensures Holds(m0, m2, After(hs, cs[i]), n, b, cs[..i + 1]) {
      assert cs[..i + 1][i] == cs[i] && !Frees(cs[i], b);
      assert forall j :: 0 <= j < i ==> cs[..i][j] == cs[..i + 1][j];
      HoldsFurther(m0, m1, m2, limit, heads, hs, cs[..i], cs[i], n, b);
    }
  }

  /** Whoever allocates finds in the payload what was stored last, until the block is freed by pointer or by tag. */
  method AllocateThen(a: A.Arena, size: int, heap: int, tag: int, cs: seq<Call>) returns (p: int, ghost m: Memory)
    requires a.Valid() && |a.heaps| == NHEAP && Legal(a.mem.Length, a.heads, a.heaps, Malloc(size, heap, tag))
    requires LegalRun(a.mem.Length, a.heads, After(a.heaps, Malloc(size, heap, tag)), cs)
    modifies a`heaps, a.mem
    ensures a.Valid() && p == R.Malloc(old(a.heaps)[heap], size, tag).ptr
    ensures p != 0 && Free(p) !in cs && FreeTagged(tag) !in cs ==>
              && |m| == a.mem.Length && 0 <= p && p + size <= a.mem.Length
              && forall x :: p <= x < p + size ==> a.mem[x] == Latest(cs, x, m[x])
  {
    hide A.HeapsValid, UsedBlocks, After, R.Malloc, Latest, Untouched, Holds;
    ghost var hs := a.heaps;
    ValidSound(a.mem[..], a.heads, hs);
    p := a.Malloc(size, heap, tag);
    assert a.heaps == After(hs, Malloc(size, heap, tag)) by { MallocAfter(hs, size, heap, tag); }
    m := a.mem[..];
    ghost var hs1 := a.heaps;
    Run(a, cs);
    if p != 0 && Free(p) !in cs && FreeTagged(tag) !in cs {
      ghost var b := NewBlock(hs, size, heap, tag);
      LiveInside(m, a.heads, hs1, heap, b);
      NotFreed(cs, b);
      HoldsWords(m, a.mem[..], a.heaps, heap, b, cs);
    }
  }

  lemma MallocAfter(hs: seq<Heap>, size: int, heap: int, tag: int)
    requires |hs| == NHEAP && 0 <= heap < NHEAP
    ensures After(hs, Malloc(size, heap, tag)) == hs[heap := R.Malloc(hs[heap], size, tag).heap]
  {
  }

  lemma NewBlock(hs: seq<Heap>, size: int, heap: int, tag: int) returns (b: Block)
    requires Sound(hs) && 0 <= heap < NHEAP && 0 <= size <= WORD - 2 * UNIT && R.Malloc(hs[heap], size, tag).ptr != 0
    ensures Live(After(hs, Malloc(size, heap, tag)), heap, b) && b.tag == tag
    ensures b.addr + UNIT == R.Malloc(hs[heap], size, tag).ptr && b.size - UNIT >= size
  {
    hide UsedBlocks, R.Malloc;
    R.MallocSound(hs[heap], size, tag);
    var h := R.Malloc(hs[heap], size, tag).heap;
    b :| b.addr + UNIT == R.Malloc(hs[heap], size, tag).ptr && b.size - UNIT >= size && b.tag == tag && Allocates(hs[heap], h, b);
    R.AllocatesLive(hs[heap], h, b);
  }

  lemma LiveInside(m: Memory, heads: int, hs: seq<Heap>, n: int, b: Block)
    requires A.HeapsValid(m, heads, hs) && Live(hs, n, b)
    ensures 0 <= b.addr && b.End() <= |m|
  {
    hide Headers, Rings, SettledBut, Covers;
    A.HeapIsValid(m, heads, hs, n);
    assert b.Good();
  }

  lemma NotFreed(cs: seq<Call>, b: Block)
    requires Free(b.addr + UNIT) !in cs && FreeTagged(b.tag) !in cs
    ensures Untouched(cs, b)
  {
  }

  lemma HoldsWords(m: Memory, m': Memory, hs: seq<Heap>, n: int, b: Block, cs: seq<Call>)
    requires |hs| == NHEAP && Holds(m, m', hs, n, b, cs)
    ensures |m'| == |m| && forall x :: InPayload(b, x) && 0 <= x < |m| ==> m'[x] == Latest(cs, x, m[x])
  {
  }
}
