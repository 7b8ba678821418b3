/**
 The block cache of cache.c: descriptors on a doubly linked chain, least recently used
 first, proved against the value-level chain of module LruModel.
 */
module Cache {
  import opened LruModel
  import opened Shift

  type Data = seq<int>

  class Entry {
    var block: int
    var prev: Entry?
    var next: Entry?
    var data: Data

    constructor ()
      ensures block == EMPTY && prev == null && next == null
    {
      block, prev, next, data := EMPTY, null, null, [];
    }
  }

  function Succ(s: seq<Entry>, i: int): Entry
    requires 0 <= i < |s|
  {
    if i + 1 < |s| then s[i + 1] else s[0]
  }

  function Pred(s: seq<Entry>, i: int): Entry
    requires 0 <= i < |s|
  {
    if i > 0 then s[i - 1] else s[|s| - 1]
  }

  ghost predicate Linked(s: seq<Entry>, i: int)
    requires 0 <= i < |s|
    reads s
  {
    s[i].next == Succ(s, i) && s[i].prev == Pred(s, i)
  }

  /** The nodes of `s` form one closed doubly linked chain. */
  ghost predicate Chain(s: seq<Entry>)
    reads s
  {
    forall i :: 0 <= i < |s| ==> Linked(s, i)
  }

  ghost predicate Distinct(s: seq<Entry>) {
    forall i, j :: 0 <= i < j < |s| ==> s[i] != s[j]
  }

  function Tags(s: seq<Entry>): (v: seq<int>)
    reads s
    ensures |v| == |s|
    ensures forall i :: 0 <= i < |s| ==> v[i] == s[i].block
  {
    seq(|s|, i requires 0 <= i < |s| reads s => s[i].block)
  }

  /** `cs->prev->next = cs->next; cs->next->prev = cs->prev` for the node at place `k`. */
  method Unlink(cs: Entry, ghost s: seq<Entry>, ghost k: int)
    requires Chain(s) && Distinct(s) && 0 < k < |s| && cs == s[k]
    modifies s
    ensures Chain(s[..k] + s[k + 1..])
    ensures forall e :: e in s ==> e.block == old(e.block) && e.data == old(e.data)
    ensures cs.next == old(cs.next) && cs.prev == old(cs.prev)
  {
    assert Linked(s, k);
    cs.prev.next := cs.next;
    cs.next.prev := cs.prev;
    ghost var r := s[..k] + s[k + 1..];
    forall i | 0 <= i < |r| ensures Linked(r, i) {
      if i < k {
        assert old(Linked(s, i));
      } else {
        assert old(Linked(s, i + 1));
      }
    }
  }

  /** Lines 99-102: put `cs` at the end of the chain, in front of the head. */
  method Append(cs: Entry, head: Entry, ghost s: seq<Entry>)
    requires s != [] && s[0] == head && Chain(s) && Distinct(s) && cs !in s
    modifies s, cs
    ensures Chain(s + [cs])
    ensures forall e :: e in s + [cs] ==> e.block == old(e.block) && e.data == old(e.data)
  {
    assert Linked(s, 0);
    cs.prev := head.prev;
    head.prev.next := cs;
    cs.next := head;
    head.prev := cs;
    ghost var r := s + [cs];
    forall i | 0 <= i < |r| ensures Linked(r, i) {
      if i < |s| {
        assert old(Linked(s, i));
      }
    }
  }

  /** Both: the node at place `k` goes to the end of the chain. */
  method Relink(cs: Entry, head: Entry, ghost s: seq<Entry>, ghost rest: seq<Entry>, ghost k: int)
    requires Chain(s) && Distinct(s) && Distinct(rest) && 0 < k < |s| && cs == s[k] && rest == s[..k] + s[k + 1..]
    requires rest != [] && rest[0] == head && cs !in rest && (forall e :: e in rest ==> e in s)
    modifies s
    ensures Chain(rest + [cs])
    ensures forall e :: e in s ==> e.block == old(e.block) && e.data == old(e.data)
  {
    hide Chain, Distinct;
    Unlink(cs, s, k);
    Append(cs, head, rest);
  }

  /** Line 68: the links of a node outside the chain are cleared. */
  method Detach(cs: Entry, ghost s: seq<Entry>)
    requires Chain(s) && cs !in s
    modifies cs`next, cs`prev
    ensures Chain(s) && cs.next == null && cs.prev == null
  {
    cs.next, cs.prev := null, null;
    forall i | 0 <= i < |s| ensures Linked(s, i) {
      assert old(Linked(s, i)) && s[i] in s;
    }
  }

  /** Lines 65-68: the node at place `k` leaves the chain and forgets its neighbours. */
  method Remove(cs: Entry, ghost s: seq<Entry>, ghost rest: seq<Entry>, ghost k: int)
    requires Chain(s) && Distinct(s) && 0 < k < |s| && cs == s[k] && rest == s[..k] + s[k + 1..] && cs !in rest
    modifies s
    ensures Chain(rest) && cs.next == null
    ensures forall e :: e in s ==> e.block == old(e.block) && e.data == old(e.data)
  {
    hide Chain, Distinct;
    Unlink(cs, s, k);
    Detach(cs, rest);
  }

  method NewEntries(n: nat) returns (s: seq<Entry>)
    ensures |s| == n && Distinct(s)
    ensures forall i :: 0 <= i < |s| ==> fresh(s[i]) && s[i].block == EMPTY && s[i].next == null
  {
    s := [];
    while |s| < n
      invariant |s| <= n && Distinct(s)
      invariant forall i :: 0 <= i < |s| ==> fresh(s[i]) && s[i].block == EMPTY && s[i].next == null
    {
      var e := new Entry();
      s := s + [e];
    }
  }

  /** Lines 42-57: chain all descriptors in order; the head is the first of them. */
  method LinkAll(s: seq<Entry>)
    requires Distinct(s) && |s| > 0
    modifies s
    ensures Chain(s)
    ensures forall j :: 0 < j < |s| ==> s[j].block == EMPTY
  {
    var head, count := s[0], |s| - 1;
    head.prev := s[count];
    head.prev.next := head;
    head.block := EMPTY;
    var prev := head;
    for i := 0 to count
      invariant prev == s[i]
      invariant s[count].next == head && head.prev == s[count]
      invariant forall j {:trigger s[j].prev} :: 0 < j <= i ==> s[j].prev == s[j - 1]
      invariant forall j {:trigger s[j].block} :: 0 < j <= i ==> s[j].block == EMPTY
      invariant forall j {:trigger s[j].next} :: 0 <= j < i ==> s[j].next == s[j + 1]
    {
      var cur := s[i + 1];
      assert s[i] != s[count];
      cur.block := EMPTY;
      cur.prev := prev;
      prev.next := cur;
      prev := cur;
    }
    forall i | 0 <= i < |s| ensures Linked(s, i) {
    }
  }

  const ENTRIES_SPAN: int := 0x1_0000   // cache_entries has 16 bits (fs.h:134)

  /** How many blocks have room in the area, next to a descriptor for each and the head. */
  function RoomFor(cacheSize: nat, blockSize: nat, descriptor: nat): int
    requires descriptor > 0
  {
    (cacheSize - descriptor) / (blockSize + descriptor)
  }

  /** The number of entries the cache gets (lines 33-36). */
  function EntriesFor(cacheSize: nat, blockSize: nat, descriptor: nat): int
    requires descriptor > 0
  {
    RoomFor(cacheSize, blockSize, descriptor) % ENTRIES_SPAN
  }

  /**
     The entries fit the area; they are as many as have room exactly below 65536, and if
     that many or a multiple of it have room, there is none at all.
   */
  lemma EntriesExact(cacheSize: nat, blockSize: nat, descriptor: nat)
    requires descriptor > 0 && cacheSize >= blockSize + 2 * descriptor
    ensures var n := EntriesFor(cacheSize, blockSize, descriptor);
            && 0 <= n && n * (blockSize + descriptor) + descriptor <= cacheSize
            && (cacheSize < (n + 1) * (blockSize + descriptor) + descriptor <==> RoomFor(cacheSize, blockSize, descriptor) < ENTRIES_SPAN)
            && (n == 0 <==> RoomFor(cacheSize, blockSize, descriptor) % ENTRIES_SPAN == 0)
  {
    var unit, room := blockSize + descriptor, RoomFor(cacheSize, blockSize, descriptor);
    var n := EntriesFor(cacheSize, blockSize, descriptor);
    Quotient(cacheSize - descriptor, unit);
    DivNonneg(cacheSize - descriptor, unit);
    MulMono(n, room, unit);
    if n + 1 <= room { MulMono(n + 1, room, unit); }
    Distribute(n, 1, unit);
  }

  /** Lines 33-36. */
  method CountEntries(cacheSize: nat, blockSize: nat, descriptor: nat) returns (count: nat)
    requires descriptor > 0 && cacheSize >= blockSize + 2 * descriptor
    ensures count == EntriesFor(cacheSize, blockSize, descriptor)
    ensures count * (blockSize + descriptor) + descriptor <= cacheSize
  {
    EntriesExact(cacheSize, blockSize, descriptor);
    count := (cacheSize - descriptor) / (blockSize + descriptor) % ENTRIES_SPAN;
  }

  // ---------- tags and chain order as values

  ghost predicate UniqueTags(tags: seq<int>) {
    forall i, j :: 0 < i < j < |tags| && tags[i] == tags[j] ==> tags[i] == EMPTY
  }

  /** `order` lists some descriptors, none of them twice and never the head node 0. */
  ghost predicate GoodOrder(order: seq<int>, n: int) {
    && (forall q :: 0 <= q < |order| ==> 0 < order[q] < n)
    && (forall p, q :: 0 <= p < q < |order| ==> order[p] != order[q])
  }

  /** The blocks on the chain, least recently used first. */
  ghost function ViewOf(tags: seq<int>, order: seq<int>): (v: seq<int>)
    requires GoodOrder(order, |tags|)
    ensures |v| == |order| && forall q :: 0 <= q < |order| ==> v[q] == tags[order[q]]
  {
    seq(|order|, q requires 0 <= q < |order| => tags[order[q]])
  }

  /** The blocks held by entries that have left the chain. */
  ghost function LockedOf(tags: seq<int>, order: seq<int>): set<int> {
    set i | 0 < i < |tags| && i !in order && tags[i] != EMPTY :: tags[i]
  }

  function Moved(order: seq<int>, p: int): seq<int>
    requires 0 <= p < |order|
  {
    order[..p] + order[p + 1..] + [order[p]]
  }

  lemma MovedOrder(order: seq<int>, n: int, p: int)
    requires GoodOrder(order, n) && 0 <= p < |order|
    ensures GoodOrder(Moved(order, p), n) && forall i :: i in Moved(order, p) <==> i in order
    ensures GoodOrder(order[..p] + order[p + 1..], n)
    ensures forall i :: i in order[..p] + order[p + 1..] <==> i in order && i != order[p]
  {
    var w := order[..p] + order[p + 1..];
    forall k | 0 <= k < |w| ensures 0 < w[k] < n && w[k] != order[p] {
      var j := if k < p then k else k + 1;
      assert w[k] == order[j];
      assert if j < p then order[j] != order[p] else order[p] != order[j];
    }
    forall j, k | 0 <= j < k < |w| ensures w[j] != w[k] {
      assert order[if j < p then j else j + 1] != order[if k < p then k else k + 1];
    }
    WithoutMembers(order, p);
  }

  lemma WithoutMembers(order: seq<int>, p: int)
    requires 0 <= p < |order|
    ensures forall i :: i in order <==> i in order[..p] + order[p + 1..] || i == order[p]
  {
    assert order == order[..p] + [order[p]] + order[p + 1..];
  }

  lemma ViewUnique(tags: seq<int>, order: seq<int>)
    requires UniqueTags(tags) && GoodOrder(order, |tags|)
    ensures NoDuplicates(ViewOf(tags, order))
  {
    var v := ViewOf(tags, order);
    forall p, q | 0 <= p < q < |v| && v[p] == v[q] ensures v[p] == EMPTY {
      assert order[p] != order[q];
    }
  }

  /** How the descriptor `i` serving `block` stands to the chain: at place `p`, or locked when `p` is negative. */
  ghost predicate Serves(tags: seq<int>, order: seq<int>, i: int, p: int, block: int) {
    && 0 < i < |tags| && p < |order|
    && (if p >= 0 then order[p] == i else i !in order && tags[i] == block)
    && (tags[i] != block ==> p == 0 && forall j :: 0 < j < |tags| ==> tags[j] != block)
  }

  /** Serving a block as the code does is one step of the least-recently-used chain. */
  lemma ServedTouch(tags: seq<int>, order: seq<int>, i: int, p: int, block: int)
    requires UniqueTags(tags) && GoodOrder(order, |tags|) && block != EMPTY && order != []
    requires Serves(tags, order, i, p, block)
    ensures var order' := if p < 0 then order else Moved(order, p);
            && |order'| == |order| && GoodOrder(order', |tags|) && UniqueTags(tags[i := block])
            && ViewOf(tags[i := block], order') == Touch(ViewOf(tags, order), LockedOf(tags, order), block)
            && LockedOf(tags[i := block], order') == LockedOf(tags, order)
  {
    hide NoDuplicates;
    var v := ViewOf(tags, order);
    ViewUnique(tags, order);
    if p < 0 {
      assert block in LockedOf(tags, order);
      assert tags[i := block] == tags;
    } else {
      MovedOrder(order, |tags|, p);
      if tags[i] == block {
        LockedStays(tags, order, p, block);
      }
      TouchAt(v, LockedOf(tags, order), block, p);
      MovedView(tags, order, i, p, block);
      MovedLocked(tags, order, i, p, block);
    }
  }

  lemma ServesBounds(tags: seq<int>, order: seq<int>, i: int, p: int, block: int)
    requires Serves(tags, order, i, p, block)
    ensures 0 < i < |tags|
  {
  }

  lemma LockedStays(tags: seq<int>, order: seq<int>, p: int, block: int)
    requires UniqueTags(tags) && GoodOrder(order, |tags|) && 0 <= p < |order| && tags[order[p]] == block && block != EMPTY
    ensures block !in LockedOf(tags, order)
  {
    forall j | 0 < j < |tags| && j !in order ensures tags[j] != block {
      assert order[p] in order;
    }
  }

  lemma UnlockedTags(tags: seq<int>, order: seq<int>, p: int)
    requires GoodOrder(order, |tags|) && 0 <= p < |order|
    ensures LockedOf(tags, order[..p] + order[p + 1..])
         == LockedOf(tags, order) + (if tags[order[p]] == EMPTY then {} else {tags[order[p]]})
  {
    MovedOrder(order, |tags|, p);
  }

  lemma ViewWithout(tags: seq<int>, order: seq<int>, p: int)
    requires GoodOrder(order, |tags|) && 0 <= p < |order| && GoodOrder(order[..p] + order[p + 1..], |tags|)
    ensures ViewOf(tags, order[..p] + order[p + 1..]) == Without(ViewOf(tags, order), p)
  {
    var v, o := ViewOf(tags, order), order[..p] + order[p + 1..];
    var r := ViewOf(tags, o);
    forall q | 0 <= q < |r| ensures r[q] == Without(v, p)[q] {
      assert o[q] == order[if q < p then q else q + 1];
    }
  }

  lemma MovedView(tags: seq<int>, order: seq<int>, i: int, p: int, block: int)
    requires GoodOrder(order, |tags|) && 0 <= p < |order| && order[p] == i && GoodOrder(Moved(order, p), |tags|)
    ensures var v := ViewOf(tags, order);
            ViewOf(tags[i := block], Moved(order, p)) == v[..p] + v[p + 1..] + [block]
  {
    var v, r := ViewOf(tags, order), ViewOf(tags[i := block], Moved(order, p));
    forall q | 0 <= q < |r| ensures r[q] == (v[..p] + v[p + 1..] + [block])[q] {
      if q < p {
        assert Moved(order, p)[q] == order[q];
      } else if q < |r| - 1 {
        assert Moved(order, p)[q] == order[q + 1];
      }
    }
  }

  lemma MovedLocked(tags: seq<int>, order: seq<int>, i: int, p: int, block: int)
    requires GoodOrder(order, |tags|) && 0 <= p < |order| && order[p] == i
    ensures LockedOf(tags[i := block], Moved(order, p)) == LockedOf(tags, order)
  {
    MovedOrder(order, |tags|, p);
    assert order[p] in order;
    assert forall j :: 0 < j < |tags| && j !in order ==> tags[i := block][j] == tags[j];
  }

  /** The chain as a list of nodes, head first. */
  ghost function ChainNodes(nodes: seq<Entry>, order: seq<int>): (s: seq<Entry>)
    requires |nodes| > 0 && GoodOrder(order, |nodes|)
    ensures |s| == |order| + 1 && s[0] == nodes[0]
    ensures forall k :: 0 <= k < |s| ==> s[k] == nodes[OrderAt(order, k)]
    ensures forall e :: e in s ==> e in nodes
  {
    seq(|order| + 1, k requires 0 <= k <= |order| => nodes[OrderAt(order, k)])
  }

  /** The descriptor at place `k` of the chain; the head is descriptor 0. */
  function OrderAt(order: seq<int>, k: int): int
    requires 0 <= k <= |order|
  {
    if k == 0 then 0 else order[k - 1]
  }

  lemma OrderDiffers(order: seq<int>, n: int, i: int, j: int)
    requires GoodOrder(order, n) && 0 <= i < j <= |order| && n > 0
    ensures OrderAt(order, i) != OrderAt(order, j) && 0 <= OrderAt(order, i) < n && 0 < OrderAt(order, j) < n
  {
    if i > 0 {
      assert order[i - 1] != order[j - 1];
    }
  }

  lemma NodesDiffer(nodes: seq<Entry>, a: int, b: int)
    requires Distinct(nodes) && 0 <= a < |nodes| && 0 <= b < |nodes| && a != b
    ensures nodes[a] != nodes[b]
  {
    assert if a < b then nodes[a] != nodes[b] else nodes[b] != nodes[a];
  }

  lemma AllCounted(count: nat, order: seq<int>)
    requires |order| == count && forall q :: 0 <= q < count ==> order[q] == q + 1
    ensures forall i :: 0 < i < count + 1 ==> i in order
  {
    forall i | 0 < i < count + 1 ensures i in order {
      assert order[i - 1] == i;
    }
  }

  ghost function AllInOrder(count: nat): (order: seq<int>)
    ensures |order| == count && GoodOrder(order, count + 1)
    ensures forall q :: 0 <= q < count ==> order[q] == q + 1
    ensures forall i :: 0 < i < count + 1 ==> i in order
  {
    var order := seq(count, q => q + 1);
    AllCounted(count, order);
    order
  }

  lemma WholeChain(nodes: seq<Entry>, order: seq<int>)
    requires |order| + 1 == |nodes| && GoodOrder(order, |nodes|)
    requires forall q :: 0 <= q < |order| ==> order[q] == q + 1
    ensures ChainNodes(nodes, order) == nodes
  {
  }

  lemma WithoutNodes(nodes: seq<Entry>, order: seq<int>, p: int)
    requires |nodes| > 0 && GoodOrder(order, |nodes|) && 0 <= p < |order|
    requires GoodOrder(order[..p] + order[p + 1..], |nodes|)
    ensures var s := ChainNodes(nodes, order); s[..p + 1] + s[p + 2..] == ChainNodes(nodes, order[..p] + order[p + 1..])
  {
    hide GoodOrder;
    var s, o := ChainNodes(nodes, order), order[..p] + order[p + 1..];
    var rest := ChainNodes(nodes, o);
    forall k | 0 <= k < |rest| ensures rest[k] == (s[..p + 1] + s[p + 2..])[k] {
      assert OrderAt(o, k) == OrderAt(order, if k <= p then k else k + 1);
    }
  }

  lemma AppendedNodes(nodes: seq<Entry>, order: seq<int>, i: int)
    requires |nodes| > 0 && GoodOrder(order, |nodes|) && GoodOrder(order + [i], |nodes|)
    ensures (order + [i])[|order|] == i && ChainNodes(nodes, order + [i]) == ChainNodes(nodes, order) + [nodes[i]]
  {
  }

  lemma NotInRest(s: seq<Entry>, k: int)
    requires Distinct(s) && 0 <= k < |s|
    ensures s[k] !in s[..k] + s[k + 1..]
  {
  }

  lemma OffChain(nodes: seq<Entry>, order: seq<int>, i: int)
    requires |nodes| > 0 && Distinct(nodes) && GoodOrder(order, |nodes|) && 0 < i < |nodes| && i !in order
    ensures nodes[i] !in ChainNodes(nodes, order)
  {
    hide Distinct;
    var s := ChainNodes(nodes, order);
    forall k | 0 <= k < |s| ensures s[k] != nodes[i] {
      assert OrderAt(order, k) != i;
      NodesDiffer(nodes, OrderAt(order, k), i);
    }
  }

  /** Taking a descriptor out of the chain, and putting it back at the end, in terms of nodes. */
  lemma MovedNodes(nodes: seq<Entry>, order: seq<int>, p: int)
    requires |nodes| > 0 && Distinct(nodes) && GoodOrder(order, |nodes|) && 0 <= p < |order|
    ensures GoodOrder(order[..p] + order[p + 1..], |nodes|) && GoodOrder(Moved(order, p), |nodes|)
    ensures var s := ChainNodes(nodes, order);
            var rest := ChainNodes(nodes, order[..p] + order[p + 1..]);
            && Distinct(s) && Distinct(rest) && s[p + 1] !in rest
            && s[..p + 1] + s[p + 2..] == rest
            && ChainNodes(nodes, Moved(order, p)) == rest + [s[p + 1]]
  {
    hide Distinct, GoodOrder;
    MovedOrder(order, |nodes|, p);
    ChainDistinct(nodes, order);
    ChainDistinct(nodes, order[..p] + order[p + 1..]);
    WithoutNodes(nodes, order, p);
    NotInRest(ChainNodes(nodes, order), p + 1);
    AppendedNodes(nodes, order[..p] + order[p + 1..], order[p]);
  }

  lemma ChainDistinct(nodes: seq<Entry>, order: seq<int>)
    requires |nodes| > 0 && Distinct(nodes) && GoodOrder(order, |nodes|)
    ensures Distinct(ChainNodes(nodes, order))
  {
    hide GoodOrder;
    var s := ChainNodes(nodes, order);
    forall i, j | 0 <= i < j < |s| ensures s[i] != s[j] {
      OrderDiffers(order, |nodes|, i, j);
      NodesDiffer(nodes, OrderAt(order, i), OrderAt(order, j));
    }
  }

  /** The chain without the node at place `p`. */
  lemma RestNodes(nodes: seq<Entry>, order: seq<int>, p: int) returns (rest: seq<Entry>)
    requires |nodes| > 0 && Distinct(nodes) && GoodOrder(order, |nodes|) && 0 <= p < |order|
    ensures var s := ChainNodes(nodes, order);
            && Distinct(s) && Distinct(rest) && s[p + 1] !in rest && |rest| > 0 && rest[0] == nodes[0]
            && s[..p + 1] + s[p + 1 + 1..] == rest
            && (forall e :: e in rest ==> e in s) && (forall e :: e in s ==> e in nodes)
    ensures 0 < order[p] < |nodes| && nodes[order[p]] == ChainNodes(nodes, order)[p + 1]
    ensures GoodOrder(order[..p] + order[p + 1..], |nodes|) && rest == ChainNodes(nodes, order[..p] + order[p + 1..])
    ensures GoodOrder(Moved(order, p), |nodes|) && ChainNodes(nodes, Moved(order, p)) == rest + [nodes[order[p]]]
    ensures forall i :: i in Moved(order, p) <==> i in order
    ensures forall i :: i in order[..p] + order[p + 1..] <==> i in order && i != order[p]
  {
    MovedNodes(nodes, order, p);
    MovedOrder(order, |nodes|, p);
    rest := ChainNodes(nodes, order[..p] + order[p + 1..]);
  }

  class Device {
    // The descriptors, head node first (cache.c:33-40).
    const nodes: seq<Entry>
    // What reading a block from the disk yields.
    const disk: int -> Data
    // The unlocked descriptors, least recently used first.
    ghost var order: seq<int>

    /**
     `cache_init`, cache.c:19-58, for a cache area that is not unusably small (line 28).
     `descriptor` is sizeof(struct cache).
     */
    constructor CacheInit(cacheSize: nat, blockSize: nat, descriptor: nat, disk: int -> Data)
      requires descriptor > 0 && cacheSize >= blockSize + 2 * descriptor
      ensures Valid() && this.disk == disk && Locked() == {}
      ensures forall i :: 0 <= i < |nodes| ==> fresh(nodes[i])
      ensures |nodes| - 1 == EntriesFor(cacheSize, blockSize, descriptor)
      ensures (|nodes| - 1) * (blockSize + descriptor) + descriptor <= cacheSize
      ensures |View()| == |nodes| - 1 && forall i :: 0 <= i < |View()| ==> View()[i] == EMPTY
    {
      hide *;
      var count := CountEntries(cacheSize, blockSize, descriptor);
      var s := NewEntries(count + 1);
      LinkAll(s);
      nodes, this.disk, order := s, disk, AllInOrder(count);
      new;
      AllChained();
    }

    lemma AllChained()
      requires |nodes| > 0 && Distinct(nodes) && Chain(nodes) && order == AllInOrder(|nodes| - 1)
      requires forall i :: 0 < i < |nodes| ==> nodes[i].block == EMPTY
      ensures Valid() && Locked() == {}
      ensures |View()| == |nodes| - 1 && forall i :: 0 <= i < |View()| ==> View()[i] == EMPTY
    {
      hide Chain, Distinct, GoodOrder, AllInOrder;
      WholeChain(nodes, order);
    }

    ghost predicate Shape()
      reads this, nodes
    {
      && |nodes| > 0 && Distinct(nodes) && GoodOrder(order, |nodes|)
      && Chain(ChainNodes(nodes, order))
      && (forall i :: 0 < i < |nodes| ==> Unlinked(i))
    }

    /** A descriptor that is not on the chain is locked: it has no successor. */
    ghost predicate Unlinked(i: int)
      requires 0 <= i < |nodes|
      reads this, nodes
    {
      i !in order ==> nodes[i].next == null
    }

    ghost predicate Loaded(i: int)
      requires 0 <= i < |nodes|
      reads nodes
    {
      nodes[i].block != EMPTY ==> nodes[i].data == disk(nodes[i].block)
    }

    ghost predicate Valid()
      reads this, nodes
    {
      Shape() && UniqueTags(Tags(nodes)) && forall i :: 0 < i < |nodes| ==> Loaded(i)
    }

    ghost function Repr(): set<object> {
      {this} + set e: Entry | e in nodes
    }

    /** Blocks can be read through the cache: some entry is not locked. */
    ghost predicate Ready()
      reads Repr()
    {
      Valid() && order != []
    }

    ghost function View(): seq<int>
      requires GoodOrder(order, |nodes|)
      reads this, nodes
    {
      ViewOf(Tags(nodes), order)
    }

    ghost function Locked(): set<int>
      reads this, nodes
    {
      LockedOf(Tags(nodes), order)
    }

    lemma OnChain(i: int)
      requires Shape() && 0 < i < |nodes|
      ensures i in order <==> nodes[i].next != null
    {
      assert Unlinked(i);
      if i in order {
        var q :| 0 <= q < |order| && order[q] == i;
        assert Linked(ChainNodes(nodes, order), q + 1);
      }
    }

    /** Lines 82-91: scan all descriptors for `block`; else take the least recently used entry. */
    method Find(block: int) returns (cs: Entry, ghost i: int, ghost p: int)
      requires Valid() && block != EMPTY && order != []
      ensures Serves(Tags(nodes), order, i, p, block) && cs == nodes[i]
    {
      var n := 1;
      while n < |nodes| && nodes[n].block != block
        invariant 1 <= n <= |nodes|
        invariant forall j :: 0 < j < n ==> nodes[j].block != block
      {
        n := n + 1;
      }
      if n < |nodes| {
        cs, i, p := nodes[n], n, -1;
        if n in order {
          p :| 0 <= p < |order| && order[p] == n;
        }
      } else {
        assert Linked(ChainNodes(nodes, order), 0);
        cs := nodes[0].next;
        i, p := order[0], 0;
      }
    }

    /** Lines 94-103: move an unlocked entry to the recently used end. */
    method MoveToEnd(cs: Entry, ghost i: int, ghost p: int)
      requires Shape() && 0 <= p < |order| && order[p] == i && cs == nodes[i]
      modifies this`order, nodes
      ensures Shape() && order == Moved(old(order), p)
      ensures forall e :: e in nodes ==> e.block == old(e.block) && e.data == old(e.data)
    {
      ghost var s := ChainNodes(nodes, order);
      ghost var order' := Moved(order, p);
      ghost var rest := RestNodes(nodes, order, p);
      Relink(cs, nodes[0], s, rest, p + 1);
      order := order';
      forall j | 0 < j < |nodes| ensures Unlinked(j) {
        assert old(Unlinked(j));
        if j !in order {
          OffChain(nodes, old(order), j);
          assert nodes[j] in nodes;
        }
      }
    }

    /** `_get_cache_block`, cache.c:76-106: the entry holding `block`, or a victim. */
    method GetCacheBlock(block: int) returns (cs: Entry, ghost i: int, ghost p: int)
      requires Valid() && block != EMPTY && order != []
      modifies this`order, nodes
      ensures Valid() && old(Serves(Tags(nodes), order, i, p, block)) && cs == nodes[i]
      ensures order == if p < 0 then old(order) else Moved(old(order), p)
      ensures Tags(nodes) == old(Tags(nodes))
    {
      hide Shape, UniqueTags, Serves;
      cs, i, p := Find(block);
      OnChain(i);
      ghost var tags := Tags(nodes);
      if cs.next != null {
        MoveToEnd(cs, i, p);
      }
      forall j | 0 <= j < |nodes| ensures nodes[j].block == tags[j] && (j > 0 ==> Loaded(j)) {
        assert nodes[j] in nodes && (j > 0 ==> old(Loaded(j)));
      }
      assert Tags(nodes) == tags;
    }

    /** Lines 119-122: give the entry its new tag and fill its buffer. */
    method Load(cs: Entry, block: int, ghost i: int)
      requires Valid() && 0 < i < |nodes| && cs == nodes[i] && UniqueTags(Tags(nodes)[i := block])
      modifies cs
      ensures Valid() && Tags(nodes) == old(Tags(nodes))[i := block]
    {
      hide GoodOrder, UniqueTags, Distinct;
      ghost var s := ChainNodes(nodes, order);
      ghost var tags := Tags(nodes);
      cs.block := block;
      cs.data := disk(block);
      forall k | 0 <= k < |s| ensures Linked(s, k) {
        assert old(Linked(s, k));
      }
      forall j | 0 <= j < |nodes| && j != i ensures nodes[j] != cs {
        NodesDiffer(nodes, j, i);
      }
      assert Tags(nodes) == tags[i := block];
      forall j | 0 < j < |nodes| ensures Loaded(j) && Unlinked(j) {
        assert old(Unlinked(j)) && (j != i ==> old(Loaded(j)));
      }
    }

    /** Lines 119-124 of `get_cache`. */
    method Serve(cs: Entry, block: int, ghost i: int) returns (data: Data)
      requires Valid() && 0 < i < |nodes| && cs == nodes[i] && UniqueTags(Tags(nodes)[i := block]) && block != EMPTY
      modifies cs
      ensures Valid() && order == old(order) && Tags(nodes) == old(Tags(nodes))[i := block] && data == disk(block)
    {
      hide UniqueTags, Shape;
      ghost var tags := Tags(nodes);
      if cs.block != block {
        Load(cs, block, i);
      }
      assert Loaded(i);
      assert Tags(nodes) == tags[i := block];
      data := cs.data;
    }

    /** `get_cache`, cache.c:114-125. */
    method GetCache(block: int) returns (data: Data)
      requires Valid() && block != EMPTY && order != []
      modifies this`order, nodes
      ensures Valid() && |order| == |old(order)|
      ensures data == disk(block)
      ensures View() == Touch(old(View()), old(Locked()), block)
      ensures Locked() == old(Locked())
    {
      hide Chain, Distinct, GoodOrder, UniqueTags, Serves, ViewOf, LockedOf, Touch, ChainNodes, Unlinked, Loaded;
      ghost var tags, order0 := Tags(nodes), order;
      var cs;
      ghost var i, p;
      cs, i, p := GetCacheBlock(block);
      assert 0 < i < |nodes| by { ServesBounds(tags, order0, i, p, block); }
      ServedTouch(tags, order0, i, p, block);
      data := Serve(cs, block, i);
    }

    /** Lines 65-68: the entry leaves the chain. */
    method TakeOff(cs: Entry, ghost i: int, ghost p: int)
      requires Shape() && 0 <= p < |order| && order[p] == i && cs == nodes[i]
      modifies this`order, nodes
      ensures Shape() && order == old(order)[..p] + old(order)[p + 1..]
      ensures forall e :: e in nodes ==> e.block == old(e.block) && e.data == old(e.data)
    {
      ghost var s := ChainNodes(nodes, order);
      ghost var order' := order[..p] + order[p + 1..];
      ghost var rest := RestNodes(nodes, order, p);
      Remove(cs, s, rest, p + 1);
      order := order';
      forall j | 0 < j < |nodes| ensures Unlinked(j) {
        assert old(Unlinked(j));
        if j !in order && j != i {
          OffChain(nodes, old(order), j);
          assert nodes[j] in nodes;
        }
      }
    }

    /** `cache_lock_block`, cache.c:63-69: the entry leaves the chain and keeps its block for good. */
    method CacheLockBlock(cs: Entry, ghost i: int, ghost p: int)
      requires Valid() && 0 <= p < |order| && order[p] == i && cs == nodes[i]
      modifies this`order, nodes
      ensures Valid() && order == old(order)[..p] + old(order)[p + 1..]
      ensures Tags(nodes) == old(Tags(nodes))
      ensures View() == Without(old(View()), p) && cs.block == old(View())[p]
      ensures Locked() == old(Locked()) + (if cs.block == EMPTY then {} else {cs.block})
    {
      hide Chain, Distinct, UniqueTags, LockedOf, ChainNodes, Unlinked;
      ghost var tags := Tags(nodes);
      UnlockedTags(tags, order, p);
      ViewWithout(tags, order, p);
      assert tags[order[p]] == cs.block;
      TakeOff(cs, i, p);
      forall j | 0 <= j < |nodes| ensures nodes[j].block == tags[j] && (j > 0 ==> Loaded(j)) {
        assert nodes[j] in nodes && (j > 0 ==> old(Loaded(j)));
      }
      assert Tags(nodes) == tags;
    }
  }
}
