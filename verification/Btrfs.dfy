/**
 Ordered search in btrfs (btrfs.c): binary search, the chunk map, and the descent of a tree.
 */
module Btrfs {
  import opened Options

  const BTRFS_MAX_CHUNK_ENTRIES: nat := 256
  const BTRFS_MAX_LEVEL: nat := 8
  const NOWHERE: int := 0xffff_ffff_ffff_ffff

  // ---------- binary search

  /** The comparison with the searched item rises strictly along the positions. */
  ghost predicate Rises(func: int -> int, min: int, max: int) {
    forall i, j :: min <= i < j < max ==> (func(j) <= 0 ==> func(i) < 0) && (func(i) >= 0 ==> func(j) > 0)
  }

  /** `bin_search`, btrfs.c:28-56; `func` compares the item at a position with the searched one. */
  method BinSearch(func: int -> int, min: int, max: int) returns (ret: int, slot: int)
    requires 0 <= min <= max && Rises(func, min, max)
    ensures ret == 0 ==> min <= slot < max && func(slot) == 0
    ensures ret != 0 ==> ret == 1 && min <= slot <= max
    ensures ret != 0 ==> (forall i :: min <= i < slot ==> func(i) < 0) && (forall i :: slot <= i < max ==> func(i) > 0)
  {
    var low, high := min, max;
    while low < high
      invariant min <= low <= high <= max
      invariant forall i :: min <= i < low ==> func(i) < 0
      invariant forall i :: high <= i < max ==> func(i) > 0
    {
      var mid := (low + high) / 2;
      var c := func(mid);
      if c < 0 {
        low := mid + 1;
      } else if c > 0 {
        high := mid;
      } else {
        return 0, mid;
      }
    }
    return 1, low;
  }

  // ---------- the chunk map

  datatype Chunk = Chunk(logical: int, length: int, physical: int) {
    predicate Covers(a: int) { logical <= a < logical + length }
  }

  function CompChunk(a: int, b: int): int {
    if a > b then 1 else if a < b then -1 else 0
  }

  ghost predicate Sorted(s: seq<Chunk>) {
    forall i, j :: 0 <= i < j < |s| ==> s[i].logical < s[j].logical
  }

  ghost predicate Disjoint(s: seq<Chunk>) {
    forall i, j :: 0 <= i < j < |s| ==> s[i].logical + s[i].length <= s[j].logical
  }

  /** Linear scan: the physical address of a logical one. */
  function Scan(s: seq<Chunk>, a: int): int {
    if s == [] then NOWHERE
    else if s[0].Covers(a) then s[0].physical + (a - s[0].logical)
    else Scan(s[1..], a)
  }

  predicate Has(s: seq<Chunk>, logical: int) {
    exists i :: 0 <= i < |s| && s[i].logical == logical
  }

  /** The map with one more chunk, in its place, unless the start is known or the map full. */
  ghost predicate Inserted(s: seq<Chunk>, c: Chunk, r: seq<Chunk>) {
    if Has(s, c.logical) || |s| == BTRFS_MAX_CHUNK_ENTRIES then r == s
    else exists k :: 0 <= k <= |s| && r == WithAt(s, c, k)
  }

  lemma PointsWithAt(t: seq<Chunk>, s: seq<Chunk>, c: Chunk, slot: int)
    requires |t| == |s| + 1 && 0 <= slot <= |s| && t[slot] == c
    requires forall j :: 0 <= j < slot ==> t[j] == s[j]
    requires forall j :: slot < j < |t| ==> t[j] == s[j - 1]
    ensures t == WithAt(s, c, slot)
  {
  }

  class ChunkMap {
    const items: array<Chunk>
    var curLength: nat

    /** The map as it stands before the first insertion. */
    constructor ()
      ensures Valid() && Contents() == [] && fresh(items)
    {
      items := new Chunk[BTRFS_MAX_CHUNK_ENTRIES](_ => Chunk(0, 0, 0));
      curLength := 0;
    }

    ghost predicate Valid()
      reads this, items
    {
      items.Length == BTRFS_MAX_CHUNK_ENTRIES && curLength <= items.Length && Sorted(items[..curLength])
    }

    ghost function Contents(): seq<Chunk>
      requires curLength <= items.Length
      reads this, items
    {
      items[..curLength]
    }

    /** The binary search of lines 88 and 114. */
    method Search(logical: int) returns (ret: int, slot: int)
      requires Valid()
      ensures ret == 0 ==> 0 <= slot < curLength && Contents()[slot].logical == logical
      ensures ret != 0 ==> ret == 1 && 0 <= slot <= curLength && Between(Contents(), slot, logical)
    {
      var s := items[..curLength];
      CompRises(s, logical);
      ret, slot := BinSearch(Comp(s, logical), 0, curLength);
      if ret != 0 {
        CompBetween(s, logical, slot);
      }
    }

    /** `insert_map`, btrfs.c:74-102. */
    method InsertMap(c: Chunk)
      requires Valid()
      modifies this, items
      ensures Valid() && Inserted(old(Contents()), c, Contents())
    {
      hide Sorted, Inserted, Between;
      ghost var s := Contents();
      if curLength == 0 {
        items[0] := c;
        curLength := 1;
        InsertedAt(s, c, 0);
        assert Contents() == WithAt(s, c, 0);
        return;
      }
      var ret, slot := Search(c.logical);
      if ret == 0 {
        KnownStart(s, c, slot);
        return;
      }
      if curLength == BTRFS_MAX_CHUNK_ENTRIES {
        FullMap(s, c);
        return;
      }
      ShiftUp(slot);
      items[slot] := c;
      curLength := curLength + 1;
      PointsWithAt(Contents(), s, c, slot);
      InsertedAt(s, c, slot);
    }

    /** Lines 98-99: the chunks from `slot` on move up by one place. */
    method ShiftUp(slot: int)
      requires 0 <= slot <= curLength < items.Length
      modifies items
      ensures forall j :: 0 <= j < slot ==> items[j] == old(items[j])
      ensures forall j :: slot < j <= curLength ==> items[j] == old(items[j - 1])
    {
      ghost var s := items[..curLength];
      var i := curLength;
      while i > slot
        invariant slot <= i <= curLength
        invariant forall j :: 0 <= j < i ==> items[j] == s[j]
        invariant forall j :: i < j <= curLength ==> items[j] == s[j - 1]
      {
        items[i] := items[i - 1];
        i := i - 1;
      }
    }

    /** `logical_physical`, btrfs.c:108-126. */
    method LogicalPhysical(logical: int) returns (physical: int)
      requires Valid() && Disjoint(Contents())
      ensures physical == Scan(Contents(), logical)
    {
      var ret, slot := Search(logical);
      ghost var s := Contents();
      assert forall i :: 0 <= i < |s| ==> s[i] == items[i];
      if ret == 0 {
        slot := slot + 1;
      } else if slot == 0 {
        ScanMiss(Contents(), logical, 0);
        return NOWHERE;
      }
      if logical >= items[slot - 1].logical + items[slot - 1].length {
        ScanMiss(Contents(), logical, slot);
        return NOWHERE;
      }
      ScanHit(Contents(), logical, slot - 1);
      physical := items[slot - 1].physical + logical - items[slot - 1].logical;
    }
  }

  /** `btrfs_comp_chunk_map` against a searched address, by position. */
  function Comp(s: seq<Chunk>, logical: int): int -> int {
    i => if 0 <= i < |s| then CompChunk(s[i].logical, logical) else 0
  }

  /** The place of an unknown address. */
  ghost predicate Between(s: seq<Chunk>, slot: int, logical: int) {
    && 0 <= slot <= |s|
    && (forall i :: 0 <= i < slot ==> s[i].logical < logical)
    && (forall i :: slot <= i < |s| ==> s[i].logical > logical)
  }

  lemma CompRises(s: seq<Chunk>, logical: int)
    requires Sorted(s)
    ensures Rises(Comp(s, logical), 0, |s|)
    ensures forall i :: 0 <= i < |s| ==> (Comp(s, logical)(i) == 0 <==> s[i].logical == logical)
  {
  }

  lemma CompBetween(s: seq<Chunk>, logical: int, slot: int)
    requires 0 <= slot <= |s|
    requires (forall i :: 0 <= i < slot ==> Comp(s, logical)(i) < 0) && (forall i :: slot <= i < |s| ==> Comp(s, logical)(i) > 0)
    ensures Between(s, slot, logical)
  {
    forall i | 0 <= i < slot ensures s[i].logical < logical {
      assert Comp(s, logical)(i) < 0;
    }
    forall i | slot <= i < |s| ensures s[i].logical > logical {
      assert Comp(s, logical)(i) > 0;
    }
  }

  function WithAt(s: seq<Chunk>, c: Chunk, k: int): seq<Chunk>
    requires 0 <= k <= |s|
  {
    s[..k] + [c] + s[k..]
  }

  lemma InsertedAt(s: seq<Chunk>, c: Chunk, k: int)
    requires Sorted(s) && |s| < BTRFS_MAX_CHUNK_ENTRIES && 0 <= k <= |s| && (s == [] || Between(s, k, c.logical))
    ensures Inserted(s, c, WithAt(s, c, k)) && Sorted(WithAt(s, c, k))
  {
    var r := WithAt(s, c, k);
    forall i, j | 0 <= i < j < |r| ensures r[i].logical < r[j].logical {
      assert i < k ==> r[i] == s[i];
      assert j > k ==> r[j] == s[j - 1];
      assert i > k ==> r[i] == s[i - 1];
      assert j < k ==> r[j] == s[j];
    }
    assert !Has(s, c.logical);
  }

  lemma KnownStart(s: seq<Chunk>, c: Chunk, slot: int)
    requires 0 <= slot < |s| && s[slot].logical == c.logical
    ensures Inserted(s, c, s)
  {
  }

  lemma FullMap(s: seq<Chunk>, c: Chunk)
    requires |s| == BTRFS_MAX_CHUNK_ENTRIES
    ensures Inserted(s, c, s)
  {
  }

  /** No chunk covers an address past the chunks before `k` and below those from `k` on. */
  lemma {:induction false} ScanMiss(s: seq<Chunk>, a: int, k: nat)
    requires Sorted(s) && Disjoint(s) && k <= |s|
    requires k > 0 ==> a >= s[k - 1].logical + s[k - 1].length && a >= s[k - 1].logical
    requires forall i :: k <= i < |s| ==> a < s[i].logical
    ensures Scan(s, a) == NOWHERE
  {
    forall i | 0 <= i < |s| ensures !s[i].Covers(a) {
      if i < k - 1 {
        assert s[i].logical + s[i].length <= s[k - 1].logical;
      }
    }
    ScanNone(s, a);
  }

  lemma {:induction false} ScanNone(s: seq<Chunk>, a: int)
    requires forall i :: 0 <= i < |s| ==> !s[i].Covers(a)
    ensures Scan(s, a) == NOWHERE
  {
    if s != [] {
      assert forall i :: 0 <= i < |s[1..]| ==> s[1..][i] == s[i + 1];
      ScanNone(s[1..], a);
    }
  }

  lemma {:induction false} ScanHit(s: seq<Chunk>, a: int, k: nat)
    requires Disjoint(s) && k < |s| && s[k].Covers(a)
    ensures Scan(s, a) == s[k].physical + (a - s[k].logical)
    decreases k
  {
    if k > 0 {
      assert s[0].logical + s[0].length <= s[k].logical;
      assert s[1..][k - 1] == s[k];
      assert forall i :: 0 <= i < |s[1..]| ==> s[1..][i] == s[i + 1];
      ScanHit(s[1..], a, k - 1);
    }
  }

  // ---------- trees

  datatype Key = Key(objectid: int, typ: int, offset: int)

  /** The order of keys on the disk: by object, then by type, then by offset. */
  predicate Less(a: Key, b: Key) {
    || a.objectid < b.objectid
    || (a.objectid == b.objectid && (a.typ < b.typ || (a.typ == b.typ && a.offset < b.offset)))
  }

  /** `btrfs_comp_keys`, btrfs.c:215-230. */
  function CompKeys(a: Key, b: Key): (c: int)
    ensures (c < 0 <==> Less(a, b)) && (c > 0 <==> Less(b, a)) && (c == 0 <==> a == b)
  {
    if a.objectid > b.objectid then 1
    else if a.objectid < b.objectid then -1
    else if a.typ > b.typ then 1
    else if a.typ < b.typ then -1
    else if a.offset > b.offset then 1
    else if a.offset < b.offset then -1
    else 0
  }

  /** The comparison decides field by field, the first that differs. */
  lemma KeysByField(a: Key, b: Key)
    ensures CompKeys(a, b) <= 0 ==> a.objectid <= b.objectid
    ensures CompKeys(a, b) <= 0 && a.objectid == b.objectid ==> a.typ <= b.typ
    ensures CompKeys(a, b) <= 0 && a.objectid == b.objectid && a.typ == b.typ ==> a.offset <= b.offset
    ensures a.objectid < b.objectid ==> CompKeys(a, b) < 0
    ensures a.objectid == b.objectid && a.typ < b.typ ==> CompKeys(a, b) < 0
    ensures a.objectid == b.objectid && a.typ == b.typ && a.offset < b.offset ==> CompKeys(a, b) < 0
  {
  }

  /** A total order: exactly one of less, equal, greater; and transitive. */
  lemma KeysOrdered(a: Key, b: Key, c: Key)
    ensures CompKeys(a, b) == 0 <==> a == b
    ensures CompKeys(a, b) == -CompKeys(b, a) && -1 <= CompKeys(a, b) <= 1
    ensures CompKeys(a, b) <= 0 && CompKeys(b, c) <= 0 ==> CompKeys(a, c) <= 0
    ensures CompKeys(a, b) < 0 && CompKeys(b, c) <= 0 ==> CompKeys(a, c) < 0
    ensures CompKeys(a, b) <= 0 && CompKeys(b, c) < 0 ==> CompKeys(a, c) < 0
  {
  }

  predicate Below(a: Key, b: Option<Key>) { b.None? || Less(a, b.value) }

  datatype Item = Item(key: Key, data: int)
  datatype Ptr = Ptr(key: Key, block: int)

  /** A tree block; level 0 has items, higher levels have pointers. */
  datatype Block = Block(level: nat, items: seq<Item>, ptrs: seq<Ptr>)

  type Reader = int -> Block

  function PtrKeys(p: seq<Ptr>): (s: seq<Key>)
    ensures |s| == |p| && forall i :: 0 <= i < |s| ==> s[i] == p[i].key
  {
    seq(|p|, i requires 0 <= i < |p| => p[i].key)
  }

  function ItemKeys(p: seq<Item>): (s: seq<Key>)
    ensures |s| == |p| && forall i :: 0 <= i < |s| ==> s[i] == p[i].key
  {
    seq(|p|, i requires 0 <= i < |p| => p[i].key)
  }

  /** Keys rise strictly, start with `lo` and stay below `hi`. */
  ghost predicate KeysOk(s: seq<Key>, lo: Key, hi: Option<Key>) {
    && s != [] && s[0] == lo
    && (forall i :: 0 <= i < |s| ==> Below(s[i], hi))
    && (forall i, j :: 0 <= i < j < |s| ==> Less(s[i], s[j]))
  }

  /** A well-formed tree whose smallest key is `lo` and all of whose keys are below `hi`. */
  ghost predicate WellFormed(rd: Reader, addr: int, level: nat, lo: Key, hi: Option<Key>)
    decreases level, 0
  {
    && rd(addr).level == level
    && if level == 0 then KeysOk(ItemKeys(rd(addr).items), lo, hi)
       else KeysOk(PtrKeys(rd(addr).ptrs), lo, hi) && ChildrenOk(rd, rd(addr).ptrs, level - 1, hi)
  }

  ghost predicate ChildrenOk(rd: Reader, p: seq<Ptr>, level: nat, hi: Option<Key>)
    decreases level, 2
  {
    forall i: nat :: i < |p| ==> ChildOk(rd, p, i, level, hi)
  }

  ghost predicate ChildOk(rd: Reader, p: seq<Ptr>, i: nat, level: nat, hi: Option<Key>)
    requires i < |p|
    decreases level, 1
  {
    WellFormed(rd, p[i].block, level, p[i].key, Upper(p, i, hi))
  }

  function Upper(p: seq<Ptr>, i: nat, hi: Option<Key>): Option<Key>
    requires i < |p|
  {
    if i + 1 < |p| then Some(p[i + 1].key) else hi
  }

  // ---------- reference: all items of the tree, left to right

  function All(rd: Reader, addr: int, level: nat): seq<Item>
    decreases level, 0
  {
    if level == 0 then rd(addr).items else AllOf(rd, rd(addr).ptrs, level - 1)
  }

  function AllOf(rd: Reader, p: seq<Ptr>, level: nat): seq<Item>
    decreases level, 1 + |p|
  {
    if p == [] then [] else All(rd, p[0].block, level) + AllOf(rd, p[1..], level)
  }

  lemma {:induction false} AllOfMember(rd: Reader, p: seq<Ptr>, level: nat, x: Item)
    ensures x in AllOf(rd, p, level) <==> exists i :: 0 <= i < |p| && x in All(rd, p[i].block, level)
    decreases |p|
  {
    if p != [] {
      AllOfMember(rd, p[1..], level, x);
      if x in AllOf(rd, p[1..], level) {
        var i :| 0 <= i < |p[1..]| && x in All(rd, p[1..][i].block, level);
        assert p[1..][i] == p[i + 1];
      }
      if i :| 0 <= i < |p| && x in All(rd, p[i].block, level) && i > 0 {
        assert p[1..][i - 1] == p[i];
      }
    }
  }

  lemma AllMember(rd: Reader, addr: int, level: nat, x: Item)
    requires level > 0
    ensures var p := rd(addr).ptrs;
            x in All(rd, addr, level) <==> exists i :: 0 <= i < |p| && x in All(rd, p[i].block, level - 1)
  {
    AllOfMember(rd, rd(addr).ptrs, level - 1, x);
  }

  lemma Child(rd: Reader, addr: int, level: nat, lo: Key, hi: Option<Key>, i: nat)
    requires WellFormed(rd, addr, level, lo, hi) && level > 0 && i < |rd(addr).ptrs|
    ensures var p := rd(addr).ptrs;
            && KeysOk(PtrKeys(p), lo, hi) && Below(p[i].key, Upper(p, i, hi))
            && WellFormed(rd, p[i].block, level - 1, p[i].key, Upper(p, i, hi))
  {
    var p := rd(addr).ptrs;
    assert ChildOk(rd, p, i, level - 1, hi);
    assert PtrKeys(p)[i] == p[i].key;
    if i + 1 < |p| {
      assert PtrKeys(p)[i + 1] == p[i + 1].key;
    }
  }

  /** All keys of a well-formed tree lie between its bounds. */
  lemma {:induction false} Bounds(rd: Reader, addr: int, level: nat, lo: Key, hi: Option<Key>, x: Item)
    requires WellFormed(rd, addr, level, lo, hi) && x in All(rd, addr, level)
    ensures CompKeys(lo, x.key) <= 0 && Below(x.key, hi)
    decreases level
  {
    if level == 0 {
      LeafBounds(rd(addr).items, lo, hi, x);
    } else {
      InnerBounds(rd, addr, level, lo, hi, x);
    }
  }

  lemma LeafBounds(items: seq<Item>, lo: Key, hi: Option<Key>, x: Item)
    requires KeysOk(ItemKeys(items), lo, hi) && x in items
    ensures CompKeys(lo, x.key) <= 0 && Below(x.key, hi)
  {
    var i :| 0 <= i < |items| && items[i] == x;
    assert ItemKeys(items)[i] == x.key;
    assert ItemKeys(items)[0] == lo;
  }

  lemma {:induction false} InnerBounds(rd: Reader, addr: int, level: nat, lo: Key, hi: Option<Key>, x: Item)
    requires WellFormed(rd, addr, level, lo, hi) && level > 0 && x in All(rd, addr, level)
    ensures CompKeys(lo, x.key) <= 0 && Below(x.key, hi)
    decreases level, 0
  {
    hide WellFormed, All, Less, CompKeys;
    AllMember(rd, addr, level, x);
    var p := rd(addr).ptrs;
    var i :| 0 <= i < |p| && x in All(rd, p[i].block, level - 1);
    Child(rd, addr, level, lo, hi, i);
    Bounds(rd, p[i].block, level - 1, p[i].key, Upper(p, i, hi), x);
    assert PtrKeys(p)[i] == p[i].key && PtrKeys(p)[0] == lo;
    KeysOrdered(lo, p[i].key, x.key);
    if i + 1 < |p| {
      assert PtrKeys(p)[i + 1] == p[i + 1].key;
      if hi.Some? {
        KeysOrdered(x.key, p[i + 1].key, hi.value);
      }
    }
    KeysOrdered(lo, lo, lo);
  }

  // ---------- where a search ends

  /** The greatest key not above the searched one; if there is none, the first item. */
  ghost predicate Best(l: seq<Item>, key: Key, e: Item) {
    && e in l
    && if !Less(key, e.key) then forall x :: x in l && !Less(key, x.key) ==> !Less(e.key, x.key)
       else forall x :: x in l ==> Less(key, x.key) && !Less(x.key, e.key)
  }

  /** So the key is found exactly when it is there. */
  lemma BestFinds(l: seq<Item>, key: Key, e: Item)
    requires Best(l, key, e)
    ensures e.key == key <==> exists x :: x in l && x.key == key
  {
    KeysOrdered(e.key, key, e.key);
    if x :| x in l && x.key == key {
      KeysOrdered(x.key, e.key, key);
      KeysOrdered(key, key, key);
    }
  }

  /** The position the search goes to: its key is not above the searched one, unless it is the first; the next one's is. */
  ghost predicate Chosen(s: seq<Key>, key: Key, i: int) {
    && 0 <= i < |s|
    && (i > 0 ==> CompKeys(s[i], key) <= 0)
    && (i + 1 < |s| ==> CompKeys(s[i + 1], key) > 0)
  }

  lemma LeafLands(items: seq<Item>, lo: Key, hi: Option<Key>, key: Key, i: int)
    requires KeysOk(ItemKeys(items), lo, hi) && Chosen(ItemKeys(items), key, i)
    ensures Best(items, key, items[i])
  {
    var s, e := ItemKeys(items), items[i];
    forall x | x in items ensures CompKeys(e.key, key) <= 0 && CompKeys(x.key, key) <= 0 ==> CompKeys(x.key, e.key) <= 0
                               ensures CompKeys(e.key, key) > 0 ==> CompKeys(x.key, key) > 0 && CompKeys(e.key, x.key) <= 0 {
      var j :| 0 <= j < |items| && items[j] == x;
      assert s[j] == x.key && s[i] == e.key;
      if j < i {
        assert CompKeys(s[j], s[i]) < 0;
      } else if j > i {
        assert CompKeys(s[i], s[j]) < 0;
        if j > i + 1 { assert CompKeys(s[i + 1], s[j]) < 0; }
        KeysOrdered(s[j], key, s[i + 1]);
        KeysOrdered(key, s[i + 1], s[j]);
        KeysOrdered(s[i], s[j], s[i]);
      }
      KeysOrdered(s[i], s[i], s[i]);
    }
  }

  /** The smallest key of a well-formed tree is in it. */
  lemma {:induction false} FirstKey(rd: Reader, addr: int, level: nat, lo: Key, hi: Option<Key>) returns (x: Item)
    requires WellFormed(rd, addr, level, lo, hi)
    ensures x in All(rd, addr, level) && x.key == lo
    decreases level
  {
    if level == 0 {
      x := rd(addr).items[0];
      assert ItemKeys(rd(addr).items)[0] == x.key;
    } else {
      var p := rd(addr).ptrs;
      assert PtrKeys(p)[0] == p[0].key;
      Child(rd, addr, level, lo, hi, 0);
      x := FirstKey(rd, p[0].block, level - 1, p[0].key, Upper(p, 0, hi));
      AllMember(rd, addr, level, x);
    }
  }

  /** The best item of the chosen child is the best of the whole tree. */
  lemma InnerLands(rd: Reader, addr: int, level: nat, lo: Key, hi: Option<Key>, key: Key, i: int, e: Item)
    requires WellFormed(rd, addr, level, lo, hi) && level > 0
    requires Chosen(PtrKeys(rd(addr).ptrs), key, i) && Best(All(rd, rd(addr).ptrs[i].block, level - 1), key, e)
    ensures Best(All(rd, addr, level), key, e)
  {
    hide WellFormed, All, Less, CompKeys, KeysOk;
    var p := rd(addr).ptrs;
    AllMember(rd, addr, level, e);
    Child(rd, addr, level, lo, hi, i);
    Bounds(rd, p[i].block, level - 1, p[i].key, Upper(p, i, hi), e);
    if CompKeys(e.key, key) > 0 {
      NotAboveFirst(rd, addr, level, lo, hi, key, i, e);
    }
    forall x | x in All(rd, addr, level)
      ensures CompKeys(e.key, key) <= 0 && CompKeys(x.key, key) <= 0 ==> CompKeys(x.key, e.key) <= 0
      ensures CompKeys(e.key, key) > 0 ==> CompKeys(x.key, key) > 0 && CompKeys(e.key, x.key) <= 0
    {
      AllMember(rd, addr, level, x);
      var j :| 0 <= j < |p| && x in All(rd, p[j].block, level - 1);
      Child(rd, addr, level, lo, hi, j);
      Bounds(rd, p[j].block, level - 1, p[j].key, Upper(p, j, hi), x);
      ByChild(p, lo, hi, key, i, j, e.key, x.key);
    }
  }

  /** If the best item of the chosen child is above the key, that child is the first. */
  lemma NotAboveFirst(rd: Reader, addr: int, level: nat, lo: Key, hi: Option<Key>, key: Key, i: int, e: Item)
    requires WellFormed(rd, addr, level, lo, hi) && level > 0
    requires Chosen(PtrKeys(rd(addr).ptrs), key, i) && Best(All(rd, rd(addr).ptrs[i].block, level - 1), key, e)
    requires CompKeys(e.key, key) > 0
    ensures i == 0
  {
    hide WellFormed, All, Less, CompKeys;
    var p := rd(addr).ptrs;
    Child(rd, addr, level, lo, hi, i);
    var x := FirstKey(rd, p[i].block, level - 1, p[i].key, Upper(p, i, hi));
    assert PtrKeys(p)[i] == p[i].key;
  }

  /** How an item of child `j` compares when child `i` was chosen. */
  lemma ByChild(p: seq<Ptr>, lo: Key, hi: Option<Key>, key: Key, i: int, j: int, e: Key, x: Key)
    requires KeysOk(PtrKeys(p), lo, hi) && Chosen(PtrKeys(p), key, i) && 0 <= j < |p|
    requires CompKeys(p[i].key, e) <= 0 && Below(e, Upper(p, i, hi))
    requires CompKeys(p[j].key, x) <= 0 && Below(x, Upper(p, j, hi))
    requires CompKeys(e, key) > 0 ==> i == 0
    requires i == j ==> (if CompKeys(e, key) <= 0 then CompKeys(x, key) <= 0 ==> CompKeys(x, e) <= 0
                         else CompKeys(x, key) > 0 && CompKeys(e, x) <= 0)
    ensures CompKeys(e, key) <= 0 && CompKeys(x, key) <= 0 ==> CompKeys(x, e) <= 0
    ensures CompKeys(e, key) > 0 ==> CompKeys(x, key) > 0 && CompKeys(e, x) <= 0
  {
    hide Less, CompKeys;
    var s := PtrKeys(p);
    if j < i {
      assert CompKeys(x, s[j + 1]) < 0;
      assert j + 1 < i ==> CompKeys(s[j + 1], s[i]) < 0;
      KeysOrdered(x, s[j + 1], s[i]);
      KeysOrdered(x, s[i], e);
      KeysOrdered(s[i], s[i], s[i]);
    } else if i < j {
      assert CompKeys(e, s[i + 1]) < 0 && CompKeys(s[i + 1], key) > 0;
      assert i + 1 < j ==> CompKeys(s[i + 1], s[j]) < 0;
      KeysOrdered(s[i + 1], s[j], x);
      KeysOrdered(s[i + 1], s[i + 1], s[i + 1]);
      KeysOrdered(e, s[i + 1], x);
      KeysOrdered(s[i + 1], key, s[i + 1]);
      KeysOrdered(key, s[i + 1], x);
      KeysOrdered(x, key, x);
      KeysOrdered(e, x, e);
    }
  }

  // ---------- the code

  function CompAt(s: seq<Key>, key: Key): int -> int {
    i => if 0 <= i < |s| then CompKeys(s[i], key) else 0
  }

  lemma CompAtRises(s: seq<Key>, lo: Key, hi: Option<Key>, key: Key)
    requires KeysOk(s, lo, hi)
    ensures Rises(CompAt(s, key), 0, |s|)
  {
    hide Less, CompKeys;
    forall i, j | 0 <= i < j < |s|
      ensures CompAt(s, key)(j) <= 0 ==> CompAt(s, key)(i) < 0
      ensures CompAt(s, key)(i) >= 0 ==> CompAt(s, key)(j) > 0
    {
      assert CompKeys(s[i], s[j]) < 0;
      KeysOrdered(s[i], s[j], key);
      KeysOrdered(key, s[i], s[j]);
      KeysOrdered(s[i], key, s[i]);
      KeysOrdered(s[j], key, s[j]);
    }
  }

  /** The search of one block and the step back, lines 265-269 and 277-281. */
  method SearchBlock(s: seq<Key>, key: Key, ghost lo: Key, ghost hi: Option<Key>) returns (ret: int, slot: int)
    requires KeysOk(s, lo, hi)
    ensures Chosen(s, key, slot) && (ret == 0 <==> s[slot] == key) && (ret == 0 || ret == 1)
  {
    CompAtRises(s, lo, hi, key);
    ret, slot := BinSearch(CompAt(s, key), 0, |s|);
    ghost var at := slot;
    if ret != 0 && slot > 0 {
      slot := slot - 1;
    }
    ChosenBy(s, lo, hi, key, ret, at, slot);
  }

  lemma ChosenBy(s: seq<Key>, lo: Key, hi: Option<Key>, key: Key, ret: int, at: int, slot: int)
    requires KeysOk(s, lo, hi) && slot == if ret != 0 && at > 0 then at - 1 else at
    requires ret == 0 ==> 0 <= at < |s| && CompAt(s, key)(at) == 0
    requires ret != 0 ==> 0 <= at <= |s| && (forall i :: 0 <= i < at ==> CompAt(s, key)(i) < 0) && (forall i :: at <= i < |s| ==> CompAt(s, key)(i) > 0)
    ensures Chosen(s, key, slot) && (ret == 0 <==> s[slot] == key)
  {
    hide Less, CompKeys;
    if ret == 0 {
      assert CompKeys(s[at], key) == 0;
      KeysOrdered(s[at], key, key);
      if at + 1 < |s| {
        assert CompKeys(s[at], s[at + 1]) < 0;
        KeysOrdered(s[at], s[at + 1], key);
        KeysOrdered(s[at + 1], key, s[at + 1]);
        KeysOrdered(key, s[at + 1], key);
      }
    } else {
      assert at > 0 ==> CompAt(s, key)(at - 1) < 0;
      assert at < |s| ==> CompAt(s, key)(at) > 0;
      assert at == 0 && 1 < |s| ==> CompAt(s, key)(1) > 0;
      KeysOrdered(s[slot], key, key);
    }
  }

  /** `btrfs_path`, btrfs.h:184-190. */
  class Path {
    const offsets: array<int>
    const itemsnr: array<int>
    const slots: array<int>
    var item: Item

    /** A cleared path (btrfs.c:210-213). */
    constructor ()
      ensures Valid() && fresh(offsets) && fresh(itemsnr) && fresh(slots)
      ensures forall i :: 0 <= i < BTRFS_MAX_LEVEL ==> slots[i] == 0
    {
      offsets := new int[BTRFS_MAX_LEVEL](_ => 0);
      itemsnr := new int[BTRFS_MAX_LEVEL](_ => 0);
      slots := new int[BTRFS_MAX_LEVEL](_ => 0);
      item := Item(Key(0, 0, 0), 0);
    }

    predicate Valid() {
      && offsets.Length == BTRFS_MAX_LEVEL && itemsnr.Length == BTRFS_MAX_LEVEL && slots.Length == BTRFS_MAX_LEVEL
      && offsets != itemsnr && itemsnr != slots && offsets != slots
    }

    /** From the root down, the slots lead to the item. */
    ghost predicate LeadsTo(rd: Reader, addr: int, level: nat)
      requires Valid() && level < BTRFS_MAX_LEVEL
      reads this, offsets, itemsnr, slots
      decreases level
    {
      && offsets[level] == addr
      && (level == 0 ==> itemsnr[0] == |rd(addr).items| && 0 <= slots[0] < |rd(addr).items| && item == rd(addr).items[slots[0]])
      && (level > 0 ==>
            && itemsnr[level] == |rd(addr).ptrs| && 0 <= slots[level] < |rd(addr).ptrs|
            && LeadsTo(rd, rd(addr).ptrs[slots[level]].block, level - 1))
    }
  }

  /** `search_tree`, btrfs.c:248-289, on a cleared path: 0 if and only if the key is in the tree. */
  method SearchTree(rd: Reader, addr: int, key: Key, path: Path, ghost level: nat, ghost lo: Key, ghost hi: Option<Key>)
    returns (ret: int)
    requires level < BTRFS_MAX_LEVEL && WellFormed(rd, addr, level, lo, hi) && path.Valid()
    requires forall i :: 0 <= i <= level ==> path.slots[i] == 0
    modifies path, path.offsets, path.itemsnr, path.slots
    ensures path.LeadsTo(rd, addr, level)
    ensures Best(All(rd, addr, level), key, path.item)
    ensures (ret == 0 <==> path.item.key == key) && (ret == 0 || ret == 1)
    ensures ret == 0 <==> exists x :: x in All(rd, addr, level) && x.key == key
    ensures forall i :: level < i < BTRFS_MAX_LEVEL ==>
              path.slots[i] == old(path.slots[i]) && path.offsets[i] == old(path.offsets[i]) && path.itemsnr[i] == old(path.itemsnr[i])
    decreases level
  {
    hide Less, CompKeys, KeysOk, Best;
    var header := rd(addr);
    if header.level > 0 {
      path.itemsnr[header.level] := |header.ptrs|;
      path.offsets[header.level] := addr;
      var slot;
      ret, slot := SearchBlock(PtrKeys(header.ptrs), key, lo, hi);
      path.slots[header.level] := slot;
      Child(rd, addr, level, lo, hi, slot);
      ret := SearchTree(rd, header.ptrs[slot].block, key, path, level - 1, header.ptrs[slot].key, Upper(header.ptrs, slot, hi));
      InnerLands(rd, addr, level, lo, hi, key, slot, path.item);
    } else {
      path.itemsnr[header.level] := |header.items|;
      path.offsets[0] := addr;
      var slot;
      ret, slot := SearchBlock(ItemKeys(header.items), key, lo, hi);
      path.slots[0] := slot;
      path.item := header.items[slot];
      LeafLands(header.items, lo, hi, key, slot);
    }
    BestFinds(All(rd, addr, level), key, path.item);
  }
}
