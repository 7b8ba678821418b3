/**
 The ext4 extent tree (bmap.c:15-80): index nodes over leaves of extents.
 */
module ExtentTree {

  const EXT4_EXT_MAGIC: nat := 0xf30a

  datatype Ext = Ext(block: int, len: int, start: int) {
    predicate Covers(b: int) { block <= b < block + len }
  }

  datatype Idx = Idx(block: int, leaf: nat)

  datatype Header = Header(magic: int, depth: nat, idx: seq<Idx>, ext: seq<Ext>)

  import opened Options
  import opened LittleEndian
  import C = Cache

  type Nodes = int -> Header

  // ---------- headers as bytes (ext2_fs.h:233-261)

  /** The entries the header claims lie inside the block. */
  predicate EntriesFit(d: seq<int>) { 12 + 12 * U16(d, 2) <= |d| }

  function Parsed(d: seq<int>): Header {
    Header(U16(d, 0), U16(d, 6),
           seq(U16(d, 2), i requires 0 <= i => Idx(U32(d, 12 + 12 * i), U32(d, 16 + 12 * i) + 0x1_0000_0000 * U16(d, 20 + 12 * i))),
           seq(U16(d, 2), i requires 0 <= i =>
             Ext(U32(d, 12 + 12 * i), U16(d, 16 + 12 * i), U32(d, 20 + 12 * i) + 0x1_0000_0000 * U16(d, 18 + 12 * i))))
  }

  /** A node as it is written: fields in the order of the structs, entries of the kind the depth calls for, then anything. */
  datatype Written = Written(magic: nat, max: nat, depth: nat, generation: nat, idx: seq<Idx>, ext: seq<Ext>, unused: nat, tail: seq<int>)

  predicate InRange(w: Written) {
    && w.magic < 0x1_0000 && w.max < 0x1_0000 && w.depth < 0x1_0000 && w.generation < 0x1_0000_0000 && w.unused < 0x1_0000
    && |w.idx| < 0x1_0000 && |w.ext| < 0x1_0000
    && (forall i :: 0 <= i < |w.idx| ==> 0 <= w.idx[i].block < 0x1_0000_0000 && w.idx[i].leaf < 0x1_0000_0000_0000)
    && (forall i :: 0 <= i < |w.ext| ==>
          0 <= w.ext[i].block < 0x1_0000_0000 && 0 <= w.ext[i].len < 0x1_0000 && 0 <= w.ext[i].start < 0x1_0000_0000_0000)
  }

  function HeaderBytes(w: Written): (s: seq<int>)
    ensures |s| == 12
  {
    Le(w.magic, 2) + (Le(if w.depth == 0 then |w.ext| else |w.idx|, 2) + (Le(w.max, 2) + (Le(w.depth, 2) + Le(w.generation, 4))))
  }

  function ExtBytes(e: Ext): (s: seq<int>)
    requires e.block >= 0 && e.len >= 0 && e.start >= 0
    ensures |s| == 12
  {
    Le(e.block, 4) + (Le(e.len, 2) + (Le(e.start / 0x1_0000_0000, 2) + Le(e.start % 0x1_0000_0000, 4)))
  }

  function IdxBytes(e: Idx, unused: nat): (s: seq<int>)
    requires e.block >= 0
    ensures |s| == 12
  {
    Le(e.block, 4) + (Le(e.leaf % 0x1_0000_0000, 4) + (Le(e.leaf / 0x1_0000_0000, 2) + Le(unused, 2)))
  }

  function EntryBytes(w: Written, i: nat): (s: seq<int>)
    requires InRange(w) && i < (if w.depth == 0 then |w.ext| else |w.idx|)
    ensures |s| == 12
  {
    if w.depth == 0 then ExtBytes(w.ext[i]) else IdxBytes(w.idx[i], w.unused)
  }

  function EntriesFrom(w: Written, i: nat): (s: seq<int>)
    requires InRange(w) && i <= if w.depth == 0 then |w.ext| else |w.idx|
    decreases (if w.depth == 0 then |w.ext| else |w.idx|) - i
  {
    if i == (if w.depth == 0 then |w.ext| else |w.idx|) then w.tail else EntryBytes(w, i) + EntriesFrom(w, i + 1)
  }

  function NodeBytes(w: Written): seq<int>
    requires InRange(w)
  {
    HeaderBytes(w) + EntriesFrom(w, 0)
  }

  /** The header tells what was written, entries of the right kind included. */
  predicate Tells(h: Header, w: Written) {
    h.magic == w.magic && h.depth == w.depth && if w.depth == 0 then h.ext == w.ext else h.idx == w.idx
  }

  lemma {:induction false} EntryHeld(w: Written, d: seq<int>, k: nat, i: nat)
    requires InRange(w) && k <= i < (if w.depth == 0 then |w.ext| else |w.idx|)
    requires Holds(d, 12 + 12 * k, EntriesFrom(w, k))
    ensures Holds(d, 12 + 12 * i, EntryBytes(w, i))
    decreases i - k
  {
    hide EntryBytes, Holds, InRange;
    HoldsSplit(d, 12 + 12 * k, EntryBytes(w, k), EntriesFrom(w, k + 1));
    if k < i {
      EntryHeld(w, d, k + 1, i);
    }
  }

  lemma ExtRead(d: seq<int>, at: nat, e: Ext)
    requires 0 <= e.block < 0x1_0000_0000 && 0 <= e.len < 0x1_0000 && 0 <= e.start < 0x1_0000_0000_0000
    requires Holds(d, at, ExtBytes(e))
    ensures Ext(U32(d, at), U16(d, at + 4), U32(d, at + 8) + 0x1_0000_0000 * U16(d, at + 6)) == e
  {
    hide Le, U16, U32, Holds;
    var hi, lo := e.start / 0x1_0000_0000, e.start % 0x1_0000_0000;
    HoldsSplit(d, at, Le(e.block, 4), Le(e.len, 2) + (Le(hi, 2) + Le(lo, 4)));
    HoldsSplit(d, at + 4, Le(e.len, 2), Le(hi, 2) + Le(lo, 4));
    HoldsSplit(d, at + 6, Le(hi, 2), Le(lo, 4));
    ReadsU32(d, at, e.block);
    ReadsU16(d, at + 4, e.len);
    ReadsU16(d, at + 6, hi);
    ReadsU32(d, at + 8, lo);
  }

  lemma IdxRead(d: seq<int>, at: nat, e: Idx, unused: nat)
    requires 0 <= e.block < 0x1_0000_0000 && e.leaf < 0x1_0000_0000_0000
    requires Holds(d, at, IdxBytes(e, unused))
    ensures Idx(U32(d, at), U32(d, at + 4) + 0x1_0000_0000 * U16(d, at + 8)) == e
  {
    hide Le, U16, U32, Holds;
    var hi, lo := e.leaf / 0x1_0000_0000, e.leaf % 0x1_0000_0000;
    HoldsSplit(d, at, Le(e.block, 4), Le(lo, 4) + (Le(hi, 2) + Le(unused, 2)));
    HoldsSplit(d, at + 4, Le(lo, 4), Le(hi, 2) + Le(unused, 2));
    HoldsSplit(d, at + 8, Le(hi, 2), Le(unused, 2));
    ReadsU32(d, at, e.block);
    ReadsU32(d, at + 4, lo);
    ReadsU16(d, at + 8, hi);
  }

  lemma HeaderRead(d: seq<int>, w: Written)
    requires InRange(w) && Holds(d, 0, HeaderBytes(w))
    ensures U16(d, 0) == w.magic && U16(d, 6) == w.depth && U16(d, 2) == if w.depth == 0 then |w.ext| else |w.idx|
  {
    hide Le, U16, Holds;
    var n := if w.depth == 0 then |w.ext| else |w.idx|;
    var rest := Le(w.max, 2) + (Le(w.depth, 2) + Le(w.generation, 4));
    HoldsSplit(d, 0, Le(w.magic, 2), Le(n, 2) + rest);
    HoldsSplit(d, 2, Le(n, 2), rest);
    HoldsSplit(d, 4, Le(w.max, 2), Le(w.depth, 2) + Le(w.generation, 4));
    HoldsSplit(d, 6, Le(w.depth, 2), Le(w.generation, 4));
    ReadsU16(d, 0, w.magic);
    ReadsU16(d, 2, n);
    ReadsU16(d, 6, w.depth);
  }

  /** Whatever fields a node was written with are what the code takes from its bytes. */
  lemma WrittenRead(w: Written)
    requires InRange(w)
    ensures EntriesFit(NodeBytes(w)) && Tells(Parsed(NodeBytes(w)), w)
  {
    hide HeaderBytes, EntryBytes, U16, U32, Holds;
    var d := NodeBytes(w);
    NodeHeld(w);
    HeaderRead(d, w);
    forall i | 0 <= i < (if w.depth == 0 then |w.ext| else |w.idx|)
      ensures if w.depth == 0 then Parsed(d).ext[i] == w.ext[i] else Parsed(d).idx[i] == w.idx[i]
    {
      EntryHeld(w, d, 0, i);
      if w.depth == 0 {
        ExtEntry(w, d, i);
      } else {
        IdxEntry(w, d, i);
      }
    }
  }

  lemma ExtEntry(w: Written, d: seq<int>, i: nat)
    requires InRange(w) && w.depth == 0 && i < |w.ext| && Holds(d, 12 + 12 * i, EntryBytes(w, i))
    ensures Ext(U32(d, 12 + 12 * i), U16(d, 16 + 12 * i), U32(d, 20 + 12 * i) + 0x1_0000_0000 * U16(d, 18 + 12 * i)) == w.ext[i]
  {
    hide U16, U32, Holds, ExtBytes;
    ExtRead(d, 12 + 12 * i, w.ext[i]);
  }

  lemma IdxEntry(w: Written, d: seq<int>, i: nat)
    requires InRange(w) && w.depth > 0 && i < |w.idx| && Holds(d, 12 + 12 * i, EntryBytes(w, i))
    ensures Idx(U32(d, 12 + 12 * i), U32(d, 16 + 12 * i) + 0x1_0000_0000 * U16(d, 20 + 12 * i)) == w.idx[i]
  {
    hide U16, U32, Holds, IdxBytes;
    IdxRead(d, 12 + 12 * i, w.idx[i], w.unused);
  }

  lemma NodeHeld(w: Written)
    requires InRange(w)
    ensures var d := NodeBytes(w);
            && Holds(d, 0, HeaderBytes(w)) && Holds(d, 12, EntriesFrom(w, 0))
            && 12 + 12 * (if w.depth == 0 then |w.ext| else |w.idx|) <= |d|
  {
    EntriesLength(w, 0);
  }

  lemma {:induction false} EntriesLength(w: Written, i: nat)
    requires InRange(w) && i <= if w.depth == 0 then |w.ext| else |w.idx|
    ensures |EntriesFrom(w, i)| == 12 * ((if w.depth == 0 then |w.ext| else |w.idx|) - i) + |w.tail|
    decreases (if w.depth == 0 then |w.ext| else |w.idx|) - i
  {
    if i < if w.depth == 0 then |w.ext| else |w.idx| {
      EntriesLength(w, i + 1);
    }
  }

  /** The nodes are what the disk holds, as long as they claim no more entries than they have. */
  ghost predicate OnDisk(nodes: Nodes, dev: C.Device) {
    forall b: nat :: EntriesFit(dev.disk(b)) ==> nodes(b) == Parsed(dev.disk(b))
  }

  /** A node, through the cache. */
  method ReadHeader(nodes: Nodes, dev: C.Device, b: nat) returns (h: Header)
    requires dev.Ready() && OnDisk(nodes, dev)
    modifies dev.Repr()
    ensures dev.Ready() && h == nodes(b)
    ensures forall w :: InRange(w) && dev.disk(b) == NodeBytes(w) ==> Tells(h, w)
  {
    hide C.Device.Valid, Parsed, InRange, NodeBytes, Tells;
    var data := dev.GetCache(b);
    h := Parsed(data);
    if !EntriesFit(data) {
      h := nodes(b);
    }
    forall w | InRange(w) && dev.disk(b) == NodeBytes(w) ensures Tells(h, w) {
      WrittenRead(w);
    }
  }

  // ---------- sound trees

  /** The walk down from `h` ends, at a leaf or at a damaged header, after at most `d` steps. */
  ghost predicate Ends(nodes: Nodes, h: Header, d: nat)
    decreases d
  {
    h.magic == EXT4_EXT_MAGIC && h.depth > 0 ==>
      d > 0 && forall i :: 0 <= i < |h.idx| ==> Ends(nodes, nodes(h.idx[i].leaf), d - 1)
  }

  /** Blocks below this bound are the business of entry `i`. */
  function Upper(idx: seq<Idx>, i: nat, hi: int): int
    requires i < |idx|
  {
    if i + 1 < |idx| then idx[i + 1].block else hi
  }

  /** A sound tree of `d` index levels for the blocks from `lo` up to `hi`. */
  ghost predicate Sound(nodes: Nodes, h: Header, d: nat, lo: int, hi: int)
    decreases d, 0
  {
    && h.magic == EXT4_EXT_MAGIC && h.depth == d
    && if d == 0 then SoundLeaf(h.ext, lo, hi)
       else Rising(h.idx, lo, hi) && SoundChildren(nodes, h.idx, d - 1, hi)
  }

  ghost predicate SoundChildren(nodes: Nodes, idx: seq<Idx>, d: nat, hi: int)
    decreases d, 2
  {
    forall i: nat :: i < |idx| ==> SoundBelow(nodes, idx, i, d, hi)
  }

  ghost predicate SoundBelow(nodes: Nodes, idx: seq<Idx>, i: nat, d: nat, hi: int)
    requires i < |idx|
    decreases d, 1
  {
    Sound(nodes, nodes(idx[i].leaf), d, idx[i].block, Upper(idx, i, hi))
  }

  ghost predicate Rising(idx: seq<Idx>, lo: int, hi: int) {
    && (forall i :: 0 <= i < |idx| ==> lo <= idx[i].block < hi)
    && (forall i, j :: 0 <= i < j < |idx| ==> idx[i].block < idx[j].block)
  }

  ghost predicate SoundLeaf(ext: seq<Ext>, lo: int, hi: int) {
    && (forall i :: 0 <= i < |ext| ==> ext[i].len > 0 && ext[i].start > 0)
    && (forall i :: 0 <= i < |ext| ==> lo <= ext[i].block && ext[i].block + ext[i].len <= hi)
    && (forall i, j :: 0 <= i < j < |ext| ==> ext[i].block + ext[i].len <= ext[j].block)
  }

  // ---------- reference: all extents of the tree, left to right

  function All(nodes: Nodes, h: Header, d: nat): seq<Ext>
    decreases d, 0
  {
    if d == 0 then h.ext else AllOf(nodes, h.idx, d - 1)
  }

  function AllOf(nodes: Nodes, idx: seq<Idx>, d: nat): seq<Ext>
    decreases d, 1 + |idx|
  {
    if idx == [] then [] else All(nodes, nodes(idx[0].leaf), d) + AllOf(nodes, idx[1..], d)
  }

  lemma {:induction false} AllOfMember(nodes: Nodes, idx: seq<Idx>, d: nat, e: Ext)
    ensures e in AllOf(nodes, idx, d) <==>
            exists i :: 0 <= i < |idx| && e in All(nodes, nodes(idx[i].leaf), d)
    decreases |idx|
  {
    if idx != [] {
      AllOfMember(nodes, idx[1..], d, e);
      if e in AllOf(nodes, idx[1..], d) {
        var i :| 0 <= i < |idx[1..]| && e in All(nodes, nodes(idx[1..][i].leaf), d);
        assert idx[1..][i] == idx[i + 1];
      }
      if i :| 0 <= i < |idx| && e in All(nodes, nodes(idx[i].leaf), d) && i > 0 {
        assert idx[1..][i - 1] == idx[i];
      }
    }
  }

  lemma AllMember(nodes: Nodes, h: Header, d: nat, e: Ext)
    requires d > 0
    ensures e in All(nodes, h, d) <==>
            exists i :: 0 <= i < |h.idx| && e in All(nodes, nodes(h.idx[i].leaf), d - 1)
  {
    AllOfMember(nodes, h.idx, d - 1, e);
  }

  // ---------- the descent

  /** The last position whose key is not above `block`, found from the left; -1 if there is none. */
  function LastUpTo(keys: seq<int>, block: int, i: nat): (r: int)
    requires i <= |keys|
    ensures i - 1 <= r < |keys|
    ensures forall k :: i <= k <= r ==> keys[k] <= block
    ensures r + 1 < |keys| ==> block < keys[r + 1]
    decreases |keys| - i
  {
    if i < |keys| && block >= keys[i] then LastUpTo(keys, block, i + 1) else i - 1
  }

  function IdxKeys(idx: seq<Idx>): (s: seq<int>)
    ensures |s| == |idx| && forall i :: 0 <= i < |s| ==> s[i] == idx[i].block
  {
    seq(|idx|, i requires 0 <= i < |idx| => idx[i].block)
  }

  function ExtKeys(ext: seq<Ext>): (s: seq<int>)
    ensures |s| == |ext| && forall i :: 0 <= i < |s| ==> s[i] == ext[i].block
  {
    seq(|ext|, i requires 0 <= i < |ext| => ext[i].block)
  }

  ghost function Leaf(nodes: Nodes, h: Header, d: nat, block: int): Option<Header>
    requires Ends(nodes, h, d)
    decreases d
  {
    if h.magic != EXT4_EXT_MAGIC then None
    else if h.depth == 0 then Some(h)
    else
      var i := LastUpTo(IdxKeys(h.idx), block, 0);
      if i < 0 then None else Leaf(nodes, nodes(h.idx[i].leaf), d - 1, block)
  }

  /** The extent in which `block` lies. */
  ghost function Find(nodes: Nodes, h: Header, d: nat, block: int): Option<Ext>
    requires Ends(nodes, h, d)
  {
    match Leaf(nodes, h, d, block)
    case None => None
    case Some(leaf) =>
      var i := LastUpTo(ExtKeys(leaf.ext), block, 0);
      if i < 0 || !leaf.ext[i].Covers(block) then None else Some(leaf.ext[i])
  }

  lemma {:induction false} SoundEnds(nodes: Nodes, h: Header, d: nat, lo: int, hi: int)
    requires Sound(nodes, h, d, lo, hi)
    ensures Ends(nodes, h, d)
    decreases d
  {
    if d > 0 {
      forall i | 0 <= i < |h.idx| ensures Ends(nodes, nodes(h.idx[i].leaf), d - 1) {
        assert SoundBelow(nodes, h.idx, i, d - 1, hi);
        SoundEnds(nodes, nodes(h.idx[i].leaf), d - 1, h.idx[i].block, Upper(h.idx, i, hi));
      }
    }
  }

  lemma SoundChild(nodes: Nodes, h: Header, d: nat, lo: int, hi: int, i: nat)
    requires Sound(nodes, h, d, lo, hi) && d > 0 && i < |h.idx|
    ensures Rising(h.idx, lo, hi) && lo <= h.idx[i].block && Upper(h.idx, i, hi) <= hi
    ensures Sound(nodes, nodes(h.idx[i].leaf), d - 1, h.idx[i].block, Upper(h.idx, i, hi))
  {
    assert SoundBelow(nodes, h.idx, i, d - 1, hi);
  }

  /** Every extent of a sound tree lies inside its bounds. */
  lemma {:induction false} Bounds(nodes: Nodes, h: Header, d: nat, lo: int, hi: int, e: Ext)
    requires Sound(nodes, h, d, lo, hi) && e in All(nodes, h, d)
    ensures e.len > 0 && e.start > 0 && lo <= e.block && e.block + e.len <= hi
    decreases d
  {
    if d > 0 {
      AllMember(nodes, h, d, e);
      var i :| 0 <= i < |h.idx| && e in All(nodes, nodes(h.idx[i].leaf), d - 1);
      SoundChild(nodes, h, d, lo, hi, i);
      Bounds(nodes, nodes(h.idx[i].leaf), d - 1, h.idx[i].block, Upper(h.idx, i, hi), e);
    }
  }

  /** The only entry that can lead to a covering extent is the last one not above the block. */
  lemma OnlyEntry(idx: seq<Idx>, lo: int, hi: int, k: nat, block: int)
    requires Rising(idx, lo, hi) && k < |idx| && idx[k].block <= block < Upper(idx, k, hi)
    ensures LastUpTo(IdxKeys(idx), block, 0) == k
  {
    var i := LastUpTo(IdxKeys(idx), block, 0);
    assert i >= 0 ==> idx[i].block <= block;
    assert i + 1 < |idx| ==> block < idx[i + 1].block;
  }

  /** Only the child the descent takes can hold a covering extent. */
  lemma InThatChild(nodes: Nodes, h: Header, d: nat, lo: int, hi: int, block: int, e: Ext)
    requires Sound(nodes, h, d, lo, hi) && d > 0
    ensures var i := LastUpTo(IdxKeys(h.idx), block, 0);
            e in All(nodes, h, d) && e.Covers(block) <==>
              i >= 0 && e in All(nodes, nodes(h.idx[i].leaf), d - 1) && e.Covers(block)
  {
    hide All, AllOf, Sound, Rising, SoundChildren, SoundBelow;
    AllMember(nodes, h, d, e);
    if e in All(nodes, h, d) && e.Covers(block) {
      var k :| 0 <= k < |h.idx| && e in All(nodes, nodes(h.idx[k].leaf), d - 1);
      SoundChild(nodes, h, d, lo, hi, k);
      Bounds(nodes, nodes(h.idx[k].leaf), d - 1, h.idx[k].block, Upper(h.idx, k, hi), e);
      OnlyEntry(h.idx, lo, hi, k, block);
    }
  }

  lemma LeafCorrect(ext: seq<Ext>, lo: int, hi: int, block: int, e: Ext)
    requires SoundLeaf(ext, lo, hi)
    ensures var i := LastUpTo(ExtKeys(ext), block, 0);
            e in ext && e.Covers(block) <==> i >= 0 && ext[i] == e && e.Covers(block)
  {
    var i := LastUpTo(ExtKeys(ext), block, 0);
    if e in ext && e.Covers(block) {
      var k :| 0 <= k < |ext| && ext[k] == e;
      assert i >= 0 ==> ext[i].block <= block;
      assert i + 1 < |ext| ==> block < ext[i + 1].block;
    }
  }

  lemma FindInLeaf(nodes: Nodes, h: Header, lo: int, hi: int, block: int, e: Ext)
    requires Sound(nodes, h, 0, lo, hi) && Ends(nodes, h, 0)
    ensures e in All(nodes, h, 0) && e.Covers(block) <==> Find(nodes, h, 0, block) == Some(e)
  {
    LeafCorrect(h.ext, lo, hi, block, e);
  }

  lemma FindBelow(nodes: Nodes, h: Header, d: nat, lo: int, hi: int, block: int)
    requires Sound(nodes, h, d, lo, hi) && d > 0 && Ends(nodes, h, d)
    ensures var i := LastUpTo(IdxKeys(h.idx), block, 0);
            if i < 0 then Find(nodes, h, d, block) == None
            else
              && Ends(nodes, nodes(h.idx[i].leaf), d - 1)
              && Find(nodes, h, d, block) == Find(nodes, nodes(h.idx[i].leaf), d - 1, block)
  {
  }

  /** The lookup finds exactly the extent of the flattened tree that covers the block. */
  lemma {:induction false} FindCorrect(nodes: Nodes, h: Header, d: nat, lo: int, hi: int, block: int, e: Ext)
    requires Sound(nodes, h, d, lo, hi) && Ends(nodes, h, d)
    ensures e in All(nodes, h, d) && e.Covers(block) <==> Find(nodes, h, d, block) == Some(e)
    decreases d
  {
    hide Sound, Ends, All, Find, Leaf, Ext.Covers;
    if d == 0 {
      FindInLeaf(nodes, h, lo, hi, block, e);
    } else {
      InThatChild(nodes, h, d, lo, hi, block, e);
      FindBelow(nodes, h, d, lo, hi, block);
      var i := LastUpTo(IdxKeys(h.idx), block, 0);
      if i >= 0 {
        SoundChild(nodes, h, d, lo, hi, i);
        FindCorrect(nodes, nodes(h.idx[i].leaf), d - 1, h.idx[i].block, Upper(h.idx, i, hi), block, e);
      }
    }
  }

  // ---------- the code

  /** The scan of lines 30-34 and 61-65: step over the keys not above `block`, then one back. */
  method ScanKeys(keys: seq<int>, block: int) returns (i: int)
    ensures i == LastUpTo(keys, block, 0)
  {
    i := 0;
    while i < |keys|
      invariant 0 <= i <= |keys| && LastUpTo(keys, block, 0) == LastUpTo(keys, block, i)
    {
      if block < keys[i] {
        break;
      }
      i := i + 1;
    }
    i := i - 1;
  }

  /** `ext4_find_leaf`, bmap.c:15-41. */
  method Ext4FindLeaf(nodes: Nodes, dev: C.Device, root: Header, block: int, ghost d0: nat) returns (leaf: Option<Header>)
    requires dev.Ready() && OnDisk(nodes, dev) && Ends(nodes, root, d0)
    modifies dev.Repr()
    ensures dev.Ready()
    ensures leaf == Leaf(nodes, root, d0, block)
  {
    hide C.Device.Ready, OnDisk;
    var eh := root;
    ghost var d := d0;
    while true
      invariant dev.Ready()
      invariant Ends(nodes, eh, d) && Leaf(nodes, eh, d, block) == Leaf(nodes, root, d0, block)
      decreases d
    {
      if eh.magic != EXT4_EXT_MAGIC {
        return None;
      }
      if eh.depth == 0 {
        return Some(eh);
      }
      var i := ScanKeys(IdxKeys(eh.idx), block);
      if i < 0 {
        return None;
      }
      eh := ReadHeader(nodes, dev, eh.idx[i].leaf);
      d := d - 1;
    }
  }

  /** The extents of a leaf are in order and apart, as the file system keeps them. */
  predicate LeafInOrder(ext: seq<Ext>) {
    && (forall i :: 0 <= i < |ext| ==> ext[i].len > 0 && ext[i].start > 0)
    && (forall i, j :: 0 <= i < j < |ext| ==> ext[i].block + ext[i].len <= ext[j].block)
  }

  /** In a leaf as written every block is found in the extent that covers it. */
  lemma WrittenLeaf(nodes: Nodes, w: Written, h: Header, i: nat, block: int)
    requires InRange(w) && w.magic == EXT4_EXT_MAGIC && w.depth == 0 && Tells(h, w)
    requires LeafInOrder(w.ext) && i < |w.ext| && w.ext[i].Covers(block)
    ensures Ends(nodes, h, 0) && Find(nodes, h, 0, block) == Some(w.ext[i])
  {
    var keys := ExtKeys(h.ext);
    var k := LastUpTo(keys, block, 0);
    assert keys[i] <= block;
    assert k + 1 < |keys| ==> block < keys[k + 1];
  }

  /**
     `bmap_extent` for an inode whose extents were written into it, or one level down into
     block `at` of the disk.
   */
  method BmapWritten(nodes: Nodes, dev: C.Device, w: Written, at: nat, i: nat, block: int)
    returns (direct: int, left: int, below: int, leftBelow: int)
    requires dev.Ready() && OnDisk(nodes, dev) && InRange(w) && w.magic == EXT4_EXT_MAGIC && w.depth == 0
    requires LeafInOrder(w.ext) && i < |w.ext| && w.ext[i].Covers(block)
    requires at < 0x1_0000_0000_0000 && dev.disk(at) == NodeBytes(w)
    modifies dev.Repr()
    ensures dev.Ready() && direct == below == w.ext[i].start + (block - w.ext[i].block)
    ensures left == leftBelow == w.ext[i].block + w.ext[i].len - block
  {
    hide C.Device.Ready, OnDisk, NodeBytes, Parsed, InRange;
    var inode := Parsed(NodeBytes(w));
    WrittenRead(w);
    WrittenLeaf(nodes, w, inode, i, block);
    direct, left := BmapExtent(nodes, dev, inode, block, 0, 0);
    var root := OneBelow(at);
    BelowFound(nodes, dev, w, at, i, block);
    below, leftBelow := BmapExtent(nodes, dev, root, block, 0, 1);
  }

  /** An inode with one index entry, written as such. */
  function OneBelow(at: nat): Header
    requires at < 0x1_0000_0000_0000
  {
    Parsed(NodeBytes(Written(EXT4_EXT_MAGIC, 4, 1, 0, [Idx(0, at)], [], 0, [])))
  }

  lemma BelowFound(nodes: Nodes, dev: C.Device, w: Written, at: nat, i: nat, block: int)
    requires OnDisk(nodes, dev) && InRange(w) && w.magic == EXT4_EXT_MAGIC && w.depth == 0
    requires LeafInOrder(w.ext) && i < |w.ext| && w.ext[i].Covers(block)
    requires at < 0x1_0000_0000_0000 && dev.disk(at) == NodeBytes(w)
    ensures Ends(nodes, OneBelow(at), 1) && Find(nodes, OneBelow(at), 1, block) == Some(w.ext[i])
  {
    hide NodeBytes, Parsed;
    var inner := Written(EXT4_EXT_MAGIC, 4, 1, 0, [Idx(0, at)], [], 0, []);
    WrittenRead(inner);
    WrittenRead(w);
    assert nodes(at) == Parsed(NodeBytes(w));
    WrittenLeaf(nodes, w, nodes(at), i, block);
    var root := OneBelow(at);
    assert root.idx == [Idx(0, at)] && root.magic == EXT4_EXT_MAGIC && root.depth == 1;
    assert IdxKeys(root.idx) == [0];
    assert LastUpTo(IdxKeys(root.idx), block, 1) == 0;
  }

  /**
   `bmap_extent`, bmap.c:45-80: the physical block of `block` and how many blocks follow on
   from it in the same extent, or 0 and an untouched count.
   */
  method BmapExtent(nodes: Nodes, dev: C.Device, root: Header, block: int, nblocks0: int, ghost d: nat)
    returns (blk: int, nblocks: int)
    requires dev.Ready() && OnDisk(nodes, dev) && Ends(nodes, root, d)
    modifies dev.Repr()
    ensures dev.Ready()
    ensures match Find(nodes, root, d, block)
            case None => blk == 0 && nblocks == nblocks0
            case Some(e) => blk == e.start + (block - e.block) && nblocks == e.block + e.len - block
  {
    nblocks := nblocks0;
    var leaf := Ext4FindLeaf(nodes, dev, root, block, d);
    if leaf == None {
      return 0, nblocks;
    }
    var ext := leaf.value.ext;
    var i := ScanKeys(ExtKeys(ext), block);
    if i < 0 {
      return 0, nblocks;
    }
    var rel := block - ext[i].block;
    if rel >= ext[i].len {
      return 0, nblocks;
    }
    nblocks := ext[i].len - rel;
    blk := ext[i].start + rel;
  }
}
