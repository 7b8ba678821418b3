/**
 The block map of ext2/3/4 files and the extents made from it (bmap.c:139-228).
 */
module Ext2 {
  import opened BlockTree
  import opened Options
  import opened FileData
  import opened Shift
  import X = ExtentTree
  import C = Cache

  const DIRECT: int := 12

  /** A file mapped by 12 direct blocks and three trees, or by an extent tree for `blocks` blocks. */
  datatype Ext2File =
    | Indirect(st: Store, iblock: seq<int>)
    | ByExtents(nodes: X.Nodes, root: X.Header, blocks: nat)

  ghost predicate GoodFile(f: Ext2File): (good: bool)
    ensures good && f.ByExtents? ==> X.Ends(f.nodes, f.root, f.root.depth)
  {
    match f
    case Indirect(st, iblock) =>
      GoodStore(st) && |iblock| == 15 && forall i :: 0 <= i < 15 ==> GoodNumber(iblock[i])
    case ByExtents(nodes, root, blocks) =>
      && X.Sound(nodes, root, root.depth, 0, blocks)
      && (X.SoundEnds(nodes, root, root.depth, 0, blocks);
          forall e :: e in X.All(nodes, root, root.depth) ==> e.start + e.len <= MAX_BLOCK)
  }

  /** Tables and nodes are what the disk holds. */
  ghost predicate FileOnDisk(f: Ext2File, dev: C.Device) {
    match f
    case Indirect(st, _) => OnDisk(st, dev)
    case ByExtents(nodes, _, _) => X.OnDisk(nodes, dev)
  }

  // 48-bit block numbers.
  const MAX_BLOCK: int := 0x1_0000_0000_0000

  // ---------- the indirect map

  /** The first block of the tree with `k` levels; `k == 4` gives the end of the last one. */
  function Base(st: Store, k: nat): (b: nat)
    requires st.n > 0
    ensures k > 0 ==> b >= DIRECT
  {
    if k == 0 then 0 else if k == 1 then DIRECT else Base(st, k - 1) + Size(st, k - 1)
  }

  function TreeOf(st: Store, b: nat): (k: nat)
    requires st.n > 0 && DIRECT <= b < Base(st, 4)
    ensures 1 <= k <= 3 && Base(st, k) <= b < Base(st, k + 1) && b - Base(st, k) < Size(st, k)
  {
    assert Base(st, 4) == Base(st, 3) + Size(st, 3);
    assert Base(st, 3) == Base(st, 2) + Size(st, 2);
    assert Base(st, 2) == Base(st, 1) + Size(st, 1);
    if b < Base(st, 2) then 1 else if b < Base(st, 3) then 2 else 3
  }

  ghost predicate GoodIndirect(st: Store, ib: seq<int>) {
    GoodFile(Indirect(st, ib))
  }

  function LookFile(st: Store, ib: seq<int>, b: nat): int
    requires GoodIndirect(st, ib) && b < Base(st, 4)
  {
    if b < DIRECT then ib[b]
    else
      var k := TreeOf(st, b);
      Look(st, ib[DIRECT - 1 + k], k, b - Base(st, k))
  }

  function ReportedFile(st: Store, ib: seq<int>, b: nat): (r: nat)
    requires GoodIndirect(st, ib) && b < Base(st, 4)
    ensures r > 0
  {
    if b < DIRECT then RunFrom(ib[..DIRECT], b, 1)
    else
      var k := TreeOf(st, b);
      Reported(st, ib[DIRECT - 1 + k], k, b - Base(st, k))
  }

  /** Block `b` is not in the middle of a missing subtree. */
  predicate EntryFile(st: Store, ib: seq<int>, b: nat)
    requires GoodIndirect(st, ib) && b < Base(st, 4)
  {
    b < DIRECT ||
    var k := TreeOf(st, b);
    AtEntry(st, ib[DIRECT - 1 + k], k, b - Base(st, k))
  }

  /** The whole file flattened: the direct blocks, then the three trees. */
  function FlatFile(st: Store, ib: seq<int>): seq<int>
    requires st.n > 0 && |ib| == 15
  {
    ib[..DIRECT] + Flatten(st, ib[12], 1) + Flatten(st, ib[13], 2) + Flatten(st, ib[14], 3)
  }

  lemma LookFileFlattened(st: Store, ib: seq<int>, b: nat)
    requires GoodIndirect(st, ib) && b < Base(st, 4)
    ensures |FlatFile(st, ib)| == Base(st, 4) && FlatFile(st, ib)[b] == LookFile(st, ib, b)
  {
    BaseSums(st);
    hide Flatten, Size, Base, TreeOf, Look;
    LookFlattened(st, ib[12], 1, 0);
    LookFlattened(st, ib[13], 2, 0);
    LookFlattened(st, ib[14], 3, 0);
    if b >= DIRECT {
      var k := TreeOf(st, b);
      LookFlattened(st, ib[DIRECT - 1 + k], k, b - Base(st, k));
    }
  }

  lemma BaseSums(st: Store)
    requires st.n > 0
    ensures Base(st, 1) == DIRECT && Base(st, 2) == DIRECT + Size(st, 1)
    ensures Base(st, 3) == Base(st, 2) + Size(st, 2) && Base(st, 4) == Base(st, 3) + Size(st, 3)
  {
  }

  lemma TreeIs(st: Store, k: nat, b: nat)
    requires st.n > 0 && 1 <= k <= 3 && Base(st, k) <= b < Base(st, k + 1)
    ensures DIRECT <= b < Base(st, 4) && TreeOf(st, b) == k
  {
    BaseSums(st);
  }

  lemma RunDirect(st: Store, ib: seq<int>, b: nat)
    requires GoodIndirect(st, ib) && b < DIRECT
    ensures b < Base(st, 4) && RunSoundFile(st, ib, b, ReportedFile(st, ib, b))
  {
    BaseSums(st);
    RunFromRuns(ib[..DIRECT], b, 1);
    var r := ReportedFile(st, ib, b);
    if b + r == DIRECT {
      TreeIs(st, 1, DIRECT);
      EntryZero(st, ib[12], 1);
    }
  }

  lemma InTree(st: Store, ib: seq<int>, k: nat, b: nat)
    requires GoodIndirect(st, ib) && 1 <= k <= 3 && Base(st, k) <= b < Base(st, k + 1)
    ensures b < Base(st, 4) && Base(st, k) + Size(st, k) == Base(st, k + 1)
    ensures LookFile(st, ib, b) == Look(st, ib[DIRECT - 1 + k], k, b - Base(st, k))
    ensures ReportedFile(st, ib, b) == Reported(st, ib[DIRECT - 1 + k], k, b - Base(st, k))
    ensures EntryFile(st, ib, b) == AtEntry(st, ib[DIRECT - 1 + k], k, b - Base(st, k))
  {
    TreeIs(st, k, b);
  }

  lemma RunTree(st: Store, ib: seq<int>, k: nat, b: nat)
    requires GoodIndirect(st, ib) && 1 <= k <= 3 && Base(st, k) <= b < Base(st, k + 1)
    requires b < Base(st, 4) && EntryFile(st, ib, b)
    ensures RunSoundFile(st, ib, b, ReportedFile(st, ib, b))
  {
    hide LookFile, ReportedFile, EntryFile, Look, Reported, AtEntry, Size, Base, TreeOf;
    BaseSums(st);
    InTree(st, ib, k, b);
    var r := ReportedFile(st, ib, b);
    var root, off := ib[DIRECT - 1 + k], b - Base(st, k);
    ReportedSound(st, root, k, off);
    forall j | 0 <= j < r
      ensures b + j < Base(st, 4) && LookFile(st, ib, b + j) == Continued(LookFile(st, ib, b), j)
    {
      InTree(st, ib, k, b + j);
    }
    if off + r < Size(st, k) {
      EntryNext(st, root, k, off);
      InTree(st, ib, k, b + r);
    } else if k < 3 {
      InTree(st, ib, k + 1, b + r);
      EntryZero(st, ib[DIRECT + k], k + 1);
    }
  }

  /** `r` blocks from `b` on form a run that ends at the end of the map or at an entry. */
  ghost predicate RunSoundFile(st: Store, ib: seq<int>, b: nat, r: nat)
    requires GoodIndirect(st, ib) && b < Base(st, 4)
  {
    && b + r <= Base(st, 4)
    && (b < Base(st, 3) ==> b + r <= Base(st, 3))
    && (b + r < Base(st, 4) ==> EntryFile(st, ib, b + r))
    && forall j :: 0 <= j < r ==> LookFile(st, ib, b + j) == Continued(LookFile(st, ib, b), j)
  }

  /** Asked at an entry, the reported count is such a run, and does not leave the tree it starts in. */
  lemma RunFile(st: Store, ib: seq<int>, b: nat)
    requires GoodIndirect(st, ib) && b < Base(st, 4) && EntryFile(st, ib, b)
    ensures RunSoundFile(st, ib, b, ReportedFile(st, ib, b))
  {
    if b < DIRECT {
      RunDirect(st, ib, b);
    } else {
      RunTree(st, ib, TreeOf(st, b), b);
    }
  }

  /** `bmap_traditional`, bmap.c:143-179. */
  method BmapTraditional(st: Store, dev: C.Device, ib: seq<int>, block0: nat, nblocks0: nat) returns (blk: int, nblocks: nat)
    requires dev.Ready() && OnDisk(st, dev) && GoodIndirect(st, ib)
    modifies dev.Repr()
    ensures dev.Ready()
    ensures block0 < Base(st, 4) ==> blk == LookFile(st, ib, block0) && nblocks == ReportedFile(st, ib, block0)
    ensures block0 >= Base(st, 4) ==> blk == 0 && nblocks == nblocks0
  {
    hide Look, Reported, LookFile, ReportedFile, Size, Base, GoodIndirect, OnDisk, C.Device.Valid, RunFrom;
    TreeSizes(st, ib);
    var addrPerBlock := st.n;
    var doubleBlocks := addrPerBlock * st.n;
    var tripleBlocks := doubleBlocks * st.n;
    var block := block0;
    if block < DIRECT {
      DirectCase(st, ib, block);
      blk, nblocks := ScanSetNblocks(ib[..DIRECT], block);
      return;
    }
    block := block - DIRECT;
    if block < addrPerBlock {
      InTree(st, ib, 1, block0);
      blk, nblocks := BmapIndirect(st, dev, ib[12], block, 1);
      return;
    }
    block := block - addrPerBlock;
    if block < doubleBlocks {
      InTree(st, ib, 2, block0);
      blk, nblocks := BmapIndirect(st, dev, ib[13], block, 2);
      return;
    }
    block := block - doubleBlocks;
    if block < tripleBlocks {
      InTree(st, ib, 3, block0);
      blk, nblocks := BmapIndirect(st, dev, ib[14], block, 3);
      return;
    }
    return 0, nblocks0;
  }

  lemma DirectCase(st: Store, ib: seq<int>, b: nat)
    requires GoodIndirect(st, ib) && b < DIRECT
    ensures b < Base(st, 4) && LookFile(st, ib, b) == ib[b] && ReportedFile(st, ib, b) == RunFrom(ib[..DIRECT], b, 1)
  {
  }

  /** What the code calls indirect, double and triple blocks are the sizes of the three trees. */
  lemma TreeSizes(st: Store, ib: seq<int>)
    requires GoodIndirect(st, ib)
    ensures st.n > 0 && |ib| == 15 && GoodStore(st) && forall i :: 0 <= i < 15 ==> GoodNumber(ib[i])
    ensures Size(st, 1) == st.n && Size(st, 2) == st.n * st.n && Size(st, 3) == st.n * st.n * st.n
    ensures Base(st, 1) == DIRECT && Base(st, 2) == DIRECT + Size(st, 1) && Base(st, 3) == Base(st, 2) + Size(st, 2)
    ensures Base(st, 4) == Base(st, 3) + Size(st, 3)
  {
    SizeSmall(st);
  }

  lemma SizeSmall(st: Store)
    requires st.n > 0
    ensures Size(st, 1) == st.n && Size(st, 2) == st.n * st.n && Size(st, 3) == st.n * st.n * st.n
  {
    assert Size(st, 1) == st.n * Size(st, 0);
    assert Size(st, 2) == st.n * Size(st, 1);
    assert Size(st, 3) == st.n * Size(st, 2) == st.n * (st.n * st.n);
  }

  // ---------- the file's sectors

  /** The physical block of block `b`, zero for a hole. */
  ghost function BlockAt(f: Ext2File, b: nat): int
    requires GoodFile(f)
  {
    match f
    case Indirect(st, ib) => if b < Base(st, 4) then LookFile(st, ib, b) else 0
    case ByExtents(nodes, root, _) =>
      match X.Find(nodes, root, root.depth, b)
      case None => 0
      case Some(e) => e.start + (b - e.block)
  }

  /** How many blocks of the map 32-bit sector numbers can reach; always a whole number of trees. */
  ghost function Limit(f: Ext2File, spb: nat): nat
    requires GoodFile(f)
  {
    match f
    case Indirect(st, _) => if Base(st, 4) * spb < WORD then Base(st, 4) else Base(st, 3)
    case ByExtents(_, _, blocks) => blocks
  }

  ghost predicate Geometry(f: Ext2File, spb: nat) {
    GoodFile(f) && 0 < spb <= 128 && Limit(f, spb) * spb < WORD
  }

  function PlaceIn(blk: int, spb: nat, off: nat): Place {
    if blk == 0 then Zero else At(blk * spb + off)
  }

  ghost function SectorAt(f: Ext2File, spb: nat, i: nat): Place
    requires GoodFile(f) && spb > 0
  {
    DivNonneg(i, spb);
    PlaceIn(BlockAt(f, i / spb), spb, i % spb)
  }

  ghost function Ext2Map(f: Ext2File, spb: nat): (m: seq<Place>)
    requires Geometry(f, spb)
    ensures |m| == Limit(f, spb) * spb
  {
    seq(Limit(f, spb) * spb, i requires 0 <= i => SectorAt(f, spb, i))
  }

  /** The reported count may be trusted at block `b`. */
  ghost predicate EntryAt(f: Ext2File, spb: nat, b: nat)
    requires GoodFile(f)
  {
    b < Limit(f, spb) &&
    match f
    case Indirect(st, ib) => b < Base(st, 4) && EntryFile(st, ib, b)
    case ByExtents(_, _, _) => BlockAt(f, b) != 0
  }

  /** A question the reader may ask: the count may be trusted, or it is the first sector of a hole between extents. */
  ghost predicate Askable(f: Ext2File, spb: nat, lstart: nat)
    requires GoodFile(f) && spb > 0
  {
    DivNonneg(lstart, spb);
    EntryAt(f, spb, lstart / spb) || (f.ByExtents? && lstart % spb == 0 && lstart / spb < Limit(f, spb))
  }

  ghost function FirstZero(g: nat -> int, b: nat, n: nat): (h: nat)
    requires b <= n
    ensures b <= h <= n && (h < n ==> g(h) == 0) && forall c: nat :: b <= c < h ==> g(c) != 0
    decreases n - b
  {
    if b == n || g(b) == 0 then b else FirstZero(g, b + 1, n)
  }

  /** The first block that no extent covers, or the end of the file. */
  ghost function FirstHole(f: Ext2File): (h: nat)
    requires GoodFile(f) && f.ByExtents?
  {
    FirstZero((b: nat) => BlockAt(f, b), 0, f.blocks)
  }

  lemma FirstHoleIs(f: Ext2File)
    requires GoodFile(f) && f.ByExtents?
    ensures FirstHole(f) <= f.blocks && (FirstHole(f) < f.blocks ==> BlockAt(f, FirstHole(f)) == 0)
    ensures forall b: nat :: b < FirstHole(f) ==> BlockAt(f, b) != 0
  {
    hide BlockAt, GoodFile;
    var g := (b: nat) => BlockAt(f, b);
    var h := FirstZero(g, 0, f.blocks);
    forall b: nat | b < h ensures BlockAt(f, b) != 0 {
      assert g(b) != 0;
    }
  }

  /** How many sectors of the file can be read: the code finds no way past a hole between extents. */
  ghost function Reach(f: Ext2File, spb: nat): int
    requires GoodFile(f)
  {
    match f
    case Indirect(_, _) => Limit(f, spb) * spb
    case ByExtents(_, _, _) => FirstHole(f) * spb
  }

  lemma ReachBounds(f: Ext2File, spb: nat)
    requires Geometry(f, spb)
    ensures 0 <= Reach(f, spb) <= Limit(f, spb) * spb
  {
    hide BlockAt, GoodFile;
    if f.ByExtents? {
      FirstHoleIs(f);
      MulMono(0, FirstHole(f), spb);
      MulMono(FirstHole(f), f.blocks, spb);
    } else {
      MulMono(0, Limit(f, spb), spb);
    }
  }

  /** A file can be read up to sector `n` exactly when no extent is missing below. */
  lemma ReachesExact(f: Ext2File, spb: nat, n: nat)
    requires Geometry(f, spb) && n <= Limit(f, spb) * spb
    ensures Reach(f, spb) >= n <==> f.Indirect? || forall b: nat :: b * spb < n ==> BlockAt(f, b) != 0
  {
    hide BlockAt, GoodFile;
    if f.ByExtents? {
      var h := FirstHole(f);
      FirstHoleIs(f);
      forall b: nat | b * spb < n <= Reach(f, spb) ensures BlockAt(f, b) != 0 {
        if b >= h { MulMono(h, b, spb); }
      }
    }
  }

  /** `r` blocks from `b` on are consecutive on the disk, or are all holes. */
  ghost predicate BlockRun(f: Ext2File, spb: nat, b: nat, r: nat)
    requires GoodFile(f)
  {
    && 0 < r && b + r <= Limit(f, spb)
    && 0 <= BlockAt(f, b) <= MAX_BLOCK
    && forall j: nat :: j < r ==> BlockAt(f, b + j) == Continued(BlockAt(f, b), j)
  }

  lemma SectorInRun(f: Ext2File, spb: nat, b: nat, r: nat, k: nat, sector: nat)
    requires Geometry(f, spb) && BlockRun(f, spb, b, r) && k < r * spb && sector == b * spb + k
    ensures SectorAt(f, spb, sector) == if BlockAt(f, b) == 0 then Zero else At(BlockAt(f, b) * spb + k)
  {
    hide GoodFile, BlockAt, Limit;
    UnitAt(b, k, spb);
    QuotientBelow(k, r, spb);
    var q := k / spb;
    assert BlockAt(f, b + q) == Continued(BlockAt(f, b), q);
    Distribute(BlockAt(f, b), q, spb);
  }

  /** The extent of a run of `r` blocks, entered at sector `off` of its first block. */
  function RunExtent(blk: int, spb: nat, b: nat, off: nat, r: int): Extent {
    Extent(if blk == 0 then EXTENT_ZERO else blk * spb + off, b * spb + off, r * spb - off)
  }

  lemma RunNumbers(blk: int, spb: nat, b: nat, off: nat, r: nat, limit: nat)
    requires 0 <= blk <= MAX_BLOCK && 0 < r && b + r <= limit && off < spb <= 128 && limit * spb < WORD
    ensures off < r * spb < WORD && b * spb + r * spb == (b + r) * spb <= limit * spb
    ensures 0 <= b * spb && 0 <= blk * spb && blk * spb + r * spb <= EXTENT_VOID
  {
    MulMono(1, r, spb);
    MulMono(0, b, spb);
    MulMono(b + r, limit, spb);
    MulMono(0, blk, spb);
    MulMono(blk, MAX_BLOCK, spb);
    Distribute(b, r, spb);
    assert MAX_BLOCK * spb <= MAX_BLOCK * 128;
  }

  /** Such an extent is sound. */
  lemma RunAgrees(f: Ext2File, spb: nat, b: nat, off: nat, r: nat)
    requires Geometry(f, spb) && BlockRun(f, spb, b, r) && off < spb
    ensures Agrees(Ext2Map(f, spb), RunExtent(BlockAt(f, b), spb, b, off, r))
    ensures off < r * spb < WORD && b * spb + r * spb == (b + r) * spb <= Limit(f, spb) * spb
  {
    hide BlockAt, Limit, GoodFile, SectorAt;
    var blk := BlockAt(f, b);
    RunNumbers(blk, spb, b, off, r, Limit(f, spb));
    var m, e := Ext2Map(f, spb), RunExtent(blk, spb, b, off, r);
    forall j | 0 <= j < e.len ensures m[e.lstart + j] == Claimed(e, j) {
      SectorInRun(f, spb, b, r, off + j, e.lstart + j);
    }
  }

  /** The count that `ext2_bmap` reports for block `b`. */
  ghost function CountAt(f: Ext2File, b: nat): int
    requires GoodFile(f)
  {
    match f
    case Indirect(st, ib) => if b < Base(st, 4) then ReportedFile(st, ib, b) else 0
    case ByExtents(nodes, root, _) =>
      match X.Find(nodes, root, root.depth, b)
      case None => 0
      case Some(e) => e.block + e.len - b
  }

  /** `ext2_bmap`, bmap.c:194-204, called with a count of zero. */
  method Ext2Bmap(f: Ext2File, dev: C.Device, block: nat) returns (blk: int, nblocks: int)
    requires dev.Ready() && FileOnDisk(f, dev) && GoodFile(f)
    modifies dev.Repr()
    ensures dev.Ready()
    ensures blk == BlockAt(f, block) && nblocks == CountAt(f, block)
  {
    match f
    case Indirect(st, iblock) =>
      blk, nblocks := BmapTraditional(st, dev, iblock, block, 0);
    case ByExtents(nodes, root, blocks) =>
      blk, nblocks := X.BmapExtent(nodes, dev, root, block, 0, root.depth);
  }

  lemma RunIndirect(f: Ext2File, spb: nat, b: nat)
    requires Geometry(f, spb) && f.Indirect? && EntryAt(f, spb, b)
    ensures BlockRun(f, spb, b, CountAt(f, b))
    ensures var e := b + CountAt(f, b); e == Limit(f, spb) || EntryAt(f, spb, e)
  {
    RunFile(f.st, f.iblock, b);
    BaseSums(f.st);
    NumberAt(f.st, f.iblock, b);
  }

  lemma {:induction false} GoodLook(st: Store, root: int, levels: nat, off: nat)
    requires GoodStore(st) && GoodNumber(root) && off < Size(st, levels)
    ensures GoodNumber(Look(st, root, levels, off))
    decreases levels
  {
    if levels > 0 && root != 0 {
      Inside(st, levels, off);
      GoodLook(st, st.read(root)[off / Size(st, levels - 1)], levels - 1, off % Size(st, levels - 1));
    }
  }

  lemma NumberAt(st: Store, ib: seq<int>, b: nat)
    requires GoodIndirect(st, ib) && b < Base(st, 4)
    ensures GoodNumber(LookFile(st, ib, b))
  {
    if b >= DIRECT {
      var k := TreeOf(st, b);
      GoodLook(st, ib[DIRECT - 1 + k], k, b - Base(st, k));
    }
  }

  lemma HoleCount(f: Ext2File, b: nat)
    requires GoodFile(f) && f.ByExtents? && BlockAt(f, b) == 0
    ensures CountAt(f, b) == 0
  {
    var root := f.root;
    var d := root.depth;
    if X.Find(f.nodes, root, d, b).Some? {
      var e := X.Find(f.nodes, root, d, b).value;
      X.FindCorrect(f.nodes, root, d, 0, f.blocks, b, e);
      X.Bounds(f.nodes, root, d, 0, f.blocks, e);
    }
  }

  /** The extent found for a block is the one found for every block it covers. */
  lemma SameExtent(f: Ext2File, b: nat, e: X.Ext)
    requires GoodFile(f) && f.ByExtents? && X.Find(f.nodes, f.root, f.root.depth, b) == Some(e)
    ensures e.Covers(b) && 0 < e.start && e.start + e.len <= MAX_BLOCK && e.block + e.len <= f.blocks
    ensures forall c: nat :: e.Covers(c) ==> X.Find(f.nodes, f.root, f.root.depth, c) == Some(e)
  {
    var root := f.root;
    var d := root.depth;
    X.FindCorrect(f.nodes, root, d, 0, f.blocks, b, e);
    X.Bounds(f.nodes, root, d, 0, f.blocks, e);
    hide X.Find, X.Sound, X.Ends, X.All;
    forall c: nat | e.Covers(c) ensures X.Find(f.nodes, root, d, c) == Some(e) {
      X.FindCorrect(f.nodes, root, d, 0, f.blocks, c, e);
    }
  }

  lemma RunExtents(f: Ext2File, spb: nat, b: nat)
    requires Geometry(f, spb) && f.ByExtents? && BlockAt(f, b) != 0
    ensures BlockRun(f, spb, b, CountAt(f, b))
  {
    hide X.Find, X.Sound, X.Ends, X.All;
    var e := X.Find(f.nodes, f.root, f.root.depth, b).value;
    SameExtent(f, b, e);
    hide GoodFile;
    forall j: nat | j < CountAt(f, b) ensures BlockAt(f, b + j) == Continued(BlockAt(f, b), j) {
      assert e.Covers(b + j);
    }
  }

  lemma RunOf(f: Ext2File, spb: nat, b: nat)
    requires Geometry(f, spb) && EntryAt(f, spb, b)
    ensures BlockRun(f, spb, b, CountAt(f, b))
    ensures var e := b + CountAt(f, b); e == Limit(f, spb) || f.ByExtents? || EntryAt(f, spb, e)
  {
    if f.Indirect? {
      RunIndirect(f, spb, b);
    } else {
      RunExtents(f, spb, b);
    }
  }

  /** A run that starts in front of the first hole ends in front of it. */
  lemma RunReaches(f: Ext2File, spb: nat, b: nat, r: nat)
    requires Geometry(f, spb) && BlockRun(f, spb, b, r) && (f.ByExtents? ==> BlockAt(f, b) != 0 && b <= FirstHole(f))
    ensures b * spb <= (b + r) * spb <= Reach(f, spb)
  {
    hide BlockAt, GoodFile;
    MulMono(b, b + r, spb);
    if f.Indirect? {
      MulMono(b + r, Limit(f, spb), spb);
    } else {
      var h := FirstHole(f);
      FirstHoleIs(f);
      var j: nat := h - b;
      assert j < r ==> BlockAt(f, b + j) == Continued(BlockAt(f, b), j);
      MulMono(b + r, h, spb);
    }
  }

  /** What the code answers: a sound extent, inside the reach of the file, and nothing at all where a hole begins. */
  lemma AnswerSound(f: Ext2File, spb: nat, lstart: nat)
    requires Geometry(f, spb) && Askable(f, spb, lstart)
    ensures lstart / spb >= 0
    ensures var b := lstart / spb;
            Answered(f, spb, lstart, RunExtent(BlockAt(f, b), spb, b, lstart % spb, CountAt(f, b)))
  {
    hide BlockAt, CountAt, GoodFile, Answered, Reach;
    DivNonneg(lstart, spb);
    Quotient(lstart, spb);
    var b := lstart / spb;
    if EntryAt(f, spb, b) {
      EntryAnswered(f, spb, b, lstart);
    } else {
      HoleAnswered(f, spb, b);
    }
  }

  ghost predicate Answered(f: Ext2File, spb: nat, lstart: nat, e: Extent)
    requires Geometry(f, spb)
  {
    && Agrees(Ext2Map(f, spb), e) && e.lstart == lstart && 0 <= e.len < WORD
    && (lstart < Reach(f, spb) ==> e.len > 0)
    && (lstart <= Reach(f, spb) && e.len > 0 ==> e.End() <= Reach(f, spb))
    && (e.len > 0 && e.End() < |Ext2Map(f, spb)| ==> Askable(f, spb, e.End()))
  }

  lemma EntryAnswered(f: Ext2File, spb: nat, b: nat, lstart: nat)
    requires Geometry(f, spb) && EntryAt(f, spb, b) && lstart / spb == b
    ensures Answered(f, spb, lstart, RunExtent(BlockAt(f, b), spb, b, lstart % spb, CountAt(f, b)))
  {
    hide BlockAt, CountAt, GoodFile, EntryAt, SectorAt, Agrees, Reach, FirstHole, Limit;
    Quotient(lstart, spb);
    RunOf(f, spb, b);
    var r := CountAt(f, b);
    RunAgrees(f, spb, b, lstart % spb, r);
    DivMul(b + r, spb);
    InFrontOfHole(f, spb, b, lstart);
    if lstart <= Reach(f, spb) {
      RunReaches(f, spb, b, r);
    }
    if b + r >= Limit(f, spb) {
      MulMono(Limit(f, spb), b + r, spb);
    }
  }

  lemma HoleAnswered(f: Ext2File, spb: nat, b: nat)
    requires Geometry(f, spb) && f.ByExtents? && b < Limit(f, spb) && BlockAt(f, b) == 0
    ensures b * spb >= 0 && Answered(f, spb, b * spb, RunExtent(BlockAt(f, b), spb, b, 0, CountAt(f, b)))
  {
    hide BlockAt, CountAt, GoodFile, EntryAt, SectorAt, Reach, FirstHole;
    MulMono(0, b, spb);
    HoleAsked(f, spb, b);
  }

  lemma InFrontOfHole(f: Ext2File, spb: nat, b: nat, lstart: nat)
    requires Geometry(f, spb) && EntryAt(f, spb, b) && lstart / spb == b
    ensures f.ByExtents? ==> BlockAt(f, b) != 0 && (lstart <= Reach(f, spb) ==> b < FirstHole(f))
  {
    hide BlockAt, GoodFile;
    if f.ByExtents? && lstart <= Reach(f, spb) && b >= FirstHole(f) {
      FirstHoleIs(f);
      Quotient(lstart, spb);
      MulMono(FirstHole(f), b, spb);
      DivMul(FirstHole(f), spb);
    }
  }

  /** Asked where a hole between extents begins, the code has nothing to offer. */
  lemma HoleAsked(f: Ext2File, spb: nat, b: nat)
    requires Geometry(f, spb) && f.ByExtents? && b < Limit(f, spb) && BlockAt(f, b) == 0
    ensures CountAt(f, b) == 0 && b * spb >= Reach(f, spb)
  {
    hide BlockAt, GoodFile, CountAt;
    HoleCount(f, b);
    FirstHoleIs(f);
    MulMono(FirstHole(f), b, spb);
  }

  /** `ext2_next_extent`, bmap.c:210-228. */
  method Ext2NextExtent(f: Ext2File, spb: nat, dev: C.Device, lstart: nat) returns (pstart: int, len: int)
    requires dev.Ready() && FileOnDisk(f, dev) && Geometry(f, spb)
    modifies dev.Repr()
    ensures dev.Ready()
    ensures Askable(f, spb, lstart) ==>
              Answered(f, spb, lstart, Extent(pstart, lstart, len))
    ensures f.ByExtents? && lstart / spb >= 0 && BlockAt(f, lstart / spb) == 0 ==>
              pstart == EXTENT_ZERO && len == -(lstart % spb) % WORD
    ensures lstart / spb >= 0 && len == (CountAt(f, lstart / spb) * spb - lstart % spb) % WORD
  {
    hide BlockAt, CountAt, Limit, GoodFile, Askable, Answered, FileOnDisk, C.Device.Ready;
    DivNonneg(lstart, spb);
    var blk, nblocks := Ext2Bmap(f, dev, lstart / spb);
    if blk == 0 {
      pstart := EXTENT_ZERO;
    } else {
      pstart := blk * spb + lstart % spb;
    }
    len := (nblocks * spb - lstart % spb) % WORD;
    MadeExtent(f, spb, lstart, pstart, len);
  }

  /** The numbers as the code computes them are the sound answer. */
  lemma MadeExtent(f: Ext2File, spb: nat, lstart: nat, pstart: int, len: int)
    requires Geometry(f, spb) && lstart / spb >= 0
    requires var blk := BlockAt(f, lstart / spb); pstart == if blk == 0 then EXTENT_ZERO else blk * spb + lstart % spb
    requires len == (CountAt(f, lstart / spb) * spb - lstart % spb) % WORD
    ensures Askable(f, spb, lstart) ==> Answered(f, spb, lstart, Extent(pstart, lstart, len))
    ensures f.ByExtents? && BlockAt(f, lstart / spb) == 0 ==> pstart == EXTENT_ZERO && len == -(lstart % spb) % WORD
  {
    hide BlockAt, CountAt, Limit, GoodFile, SectorAt, Agrees, Askable;
    Quotient(lstart, spb);
    var block := lstart / spb;
    if f.ByExtents? && BlockAt(f, block) == 0 {
      HoleCount(f, block);
    }
    if Askable(f, spb, lstart) {
      AnswerSound(f, spb, lstart);
    }
  }

  // ---------- a sparse file

  /** Three blocks, of which extents cover the first and the last. */
  function SparseFile(): Ext2File {
    ByExtents(_ => X.Header(0, 0, [], []),
              X.Header(X.EXT4_EXT_MAGIC, 0, [], [X.Ext(0, 1, 1000), X.Ext(2, 1, 2000)]), 3)
  }

  /** The last block of a sparse file has its place on the disk, but reading stops in front of the hole. */
  lemma SparseFileStops(spb: nat)
    requires 0 < spb <= 128
    ensures Geometry(SparseFile(), spb) && Reach(SparseFile(), spb) == spb
    ensures BlockAt(SparseFile(), 0) == 1000 && BlockAt(SparseFile(), 1) == 0 && BlockAt(SparseFile(), 2) == 2000
    ensures Askable(SparseFile(), spb, spb)
  {
    hide BlockAt, GoodFile;
    var f := SparseFile();
    SparseGood();
    SparseBlock(0);
    SparseBlock(1);
    SparseBlock(2);
    FirstHoleIs(f);
    DivMul(1, spb);
  }

  lemma SparseGood()
    ensures GoodFile(SparseFile())
  {
    var f := SparseFile();
    assert X.SoundLeaf(f.root.ext, 0, 3);
    assert X.All(f.nodes, f.root, 0) == f.root.ext;
  }

  lemma SparseBlock(b: nat)
    requires b < 3
    ensures GoodFile(SparseFile())
    ensures BlockAt(SparseFile(), b) == if b == 0 then 1000 else if b == 1 then 0 else 2000
  {
    SparseGood();
    hide GoodFile;
    var f := SparseFile();
    var ks := X.ExtKeys(f.root.ext);
    assert ks == [0, 2];
    assert X.LastUpTo(ks, b, 2) == 1;
    assert X.LastUpTo(ks, b, 1) == if b >= 2 then 1 else 0;
    assert X.Leaf(f.nodes, f.root, 0, b) == Some(f.root);
  }
}
