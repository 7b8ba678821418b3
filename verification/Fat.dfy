/**
 The FAT block map: cluster chains, and the cached chain cursor of `fat_next_extent`.
 */
module Fat {
  import opened FileData
  import opened Shift
  import T = FatTable

  /** The mounted file system: `next` is what the table says. */
  datatype FatSb = FatSb(clusterSecs: nat, sectorSize: nat, data: nat, clusters: nat, next: int -> int)

  // The mount code cuts larger volumes down to this (fat.c:765-766).
  const MAX_CLUSTERS: int := 0x0fff_fff4

  ghost predicate GoodSb(sb: FatSb) {
    && sb.clusterSecs > 0 && sb.sectorSize > 0
    && sb.clusters <= MAX_CLUSTERS && sb.clusters * sb.clusterSecs < WORD
    && sb.data + sb.clusters * sb.clusterSecs <= EXTENT_VOID
    && (forall c :: 0 <= sb.next(c) < WORD)
  }

  /** The clusters follow one another as the table on the disk has them. */
  ghost predicate Reads(sb: FatSb, table: T.Table) {
    forall c :: sb.next(c) == table.Next(c)
  }

  predicate Valid(sb: FatSb, cluster: int) { 2 <= cluster < sb.clusters + 2 }

  /** The `k`-th cluster of the chain that starts at `start`. */
  function Chain(sb: FatSb, start: int, k: nat): int {
    if k == 0 then start else sb.next(Chain(sb, start, k - 1))
  }

  ghost predicate ChainValid(sb: FatSb, start: int, n: nat) {
    forall k: nat :: k < n ==> Valid(sb, Chain(sb, start, k))
  }

  function ClusterSector(sb: FatSb, cluster: int): int {
    (cluster - 2) * sb.clusterSecs + sb.data
  }

  /** Cluster 2 lies at the start of the data area, and each cluster begins where the one before it ends. */
  lemma ClusterPlaces(sb: FatSb, c: int)
    ensures ClusterSector(sb, 2) == sb.data && ClusterSector(sb, c + 1) == ClusterSector(sb, c) + sb.clusterSecs
  {
    Distribute(c - 2, 1, sb.clusterSecs);
  }

  /** The type of table for a number of clusters (fat.c:756-766). */
  function BitsFor(clusters: nat): T.Bits {
    if clusters <= 0xff4 then T.Fat12 else if clusters <= 0xfff4 then T.Fat16 else T.Fat32
  }

  /** Free and reserved entries, bad clusters and all marks for the end of a chain are no cluster numbers. */
  lemma MarksInvalid(sb: FatSb, entry: int)
    requires sb.clusters <= MAX_CLUSTERS
    requires var top := match BitsFor(sb.clusters) case Fat12 => 0x1000 case Fat16 => 0x1_0000 case Fat32 => 0x1000_0000;
             entry == 0 || entry == 1 || top - 9 <= entry < top
    ensures !Valid(sb, entry)
  {
  }

  /** Number of clusters of a file, as computed in 32 bits (fat.c:99). */
  function ClusterCount(sb: FatSb, size: int): nat
    requires sb.clusterSecs > 0 && sb.sectorSize > 0
  {
    DivNonneg((size + ClusterBytes(sb) - 1) % WORD, ClusterBytes(sb));
    (size + ClusterBytes(sb) - 1) % WORD / ClusterBytes(sb)
  }

  function ClusterBytes(sb: FatSb): (b: int)
    requires sb.clusterSecs > 0 && sb.sectorSize > 0
    ensures b > 0
  {
    sb.clusterSecs * sb.sectorSize
  }

  /** Number of clusters that a file of `size` bytes takes. */
  function ClustersOf(sb: FatSb, size: nat): nat
    requires sb.clusterSecs > 0 && sb.sectorSize > 0
  {
    DivNonneg(size + ClusterBytes(sb) - 1, ClusterBytes(sb));
    (size + ClusterBytes(sb) - 1) / ClusterBytes(sb)
  }

  /** The cluster number of a sector of the file. */
  function ClusterNumber(sb: FatSb, lstart: nat): (m: nat)
    requires sb.clusterSecs > 0
    ensures m == lstart / sb.clusterSecs
  {
    DivNonneg(lstart, sb.clusterSecs);
    lstart / sb.clusterSecs
  }

  // ---------- the cursor

  /** The private part of an inode (fat_fs.h:152-157). */
  class FatPvt {
    const startCluster: int
    const start: int          // first sector
    var offset: int
    var here: int

    constructor (startCluster: int, sb: FatSb)
      ensures this.startCluster == startCluster && start == ClusterSector(sb, startCluster)
      ensures offset == 0 && here == start
    {
      this.startCluster, this.start := startCluster, ClusterSector(sb, startCluster);
      offset, here := 0, ClusterSector(sb, startCluster);
    }

    /** `here` is the sector of cluster number `offset`, whenever that lies inside the file. */
    ghost predicate CursorOk(sb: FatSb, size: int)
      requires GoodSb(sb)
      reads this
    {
      exists k: nat :: CursorAt(sb, size, k)
    }

    ghost predicate CursorAt(sb: FatSb, size: int, k: nat)
      requires GoodSb(sb)
      reads this
    {
      && offset == k * sb.clusterSecs
      && (k < ClusterCount(sb, size) ==> here == ClusterSector(sb, Chain(sb, startCluster, k)))
    }

    /** Where a walk to cluster number `m` begins (lines 103-109). */
    function StartFor(sb: FatSb, m: nat): int
      requires sb.clusterSecs > 0
      reads this
    {
      if offset / sb.clusterSecs > m || here < sb.data then 0 else offset / sb.clusterSecs
    }
  }

  datatype FatReply = FatError(newSize: int) | FatExtent(pstart: int, len: int)

  /** The chain clusters with numbers `m` to `n` lie one behind the other. */
  ghost predicate Contiguous(sb: FatSb, start: int, m: nat, n: nat) {
    forall k: nat :: m <= k < n ==> Chain(sb, start, k) == Chain(sb, start, m) + (k - m)
  }

  lemma ChainRange(sb: FatSb, start: int, k: nat)
    requires GoodSb(sb) && 0 <= start < WORD
    ensures 0 <= Chain(sb, start, k) < WORD
  {
  }

  /** The 32-bit test `pcluster-2 >= clusters` tells invalid clusters. */
  lemma InvalidTest(sb: FatSb, cluster: int)
    requires GoodSb(sb) && 0 <= cluster < WORD
    ensures (cluster - 2) % WORD >= sb.clusters <==> !Valid(sb, cluster)
  {
    ClustersBound(sb);
  }

  lemma ClustersBound(sb: FatSb)
    requires GoodSb(sb)
    ensures sb.clusters < WORD
  {
    MulMono(1, sb.clusterSecs, sb.clusters);
  }

  lemma ClusterOfSector(sb: FatSb, cluster: int)
    requires GoodSb(sb)
    ensures (ClusterSector(sb, cluster) - sb.data) / sb.clusterSecs + 2 == cluster
  {
    DivMul(cluster - 2, sb.clusterSecs);
  }

  /** Lines 103-109 of fat.c: resume from the cursor, or from the start of the chain. */
  method Resume(pvt: FatPvt, sb: FatSb, mcluster: nat, size: int) returns (lcluster: nat, pcluster: int)
    requires GoodSb(sb) && 0 <= size < WORD && mcluster < ClusterCount(sb, size)
    requires pvt.CursorOk(sb, size)
    ensures pcluster == Chain(sb, pvt.startCluster, lcluster) && lcluster == pvt.StartFor(sb, mcluster) <= mcluster
  {
    ghost var k: nat :| pvt.CursorAt(sb, size, k);
    DivMul(k, sb.clusterSecs);
    ClusterOfSector(sb, Chain(sb, pvt.startCluster, k));
    hide GoodSb, ClusterCount, ClusterSector;
    lcluster := pvt.offset / sb.clusterSecs;
    pcluster := (pvt.here - sb.data) / sb.clusterSecs + 2;
    if lcluster > mcluster || pvt.here < sb.data {
      lcluster := 0;
      pcluster := pvt.startCluster;
    }
  }

  /** The first cluster from number `from` on that is invalid; beyond `m` none is looked for. */
  function FirstInvalid(sb: FatSb, start: int, from: nat, m: nat): (k: nat)
    requires from <= m + 1
    ensures from <= k <= m + 1 && (k <= m ==> !Valid(sb, Chain(sb, start, k)))
    ensures forall j :: from <= j < k ==> Valid(sb, Chain(sb, start, j))
    decreases m + 1 - from
  {
    if from > m || !Valid(sb, Chain(sb, start, from)) then from else FirstInvalid(sb, start, from + 1, m)
  }

  /** The walk to cluster number `mcluster`, fat.c:111-122; `bad` when the chain ends before it. */
  method SeekCluster(pvt: FatPvt, sb: FatSb, table: T.Table, mcluster: nat, l0: nat, p0: int)
    returns (lcluster: nat, pcluster: int, bad: bool)
    requires table.Valid() && Reads(sb, table) && GoodSb(sb) && 0 <= pvt.startCluster < WORD
    requires p0 == Chain(sb, pvt.startCluster, l0) && l0 <= mcluster
    modifies table.Repr()
    ensures table.Valid()
    ensures pcluster == Chain(sb, pvt.startCluster, lcluster) && l0 <= lcluster <= mcluster
    ensures bad <==> FirstInvalid(sb, pvt.startCluster, l0, mcluster) <= mcluster
    ensures lcluster == if bad then FirstInvalid(sb, pvt.startCluster, l0, mcluster) else mcluster
  {
    hide T.Table.Valid, T.Table.Next;
    lcluster, pcluster := l0, p0;
    while true
      invariant table.Valid()
      invariant l0 <= lcluster <= mcluster && pcluster == Chain(sb, pvt.startCluster, lcluster)
      invariant forall k :: l0 <= k < lcluster ==> Valid(sb, Chain(sb, pvt.startCluster, k))
      decreases mcluster - lcluster
    {
      ChainRange(sb, pvt.startCluster, lcluster);
      InvalidTest(sb, pcluster);
      if (pcluster - 2) % WORD >= sb.clusters {
        bad := true;
        return;
      }
      if lcluster >= mcluster {
        bad := false;
        return;
      }
      lcluster := lcluster + 1;
      pcluster := table.GetNextCluster(pcluster);
    }
  }

  /** Lines 124-134: count the clusters that follow on directly; `xcluster` is the last one looked up. */
  method CountRun(pvt: FatPvt, sb: FatSb, table: T.Table, mcluster: nat, p0: int, tcluster: nat)
    returns (lcluster: nat, xcluster: int, len: nat)
    requires table.Valid() && Reads(sb, table) && GoodSb(sb) && p0 == Chain(sb, pvt.startCluster, mcluster) && mcluster < tcluster
    modifies table.Repr()
    ensures table.Valid()
    ensures mcluster < lcluster <= tcluster && len == sb.clusterSecs * (lcluster - mcluster)
    ensures Contiguous(sb, pvt.startCluster, mcluster, lcluster)
    ensures lcluster < tcluster ==>
              && xcluster == Chain(sb, pvt.startCluster, lcluster)
              && xcluster != Chain(sb, pvt.startCluster, lcluster - 1) + 1
  {
    hide T.Table.Valid, T.Table.Next;
    len := sb.clusterSecs;
    var pcluster := p0;
    xcluster := 0;
    lcluster := mcluster + 1;
    while lcluster < tcluster
      invariant table.Valid()
      invariant mcluster < lcluster <= tcluster && len == sb.clusterSecs * (lcluster - mcluster)
      invariant pcluster == Chain(sb, pvt.startCluster, lcluster - 1)
      invariant Contiguous(sb, pvt.startCluster, mcluster, lcluster)
    {
      xcluster := table.GetNextCluster(pcluster);
      pcluster := pcluster + 1;
      if xcluster != pcluster {
        break;
      }
      len := len + sb.clusterSecs;
      lcluster := lcluster + 1;
    }
  }

  /**
   `fat_next_extent`, fat.c:86-144.  On success the reply is the extent; on failure it is
   the size the inode is left with.  It fails exactly if the walk meets an invalid cluster.
   */
  method FatNextExtent(pvt: FatPvt, sb: FatSb, table: T.Table, lstart: nat, size: int) returns (r: FatReply)
    requires table.Valid() && Reads(sb, table) && GoodSb(sb) && 0 <= size < WORD && 0 <= pvt.startCluster < WORD && pvt.CursorOk(sb, size)
    modifies pvt, table.Repr()
    ensures table.Valid()
    ensures var m, t := ClusterNumber(sb, lstart), ClusterCount(sb, size);
      && (m >= t ==> r == FatError(size) && pvt.CursorOk(sb, size))
      && (m < t ==>
            var from := old(pvt.StartFor(sb, m));
            && 0 <= from <= m
            && (var k := FirstInvalid(sb, pvt.startCluster, from, m);
                if k <= m then r == FatError(k * sb.clusterSecs) else exists n :: RunReply(sb, pvt.startCluster, m, n, t, r)))
      && (ChainValid(sb, pvt.startCluster, t) ==> pvt.CursorOk(sb, size) && (m < t ==> r.FatExtent?))
  {
    hide T.Table.Valid, Reads, Valid, RunReply, FatPvt.CursorOk, ClusterCount, Chain;
    var mcluster := ClusterNumber(sb, lstart);
    var tcluster := ClusterCount(sb, size);
    if mcluster >= tcluster {
      return FatError(size);
    }
    var lcluster, pcluster := Resume(pvt, sb, mcluster, size);
    var bad;
    lcluster, pcluster, bad := SeekCluster(pvt, sb, table, mcluster, lcluster, pcluster);
    if bad {
      return FatError(lcluster * sb.clusterSecs);
    }
    r := Answer(pvt, sb, table, mcluster, pcluster, tcluster, size);
  }

  /** Lines 124-138: the extent that begins at cluster number `mcluster`, and where the cursor is left. */
  method Answer(pvt: FatPvt, sb: FatSb, table: T.Table, mcluster: nat, pcluster: int, tcluster: nat, ghost size: int) returns (r: FatReply)
    requires table.Valid() && Reads(sb, table) && GoodSb(sb)
    requires pcluster == Chain(sb, pvt.startCluster, mcluster) && mcluster < tcluster == ClusterCount(sb, size)
    modifies pvt, table.Repr()
    ensures table.Valid() && r.FatExtent? && exists n :: RunReply(sb, pvt.startCluster, mcluster, n, tcluster, r)
    ensures ChainValid(sb, pvt.startCluster, tcluster) ==> pvt.CursorOk(sb, size)
  {
    hide T.Table.Valid, Reads, Valid, GoodSb;
    var pstart := (pcluster - 2) * sb.clusterSecs + sb.data;
    var lcluster, xcluster, len := CountRun(pvt, sb, table, mcluster, pcluster, tcluster);
    pvt.offset := lcluster * sb.clusterSecs;
    pvt.here := (xcluster - 2) % WORD * sb.clusterSecs % WORD + sb.data;
    r := FatExtent(pstart, len);
    assert RunReply(sb, pvt.startCluster, mcluster, lcluster, tcluster, r);
    if ChainValid(sb, pvt.startCluster, tcluster) {
      if lcluster < tcluster {
        HereExact(sb, xcluster);
      }
      assert pvt.CursorAt(sb, size, lcluster);
    }
  }

  /** In 32 bits, too, the sector of a valid cluster comes out right. */
  lemma HereExact(sb: FatSb, cluster: int)
    requires GoodSb(sb) && Valid(sb, cluster)
    ensures (cluster - 2) % WORD * sb.clusterSecs % WORD + sb.data == ClusterSector(sb, cluster)
  {
    var v := (cluster - 2) * sb.clusterSecs;
    MulMono(cluster - 2, sb.clusters, sb.clusterSecs);
    MulMono(0, cluster - 2, sb.clusterSecs);
    hide GoodSb;
    assert (cluster - 2) % WORD == cluster - 2;
    assert v % WORD == v;
  }

  /** The reply is the longest contiguous run of the chain that starts at cluster number `m`. */
  ghost predicate RunReply(sb: FatSb, start: int, m: int, n: int, t: int, r: FatReply) {
    && r.FatExtent? && 0 <= m < n <= t
    && r.pstart == ClusterSector(sb, Chain(sb, start, m)) && r.len == sb.clusterSecs * (n - m)
    && Contiguous(sb, start, m, n)
    && (n < t ==> Chain(sb, start, n) != Chain(sb, start, n - 1) + 1)
  }

  // ---------- the file's map

  /** The sectors of the first `t` clusters of the chain, in order. */
  ghost function FatMap(sb: FatSb, start: int, t: nat): (m: seq<Place>)
    requires GoodSb(sb)
    ensures |m| == t * sb.clusterSecs
  {
    seq(t * sb.clusterSecs, i requires 0 <= i => FatPlace(sb, start, i))
  }

  ghost function FatPlace(sb: FatSb, start: int, i: nat): Place
    requires GoodSb(sb)
  {
    DivNonneg(i, sb.clusterSecs);
    At(ClusterSector(sb, Chain(sb, start, i / sb.clusterSecs)) + i % sb.clusterSecs)
  }

  /** An extent of the reply agrees, sector by sector, with the chain from its start. */
  lemma RunAgrees(sb: FatSb, start: int, m: int, n: int, t: int, r: FatReply)
    requires GoodSb(sb) && RunReply(sb, start, m, n, t, r) && ChainValid(sb, start, t)
    ensures Agrees(FatMap(sb, start, t), Extent(r.pstart, m * sb.clusterSecs, r.len))
    ensures r.len > 0 && m * sb.clusterSecs + r.len == n * sb.clusterSecs
  {
    hide GoodSb, Chain, Contiguous, ClusterSector, FatPlace, Valid;
    var e := Extent(r.pstart, m * sb.clusterSecs, r.len);
    MulMono(n, t, sb.clusterSecs);
    MulMono(0, m, sb.clusterSecs);
    Distribute(m, n - m, sb.clusterSecs);
    RunBounds(sb, start, m, n, t, r);
    forall j | 0 <= j < e.len ensures FatMap(sb, start, t)[e.lstart + j] == Claimed(e, j) {
      SectorInRun(sb, start, m, n, j);
      assert FatMap(sb, start, t)[e.lstart + j] == FatPlace(sb, start, e.lstart + j);
    }
  }

  lemma SectorInRun(sb: FatSb, start: int, m: nat, n: nat, j: nat)
    requires GoodSb(sb) && Contiguous(sb, start, m, n) && m < n && j < (n - m) * sb.clusterSecs
    ensures FatPlace(sb, start, m * sb.clusterSecs + j) == At(ClusterSector(sb, Chain(sb, start, m)) + j)
  {
    hide GoodSb, Chain;
    var cs, c := sb.clusterSecs, Chain(sb, start, m);
    UnitAt(m, j, cs);
    QuotientBelow(j, n - m, cs);
    var q := j / cs;
    assert Chain(sb, start, m + q) == c + q;
    Distribute(c - 2, q, cs);
  }

  lemma RunBounds(sb: FatSb, start: int, m: int, n: int, t: int, r: FatReply)
    requires GoodSb(sb) && RunReply(sb, start, m, n, t, r) && ChainValid(sb, start, t)
    ensures 0 <= r.pstart && r.pstart + r.len <= EXTENT_VOID && r.len > 0
  {
    MulMono(1, n - m, sb.clusterSecs);
    var c := Chain(sb, start, m);
    assert Valid(sb, c) && Valid(sb, Chain(sb, start, n - 1));
    assert Chain(sb, start, n - 1) == c + (n - 1 - m);
    MulMono(0, c - 2, sb.clusterSecs);
    MulMono(c - 2 + (n - m), sb.clusters, sb.clusterSecs);
  }

  // ---------- where 32 bits and units matter

  /** For sizes that leave no room for rounding up, the cluster count is 0. */
  lemma CountCases(sb: FatSb, size: int)
    requires sb.clusterSecs > 0 && sb.sectorSize > 0 && 0 <= size < WORD
    ensures ClusterCount(sb, size) == if size <= WORD - ClusterBytes(sb) then ClustersOf(sb, size) else 0
  {
    var cb := ClusterBytes(sb);
    var r := (size + cb - 1) % WORD;
    if size > WORD - cb {
      DivUnique(r, cb, 0, r);
    }
  }

  /** The cluster count is the true one exactly for sizes that leave room for rounding up. */
  lemma ClusterCountExact(sb: FatSb, size: int)
    requires sb.clusterSecs > 0 && sb.sectorSize > 0 && 0 < size < WORD
    ensures ClusterCount(sb, size) == ClustersOf(sb, size) <==> size <= WORD - ClusterBytes(sb)
  {
    CountCases(sb, size);
    var cb := ClusterBytes(sb);
    Quotient(size + cb - 1, cb);
  }

  /** After a broken chain the size is left in sectors: it is the bytes before the break only if the file breaks at its start. */
  lemma BrokenChainSize(sb: FatSb, start: int, from: nat, m: nat, r: FatReply)
    requires sb.clusterSecs > 0 && sb.sectorSize > 1 && from <= m
    requires r == FatError(FirstInvalid(sb, start, from, m) * sb.clusterSecs)
    ensures r.newSize == FirstInvalid(sb, start, from, m) * ClusterBytes(sb) <==> from == 0 && !Valid(sb, start)
  {
    var k := FirstInvalid(sb, start, from, m);
    if k > 0 {
      assert k * ClusterBytes(sb) == (k * sb.clusterSecs) * sb.sectorSize;
      MulMono(1, k, sb.clusterSecs);
      MulMono(2, sb.sectorSize, k * sb.clusterSecs);
    }
  }
}
