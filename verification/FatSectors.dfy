/**
 Directories on FAT are read sector by sector (fat.c:146-221), with the same cursor.
 */
module FatSectors {
  import opened FileData
  import opened Fat
  import opened Shift

  /** Sector numbers are handed to `get_next_sector` in 32 bits. */
  ghost predicate SmallVolume(sb: FatSb) {
    GoodSb(sb) && sb.clusterSecs > 0 && 0 < sb.data && sb.data + sb.clusters * sb.clusterSecs <= WORD
  }

  /** `get_next_sector`, fat.c:146-176; 0 stands for the end. */
  function NextSector(sb: FatSb, sector: int): int
    requires sb.clusterSecs > 0
  {
    var s := sector % WORD;
    if s < sb.data then
      if s + 1 >= sb.data then 0 else s + 1
    else
      var dataSector := s - sb.data;
      if (dataSector + 1) % sb.clusterSecs != 0 then s + 1
      else
        var cluster := (sb.next(dataSector / sb.clusterSecs + 2) - 2) % WORD;
        if cluster >= sb.clusters then 0 else cluster * sb.clusterSecs + sb.data
  }

  /** The sector that `p` steps from `first` lead to. */
  function Walked(sb: FatSb, first: int, p: nat): int
    requires sb.clusterSecs > 0
  {
    if p == 0 then first else NextSector(sb, Walked(sb, first, p - 1))
  }

  // ---------- the cursor

  /** `here` is where `offset` steps from the first sector lead. */
  ghost predicate WalkOk(pvt: FatPvt, sb: FatSb)
    requires sb.clusterSecs > 0
    reads pvt
  {
    pvt.offset >= 0 && pvt.here == Walked(sb, pvt.start, pvt.offset)
  }

  /** `get_the_right_sector`, fat.c:183-208, for the position `sectorPos` of the open directory. */
  method GetTheRightSector(pvt: FatPvt, sb: FatSb, sectorPos: nat) returns (sector: int)
    requires sb.clusterSecs > 0 && WalkOk(pvt, sb)
    modifies pvt
    ensures WalkOk(pvt, sb) && pvt.offset == sectorPos && sector == Walked(sb, pvt.start, sectorPos)
  {
    var where: int;
    if sectorPos < pvt.offset {
      where, sector := 0, pvt.start;
    } else {
      where, sector := pvt.offset, pvt.here;
    }
    while where < sectorPos
      invariant 0 <= where <= sectorPos && sector == Walked(sb, pvt.start, where)
    {
      sector := NextSector(sb, sector);
      where := where + 1;
    }
    pvt.offset := sectorPos;
    pvt.here := sector;
  }

  /** `next_sector`, fat.c:213-221. */
  method NextSectorOf(pvt: FatPvt, sb: FatSb) returns (sector: int)
    requires sb.clusterSecs > 0 && WalkOk(pvt, sb)
    modifies pvt
    ensures WalkOk(pvt, sb) && pvt.offset == old(pvt.offset) + 1 && sector == Walked(sb, pvt.start, pvt.offset)
  {
    sector := NextSector(sb, pvt.here);
    pvt.offset := pvt.offset + 1;
    pvt.here := sector;
  }

  // ---------- where the walk leads

  lemma ClusterBounds(sb: FatSb, cluster: int)
    requires SmallVolume(sb) && Valid(sb, cluster)
    ensures sb.data <= ClusterSector(sb, cluster) && ClusterSector(sb, cluster) + sb.clusterSecs <= WORD
  {
    MulMono(0, cluster - 2, sb.clusterSecs);
    MulMono(cluster - 1, sb.clusters, sb.clusterSecs);
    Distribute(cluster - 2, 1, sb.clusterSecs);
  }

  /** Inside a cluster the next sector is the one behind; at its end it is the first of the next cluster. */
  lemma StepInCluster(sb: FatSb, cluster: int, j: nat)
    requires SmallVolume(sb) && Valid(sb, cluster) && j < sb.clusterSecs
    ensures j + 1 < sb.clusterSecs ==> NextSector(sb, ClusterSector(sb, cluster) + j) == ClusterSector(sb, cluster) + j + 1
    ensures j + 1 == sb.clusterSecs ==>
              NextSector(sb, ClusterSector(sb, cluster) + j)
              == if Valid(sb, sb.next(cluster)) then ClusterSector(sb, sb.next(cluster)) else 0
  {
    var cs, s := sb.clusterSecs, ClusterSector(sb, cluster) + j;
    ClusterBounds(sb, cluster);
    InvalidTest(sb, sb.next(cluster));
    DivUnique(s - sb.data, cs, cluster - 2, j);
    if j + 1 < cs {
      DivUnique(s - sb.data + 1, cs, cluster - 2, j + 1);
    } else {
      Distribute(cluster - 2, 1, cs);
      DivUnique(s - sb.data + 1, cs, cluster - 1, 0);
    }
  }

  /** Inside the chain, step by step is the same as cluster by cluster. */
  lemma {:induction false} WalkInChain(sb: FatSb, start: int, n: nat, p: nat)
    requires SmallVolume(sb) && ChainValid(sb, start, n) && p < n * sb.clusterSecs
    ensures p / sb.clusterSecs < n
    ensures At(Walked(sb, ClusterSector(sb, start), p)) == FatPlace(sb, start, p)
    decreases p
  {
    hide GoodSb, NextSector;
    var cs := sb.clusterSecs;
    QuotientBelow(p, n, cs);
    if p == 0 {
      DivUnique(0, cs, 0, 0);
    } else {
      WalkInChain(sb, start, n, p - 1);
      StepPlace(sb, start, n, p);
    }
  }

  lemma PlaceAt(sb: FatSb, start: int, k: nat, j: nat)
    requires GoodSb(sb) && j < sb.clusterSecs
    ensures k * sb.clusterSecs + j >= 0
    ensures FatPlace(sb, start, k * sb.clusterSecs + j) == At(ClusterSector(sb, Chain(sb, start, k)) + j)
  {
    hide GoodSb, ClusterSector, Chain;
    MulMono(0, k, sb.clusterSecs);
    DivUnique(k * sb.clusterSecs + j, sb.clusterSecs, k, j);
  }

  lemma StepPlace(sb: FatSb, start: int, n: nat, p: nat)
    requires SmallVolume(sb) && ChainValid(sb, start, n) && 0 < p <= n * sb.clusterSecs
    ensures p < n * sb.clusterSecs ==> At(NextSector(sb, FatPlace(sb, start, p - 1).sector)) == FatPlace(sb, start, p)
    ensures p == n * sb.clusterSecs && !Valid(sb, Chain(sb, start, n)) ==> NextSector(sb, FatPlace(sb, start, p - 1).sector) == 0
  {
    hide NextSector, ClusterSector, FatPlace, GoodSb, Valid;
    var cs := sb.clusterSecs;
    var k, j := (p - 1) / cs, (p - 1) % cs;
    QuotientBelow(p - 1, n, cs);
    Quotient(p - 1, cs);
    PlaceAt(sb, start, k, j);
    StepInCluster(sb, Chain(sb, start, k), j);
    if j + 1 < cs {
      PlaceAt(sb, start, k, j + 1);
      if p == n * cs {
        DivMul(n, cs);
        DivUnique(p, cs, k, j + 1);
      }
    } else {
      Distribute(k, 1, cs);
      PlaceAt(sb, start, k + 1, 0);
      if p < n * cs {
        QuotientBelow(p, n, cs);
        DivUnique(p, cs, k + 1, 0);
      } else {
        DivMul(n, cs);
        DivUnique(p, cs, k + 1, 0);
      }
    }
  }

  /** Behind the last cluster comes the end. */
  lemma WalkEnds(sb: FatSb, start: int, n: nat)
    requires SmallVolume(sb) && ChainValid(sb, start, n) && n > 0 && !Valid(sb, Chain(sb, start, n))
    ensures n * sb.clusterSecs > 0 && Walked(sb, ClusterSector(sb, start), n * sb.clusterSecs) == 0
  {
    hide GoodSb, NextSector;
    MulMono(1, n, sb.clusterSecs);
    WalkInChain(sb, start, n, n * sb.clusterSecs - 1);
    StepPlace(sb, start, n, n * sb.clusterSecs);
  }

  lemma StepBelowData(sb: FatSb, x: nat)
    requires SmallVolume(sb) && x < sb.data
    ensures NextSector(sb, x) == if x + 1 < sb.data then x + 1 else 0
  {
    DataSmall(sb);
    assert x % WORD == x;
  }

  lemma RoundNext(y: nat, m: nat)
    requires m > 0
    ensures 0 <= y % m < m && (y + 1) % m == if y % m + 1 < m then y % m + 1 else 0
  {
    var q, x := y / m, y % m;
    Quotient(y, m);
    if x + 1 < m {
      DivUnique(y + 1, m, q, x + 1);
    } else {
      Distribute(q, 1, m);
      DivUnique(y + 1, m, q + 1, 0);
    }
  }

  /** In front of the data area the walk goes round. */
  lemma {:induction false} WalkBelowData(sb: FatSb, first: int, p: nat, r: nat, j: nat)
    requires SmallVolume(sb) && Walked(sb, first, p) == r && r < sb.data
    ensures Walked(sb, first, p + j) == (r + j) % sb.data
  {
    hide NextSector, GoodSb;
    if j == 0 {
      DivUnique(r, sb.data, 0, r);
    } else {
      WalkBelowData(sb, first, p, r, j - 1);
      RoundNext(r + (j - 1), sb.data);
      StepBelowData(sb, (r + (j - 1)) % sb.data);
      assert r + (j - 1) + 1 == r + j && p + (j - 1) == p + j - 1;
    }
  }

  lemma DataSmall(sb: FatSb)
    requires SmallVolume(sb)
    ensures sb.data <= WORD
  {
    MulMono(0, sb.clusters, sb.clusterSecs);
  }

  /** The fixed root directory of FAT12 and FAT16 is read in order, and then the end is reported. */
  lemma RootDirectory(sb: FatSb, root: nat, p: nat)
    requires SmallVolume(sb) && root < sb.data
    ensures Walked(sb, root, p) == (root + p) % sb.data
    ensures root + p < sb.data ==> Walked(sb, root, p) == root + p
    ensures root + p == sb.data ==> Walked(sb, root, p) == 0
  {
    WalkBelowData(sb, root, 0, root, p);
    if root + p < sb.data {
      DivUnique(root + p, sb.data, 0, root + p);
    } else if root + p == sb.data {
      DivUnique(root + p, sb.data, 1, 0);
    }
  }

  /** The sector a directory of `n` clusters has at position `p`, or the end. */
  ghost function Expected(sb: FatSb, start: int, n: nat, p: nat): int
    requires GoodSb(sb)
  {
    if p < n * sb.clusterSecs then FatPlace(sb, start, p).sector else 0
  }

  /**
     The end is not sticky: a walk that goes on behind it starts over at sector 1 of the
     volume.  So the sector is right up to the end and behind it only by chance.
   */
  lemma WalkExact(sb: FatSb, start: int, n: nat, p: nat)
    requires SmallVolume(sb) && ChainValid(sb, start, n) && n > 0 && !Valid(sb, Chain(sb, start, n))
    ensures Walked(sb, ClusterSector(sb, start), p) == Expected(sb, start, n, p)
       <==> p <= n * sb.clusterSecs || (p - n * sb.clusterSecs) % sb.data == 0
  {
    hide GoodSb, NextSector, FatPlace;
    var l := n * sb.clusterSecs;
    if p < l {
      WalkInChain(sb, start, n, p);
    } else {
      WalkEnds(sb, start, n);
      WalkBelowData(sb, ClusterSector(sb, start), l, 0, p - l);
      DivUnique(0, sb.data, 0, 0);
    }
  }
}
