/**
 The generic file reader (getfssec.c): an extent cursor with lookahead and coalescing on
 top of a driver's `next_extent`.
 */
module Getfssec {
  import opened FileData
  import opened Shift
  import opened ReadRun
  import Fat
  import T = FatTable
  import C = Cache
  import Ext2

  datatype Reply = Fail | Got(pstart: int, len: int)

  /**
   The driver of the file system a file lives on.  `Scripted` stands for any driver: its
   answers may depend on the number of the call, and below sector `answers` it never fails.
   */
  datatype Driver =
    | FatDriver(sb: Fat.FatSb, pvt: Fat.FatPvt, table: T.Table)
    | Ext2Driver(file: Ext2.Ext2File, spb: nat, dev: C.Device)
    | Scripted(reply: (nat, nat) -> Reply, askable: nat -> bool, smap: seq<Place>, answers: nat)

  /** Number of sectors a file of `size` bytes takes. */
  function SectorsOf(size: int, ss: nat): int
    requires ss > 0
  {
    (size + ss - 1) / ss
  }

  /** The driver's data structures are sound and cover the file. */
  ghost predicate GoodDriver(drv: Driver, ss: nat, size: int) {
    && ss > 0 && 0 <= size < WORD
    && match drv
       case FatDriver(sb, pvt, table) =>
         && Fat.GoodSb(sb) && Fat.Reads(sb, table) && sb.sectorSize == ss && 0 <= pvt.startCluster < WORD
         && Fat.ChainValid(sb, pvt.startCluster, Fat.ClustersOf(sb, size))
       case Ext2Driver(f, spb, dev) =>
         Ext2.FileOnDisk(f, dev) && Ext2.Geometry(f, spb) && SectorsOf(size, ss) <= Ext2.Limit(f, spb) * spb
       case Scripted(reply, askable, smap, answers) =>
         && SectorsOf(size, ss) <= |smap| < WORD && askable(0)
         && forall n: nat, l: nat :: askable(l) && l < |smap| ==> GoodReply(reply(n, l), l, askable, smap, answers)
  }

  /** A failure, or a sound extent whose end may be asked for next. */
  ghost predicate GoodReply(r: Reply, lstart: nat, askable: nat -> bool, smap: seq<Place>, answers: nat) {
    && (lstart < answers ==> r.Got? && r.len > 0)
    && (r.Got? ==>
          && Agrees(smap, Extent(r.pstart, lstart, r.len))
          && (r.len > 0 && lstart + r.len < |smap| ==> askable(lstart + r.len)))
  }

  /** Where the file's sectors lie. */
  ghost function SectorMap(drv: Driver, ss: nat, size: int): seq<Place>
    requires GoodDriver(drv, ss, size)
  {
    match drv
    case FatDriver(sb, pvt, _) => Fat.FatMap(sb, pvt.startCluster, Fat.ClustersOf(sb, size))
    case Ext2Driver(f, spb, _) => Ext2.Ext2Map(f, spb)
    case Scripted(_, _, smap, _) => smap
  }

  /** What the driver may be asked. */
  ghost predicate Askable(drv: Driver, ss: nat, size: int, lstart: nat)
    requires GoodDriver(drv, ss, size)
  {
    match drv
    case FatDriver(sb, _, _) => lstart % sb.clusterSecs == 0
    case Ext2Driver(f, spb, _) => Ext2.Askable(f, spb, lstart)
    case Scripted(_, askable, _, _) => askable(lstart)
  }

  /** Beyond this sector no reading gets. */
  ghost function WallOf(drv: Driver, ss: nat, size: int): int
    requires GoodDriver(drv, ss, size)
  {
    match drv
    case FatDriver(sb, _, _) => Fat.ClusterCount(sb, size) * sb.clusterSecs
    case Ext2Driver(f, spb, _) => Ext2.Reach(f, spb)
    case Scripted(_, _, smap, _) => |smap|
  }

  /** Below this sector the driver never fails. */
  ghost function SureBelow(drv: Driver, ss: nat, size: int): int
    requires GoodDriver(drv, ss, size)
  {
    match drv
    case Scripted(_, _, _, answers) => answers
    case _ => WallOf(drv, ss, size)
  }

  /** The map covers the file, and 32 bits can number the sectors that can be read. */
  lemma MapCovers(drv: Driver, ss: nat, size: int)
    requires GoodDriver(drv, ss, size)
    ensures 0 <= SectorsOf(size, ss) <= |SectorMap(drv, ss, size)|
    ensures 0 <= WallOf(drv, ss, size) <= |SectorMap(drv, ss, size)| && WallOf(drv, ss, size) < WORD
  {
    DivNonneg(size + ss - 1, ss);
    match drv
    case FatDriver(sb, pvt, _) =>
      FatCovers(sb, ss, size);
    case Ext2Driver(f, spb, _) =>
      Ext2.ReachBounds(f, spb);
    case Scripted(_, _, _, _) =>
  }

  lemma SectorsFit(size: nat, ss: nat)
    requires ss > 0
    ensures SectorsOf(size, ss) <= size
  {
    var n := SectorsOf(size, ss);
    Quotient(size + ss - 1, ss);
    if n > size {
      MulMono(size + 1, n, ss);
      Distribute(size, 1, ss);
      MulMono(1, ss, size);
    }
  }

  lemma FatCovers(sb: Fat.FatSb, ss: nat, size: int)
    requires sb.clusterSecs > 0 && sb.sectorSize == ss > 0 && 0 <= size < WORD
    ensures SectorsOf(size, ss) <= Fat.ClustersOf(sb, size) * sb.clusterSecs
    ensures 0 <= Fat.ClusterCount(sb, size) * sb.clusterSecs <= Fat.ClustersOf(sb, size) * sb.clusterSecs
    ensures Fat.ClusterCount(sb, size) * sb.clusterSecs < WORD
  {
    var cs := sb.clusterSecs;
    var cb := cs * ss;
    var t := Fat.ClustersOf(sb, size);
    var s := SectorsOf(size, ss);
    Quotient(size + cb - 1, cb);
    Quotient(size + ss - 1, ss);
    assert t * cb == t * cs * ss;
    if s >= t * cs + 1 {
      MulMono(t * cs + 1, s, ss);
      Distribute(t * cs, 1, ss);
    }
    MulMono(0, t, cs);
    MulMono(1, ss, t * cs);
    Fat.CountCases(sb, size);
  }

  /** The in-memory inode, as far as reading goes (fs.h:97-114). */
  class Inode {
    const driver: Driver
    const disk: Disk
    const size: int
    var calls: nat
    var thisExtent: Extent
    var nextExtent: Extent

    /** A freshly opened file: both extents empty (fs.h: alloc_inode clears the inode). */
    constructor (drv: Driver, disk: Disk, size: int)
      ensures this.driver == drv && this.disk == disk && this.size == size
      ensures thisExtent == nextExtent == Extent(0, 0, 0)
    {
      driver, this.disk, this.size := drv, disk, size;
      thisExtent, nextExtent, calls := Extent(0, 0, 0), Extent(0, 0, 0), 0;
    }

    ghost function Repr(): set<object> {
      {this} + DriverRepr()
    }

    ghost function DriverRepr(): set<object> {
      match driver
      case FatDriver(_, pvt, table) => {pvt} + table.Repr()
      case Ext2Driver(_, _, dev) => dev.Repr()
      case Scripted(_, _, _, _) => {}
    }

    ghost predicate Good() {
      GoodDisk(disk) && GoodDriver(driver, disk.sectorSize, size)
    }

    ghost predicate DriverValid()
      requires Good()
      reads DriverRepr()
    {
      match driver
      case FatDriver(sb, pvt, table) => pvt.CursorOk(sb, size) && table.Valid()
      case Ext2Driver(_, _, dev) => dev.Ready()
      case Scripted(_, _, _, _) => true
    }

    ghost function Smap(): seq<Place>
      requires Good()
    {
      SectorMap(driver, disk.sectorSize, size)
    }

    ghost function Sure(): int
      requires Good()
    {
      SureBelow(driver, disk.sectorSize, size)
    }

    ghost function Wall(): int
      requires Good()
    {
      WallOf(driver, disk.sectorSize, size)
    }

    ghost predicate CanAsk(lstart: nat)
      requires Good()
    {
      lstart <= Wall() && Askable(driver, disk.sectorSize, size, lstart)
    }

    function Sectors(): int
      requires Good()
    {
      SectorsOf(size, disk.sectorSize)
    }

    /** A cached extent agrees with the map, and what follows it may be asked for. */
    ghost predicate GoodExtent(e: Extent)
      requires Good()
    {
      && Agrees(Smap(), e) && e.lstart < WORD && (e.len > 0 ==> e.End() <= Wall())
      && (e.len > 0 && e.End() < |Smap()| ==> CanAsk(e.End()))
    }

    ghost predicate Valid()
      reads Repr()
    {
      Good() && DriverValid() && GoodExtent(thisExtent) && GoodExtent(nextExtent)
    }

    /** Reading may go on at sector `l`: a cached extent holds it, or the driver may be asked. */
    ghost predicate CanServe(l: nat)
      requires Good()
      reads this
    {
      Holds(thisExtent, l) || Holds(nextExtent, l) || CanAsk(l)
    }

    /** The driver's `next_extent`. */
    method NextExtent(lstart: nat) returns (r: Reply)
      requires Valid() && lstart < Sectors() && CanAsk(lstart)
      modifies Repr()
      ensures Good() && DriverValid() && thisExtent == old(thisExtent) && nextExtent == old(nextExtent)
      ensures r.Got? ==> GoodExtent(Extent(r.pstart, lstart, r.len))
      ensures lstart < Sure() ==> r.Got? && r.len > 0
    {
      hide Inode.GoodExtent, Fat.FatPvt.CursorOk, C.Device.Valid, GoodDriver;
      Basics();
      match driver
      case FatDriver(sb, pvt, table) =>
        r := AskFat(sb, pvt, table, lstart);
      case Ext2Driver(f, spb, dev) =>
        r := AskExt2(f, spb, dev, lstart);
      case Scripted(reply, askable, smap, answers) =>
        ScriptAnswers(calls, lstart);
        r := reply(calls, lstart);
        calls := calls + 1;
    }

    lemma ScriptAnswers(call: nat, lstart: nat)
      requires Good() && driver.Scripted? && lstart < |Smap()| && CanAsk(lstart)
      ensures var r := driver.reply(call, lstart);
              (r.Got? ==> GoodExtent(Extent(r.pstart, lstart, r.len))) && (lstart < Sure() ==> r.Got? && r.len > 0)
    {
      assert GoodReply(driver.reply(call, lstart), lstart, driver.askable, driver.smap, driver.answers);
    }

    method AskExt2(f: Ext2.Ext2File, spb: nat, dev: C.Device, lstart: nat) returns (r: Reply)
      requires Good() && driver == Ext2Driver(f, spb, dev) && dev.Ready() && CanAsk(lstart)
      modifies dev.Repr()
      ensures dev.Ready() && r.Got? && GoodExtent(Extent(r.pstart, lstart, r.len))
      ensures lstart < Wall() ==> r.len > 0
    {
      hide C.Device.Valid, Agrees, GoodDisk, Ext2.GoodFile, Ext2.FileOnDisk, Ext2.Ext2Map, SectorsOf;
      MapCovers(driver, disk.sectorSize, size);
      var pstart, len := Ext2.Ext2NextExtent(f, spb, dev, lstart);
      r := Got(pstart, len);
    }

    method AskFat(sb: Fat.FatSb, pvt: Fat.FatPvt, table: T.Table, lstart: nat) returns (r: Reply)
      requires Good() && driver == FatDriver(sb, pvt, table) && pvt.CursorOk(sb, size) && table.Valid()
      requires CanAsk(lstart)
      modifies pvt, table.Repr()
      ensures pvt.CursorOk(sb, size) && table.Valid()
      ensures r.Got? ==> r.len > 0 && GoodExtent(Extent(r.pstart, lstart, r.len))
      ensures lstart < Wall() ==> r.Got?
    {
      hide Agrees, Inode.GoodExtent, T.Table.Valid, C.Device.Valid, Fat.RunReply, Fat.FatPvt.CursorOk, GoodDisk, Fat.FirstInvalid;
      FatCounts(sb, pvt, table, lstart);
      var fr := Fat.FatNextExtent(pvt, sb, table, lstart, size);
      if fr.FatError? {
        return Fail;
      }
      FatAgrees(sb, pvt, table, lstart, fr);
      r := Got(fr.pstart, fr.len);
    }

    lemma FatCounts(sb: Fat.FatSb, pvt: Fat.FatPvt, table: T.Table, lstart: nat)
      requires Good() && driver == FatDriver(sb, pvt, table)
      ensures Fat.ChainValid(sb, pvt.startCluster, Fat.ClusterCount(sb, size))
      ensures lstart < Wall() ==> Fat.ClusterNumber(sb, lstart) < Fat.ClusterCount(sb, size)
    {
      Fat.CountCases(sb, size);
      var m, t := Fat.ClusterNumber(sb, lstart), Fat.ClusterCount(sb, size);
      Quotient(lstart, sb.clusterSecs);
      if m >= t { MulMono(t, m, sb.clusterSecs); }
    }

    /** A run of the chain, as an extent of the file. */
    lemma FatAgrees(sb: Fat.FatSb, pvt: Fat.FatPvt, table: T.Table, lstart: nat, fr: Fat.FatReply)
      requires Good() && driver == FatDriver(sb, pvt, table) && CanAsk(lstart)
      requires var m, t := Fat.ClusterNumber(sb, lstart), Fat.ClusterCount(sb, size);
               m < t && exists n :: Fat.RunReply(sb, pvt.startCluster, m, n, t, fr)
      ensures fr.FatExtent? && fr.len > 0 && GoodExtent(Extent(fr.pstart, lstart, fr.len))
    {
      var m, t := Fat.ClusterNumber(sb, lstart), Fat.ClusterCount(sb, size);
      var n :| Fat.RunReply(sb, pvt.startCluster, m, n, t, fr);
      hide Fat.Reads, GoodDisk, Fat.Chain;
      Fat.CountCases(sb, size);
      Quotient(lstart, sb.clusterSecs);
      Fat.RunAgrees(sb, pvt.startCluster, m, n, t, fr);
      MulMono(n, t, sb.clusterSecs);
      DivMul(n, sb.clusterSecs);
      MapCovers(driver, disk.sectorSize, size);
    }

    lemma ExtentBounds(e: Extent)
      requires Good() && GoodExtent(e)
      ensures 0 <= e.lstart < WORD && 0 <= e.len && Wall() < WORD
      ensures e.len > 0 ==> e.End() <= Wall() <= |Smap()| && (e.End() < |Smap()| ==> CanAsk(e.End()))
    {
      MapCovers(driver, disk.sectorSize, size);
    }

    /** Two cached extents that meet are one. */
    lemma JoinGood(e: Extent, f: Extent)
      requires Good() && GoodExtent(e) && GoodExtent(f) && e.len > 0 && f.len > 0
      requires f.lstart == e.End() && f.pstart == NextPsector(e.pstart, e.len)
      ensures GoodExtent(e.(len := e.len + f.len))
    {
      AgreesJoin(Smap(), e, f);
    }

    /** What is left of a cached extent from sector `l` on. */
    lemma DropGood(e: Extent, l: nat)
      requires Good() && GoodExtent(e) && Holds(e, l)
      ensures GoodExtent(Extent(NextPsector(e.pstart, l - e.lstart), l, e.End() - l))
    {
      hide GoodDriver, SectorMap, WallOf, Askable, Agrees, GoodDisk;
      MapCovers(driver, disk.sectorSize, size);
      ExtentBounds(e);
      AgreesDrop(Smap(), e, l - e.lstart);
    }

    /** A good extent becomes the current one. */
    method SetThis(e: Extent)
      requires Valid() && GoodExtent(e)
      modifies `thisExtent
      ensures Valid() && thisExtent == e
    {
      hide Inode.GoodExtent, Fat.FatPvt.CursorOk, C.Device.Valid, GoodDriver, GoodDisk;
      thisExtent := e;
    }

    lemma EmptyGood(pstart: int, l: nat)
      requires Good() && l < WORD
      ensures GoodExtent(Extent(pstart, l, 0))
    {
    }

    /** Where reading can go on is not beyond the wall. */
    lemma ServedInside(l: nat)
      requires Valid() && CanServe(l)
      ensures l <= Wall() <= |Smap()|
    {
      MapCovers(driver, disk.sectorSize, size);
    }

    /** `get_next_extent`, getfssec.c:74-86. */
    method GetNextExtent()
      requires Valid() && thisExtent.End() < Sectors() && CanAsk(thisExtent.End())
      modifies Repr()
      ensures Valid() && thisExtent == old(thisExtent)
      ensures nextExtent.lstart == thisExtent.End()
      ensures thisExtent.End() < Sure() ==> nextExtent.len > 0
    {
      hide GoodDriver, Agrees, Askable, SectorMap, SectorsOf, Fat.FatPvt.CursorOk, GoodDisk;
      MapCovers(driver, disk.sectorSize, size);
      ExtentBounds(thisExtent);
      var lstart := thisExtent.End();
      var r := NextExtent(lstart);
      match r {
        case Fail =>
          EmptyAgrees(Smap(), nextExtent.pstart, lstart);
          nextExtent := Extent(nextExtent.pstart, lstart, 0);
        case Got(pstart, len) =>
          nextExtent := Extent(pstart, lstart, len);
      }
    }

    /** Lines 109-127: make `thisExtent` start at the sector to read, if a cached extent holds it. */
    method Locate(lsector: nat)
      requires Valid() && lsector < Sectors() && CanServe(lsector)
      modifies `thisExtent
      ensures Valid() && thisExtent.lstart == lsector
      ensures thisExtent.len == 0 ==> CanAsk(lsector)
    {
      hide GoodDriver, SectorMap, SectorsOf, GoodDisk, Inode.GoodExtent, Inode.CanAsk, Inode.Wall, NextPsector, Inode.DriverValid;
      LocatedGood(thisExtent, nextExtent, lsector);
      var e := thisExtent;
      if Misses(e, lsector) {
        e := nextExtent;
      }
      if Misses(e, lsector) {
        e := Extent(e.pstart, lsector, 0);
      } else {
        var delta := lsector - e.lstart;
        e := Extent(NextPsector(e.pstart, delta), lsector, e.len - delta);
      }
      SetThis(e);
    }

    /** The extent that comes of it. */

    function Located(this0: Extent, next0: Extent, lsector: nat): Extent {
      var e := if Misses(this0, lsector) then next0 else this0;
      if Misses(e, lsector) then Extent(e.pstart, lsector, 0)
      else Extent(NextPsector(e.pstart, lsector - e.lstart), lsector, e.len - (lsector - e.lstart))
    }

    lemma LocatedGood(this0: Extent, next0: Extent, lsector: nat)
      requires Good() && GoodExtent(this0) && GoodExtent(next0) && lsector < Sectors()
      requires Holds(this0, lsector) || Holds(next0, lsector) || CanAsk(lsector)
      ensures var e := Located(this0, next0, lsector);
              GoodExtent(e) && e.lstart == lsector && (e.len == 0 ==> CanAsk(lsector))
    {
      hide GoodDriver, SectorMap, SectorsOf, GoodDisk, Inode.GoodExtent, Inode.CanAsk, Inode.Wall;
      Basics();
      SectorsFit(size, disk.sectorSize);
      ExtentBounds(this0);
      ExtentBounds(next0);
      var e := if Misses(this0, lsector) then next0 else this0;
      if Misses(e, lsector) {
        EmptyGood(e.pstart, lsector);
      } else {
        DropGood(e, lsector);
      }
    }

    /** The extent looked up behind the current one does not go on from it on the disk. */
    ghost predicate PiecesEnd()
      reads this
    {
      && nextExtent.lstart == thisExtent.End()
      && (nextExtent.len == 0 || nextExtent.pstart != NextPsector(thisExtent.pstart, thisExtent.len))
    }

    /** One turn of the loop in lines 138-159. */
    method LookStep(sectors: nat) returns (again: bool, left: nat)
      requires Valid() && thisExtent.len < sectors && thisExtent.lstart + sectors <= Sectors()
      requires thisExtent.len == 0 ==> CanAsk(thisExtent.lstart)
      modifies Repr()
      ensures Valid() && thisExtent.lstart == old(thisExtent.lstart)
      ensures again ==> left == sectors && thisExtent.len > old(thisExtent.len)
      ensures !again ==> thisExtent.len == old(thisExtent.len) && left == if thisExtent.len == 0 then 0 else sectors
      ensures left == 0 ==> thisExtent.lstart >= Sure()
      ensures !again && left > 0 ==> PiecesEnd()
    {
      hide GoodDriver, SectorMap, SectorsOf, GoodDisk, Inode.GoodExtent, Inode.DriverValid, Inode.CanAsk, Inode.Sure, Inode.Wall;
      Basics();
      ExtentBounds(thisExtent);
      ExtentBounds(nextExtent);
      left := sectors;
      if nextExtent.len == 0 || nextExtent.lstart != (thisExtent.lstart + thisExtent.len) % WORD {
        GetNextExtent();
        ExtentBounds(nextExtent);
      }
      if thisExtent.len == 0 {
        SetThis(nextExtent);
        again := nextExtent.len != 0;
        if nextExtent.len == 0 {
          left := 0;
        }
      } else if nextExtent.len != 0 && nextExtent.pstart == NextPsector(thisExtent.pstart, thisExtent.len) {
        JoinGood(thisExtent, nextExtent);
        SetThis(thisExtent.(len := thisExtent.len + nextExtent.len));
        again := true;
      } else {
        again := false;
      }
    }

    /** Lines 138-159: make `thisExtent` cover `sectors` sectors, or as many as lie in one piece. */
    method LookAhead(sectors: nat) returns (left: nat)
      requires Valid() && 0 < sectors && thisExtent.lstart + sectors <= Sectors()
      requires thisExtent.len == 0 ==> CanAsk(thisExtent.lstart)
      modifies Repr()
      ensures Valid() && thisExtent.lstart == old(thisExtent.lstart)
      ensures (left == sectors && thisExtent.len > 0) || (left == 0 && thisExtent.len == 0)
      ensures thisExtent.len == 0 ==> CanAsk(thisExtent.lstart)
      ensures left == 0 ==> thisExtent.lstart >= Sure()
      ensures left > 0 ==> thisExtent.len >= sectors || PiecesEnd()
    {
      hide GoodDriver, SectorMap, SectorsOf, GoodDisk, Inode.GoodExtent, Inode.DriverValid, Inode.CanAsk, Inode.Sure, Inode.Wall;
      Basics();
      ExtentBounds(thisExtent);
      left := sectors;
      var again := true;
      while again && left > thisExtent.len
        invariant Valid() && thisExtent.lstart == old(thisExtent.lstart)
        invariant 0 <= thisExtent.len && (thisExtent.len == 0 ==> CanAsk(thisExtent.lstart))
        invariant if left == 0 then thisExtent.len == 0 && thisExtent.lstart >= Sure() else left == sectors
        invariant !again ==> left == 0 || (thisExtent.len > 0 && PiecesEnd())
        decreases again, left - thisExtent.len
      {
        again, left := LookStep(left);
        ExtentBounds(thisExtent);
      }
    }

    /** Lines 166-184: `memset` or disk read of `chunk` sectors at `pos`, and the extent moved on. */
    method Transfer(buf: array<int>, pos: nat, chunk: nat)
      requires Valid() && chunk <= thisExtent.len && pos + chunk * disk.sectorSize <= buf.Length
      requires thisExtent.lstart + chunk <= Sectors()
      requires thisExtent.len == 0 ==> CanAsk(thisExtent.lstart)
      modifies `thisExtent, buf
      ensures Valid() && thisExtent.lstart == old(thisExtent.lstart) + chunk
      ensures thisExtent.len == old(thisExtent.len) - chunk
      ensures thisExtent.len == 0 && thisExtent.lstart < Sectors() ==> CanAsk(thisExtent.lstart)
      ensures 0 <= old(thisExtent.lstart) && thisExtent.lstart <= |Smap()| && (chunk > 0 ==> thisExtent.lstart <= Wall())
      ensures Filled(old(buf[..]), buf[..], pos, Data(disk, Smap(), old(thisExtent.lstart), chunk))
    {
      hide GoodDriver, Agrees, Askable, SectorMap, SectorsOf, Fat.FatPvt.CursorOk, GoodDisk, Filled, Data;
      MapCovers(driver, disk.sectorSize, size);
      ExtentBounds(thisExtent);
      var e := thisExtent;
      ReadSectors(disk, e, buf, pos, chunk);
      FetchedIsData(disk, Smap(), e, chunk);
      AgreesMoved(Smap(), e, chunk);
      thisExtent := Extent(if e.pstart == EXTENT_ZERO then e.pstart else e.pstart + chunk, e.lstart + chunk, e.len - chunk);
    }

    lemma Basics()
      requires Good()
      ensures disk.sectorSize > 0 && 0 <= size < WORD
      ensures 0 <= Sectors() <= |Smap()| && 0 <= Wall() <= |Smap()| && Wall() < WORD
    {
      MapCovers(driver, disk.sectorSize, size);
    }

    /** A freshly opened file can be read from its first sector. */
    lemma Begins()
      requires Good() && DriverValid() && thisExtent == nextExtent == Extent(0, 0, 0)
      ensures Valid() && 0 <= Wall() * disk.sectorSize && (size > 0 ==> CanAsk(0))
      ensures disk.sectorSize > 0 && 0 <= size < WORD
    {
      hide GoodDriver, SectorMap, SectorsOf, GoodDisk, Agrees;
      Basics();
      EmptyAgrees(Smap(), 0, 0);
      MulMono(0, Wall(), disk.sectorSize);
      if size > 0 {
        CanStart(driver, disk.sectorSize, size);
      }
    }

    /** One turn of the loop in lines 134-185. */
    method ReadStep(buf: array<int>, pos: nat, sectors: nat) returns (left: nat, len: nat, ghost chunk: nat)
      requires Valid() && 0 < sectors && thisExtent.lstart + sectors <= Sectors()
      requires thisExtent.len == 0 ==> CanAsk(thisExtent.lstart)
      requires pos + sectors * disk.sectorSize <= buf.Length
      modifies Repr(), buf
      ensures Valid() && thisExtent.lstart == old(thisExtent.lstart) + chunk
      ensures chunk <= sectors && len == chunk * disk.sectorSize && left == if chunk == 0 then 0 else sectors - chunk
      ensures chunk == 0 ==> thisExtent.lstart >= Sure()
      ensures thisExtent.len == 0 && thisExtent.lstart < Sectors() ==> CanAsk(thisExtent.lstart)
      ensures 0 <= old(thisExtent.lstart) && thisExtent.lstart <= |Smap()| && (chunk > 0 ==> thisExtent.lstart <= Wall())
      ensures Filled(old(buf[..]), buf[..], pos, Data(disk, Smap(), old(thisExtent.lstart), chunk))
    {
      hide Data, Filled, GoodDriver, SectorMap, SectorsOf, Askable, Inode.GoodExtent, Inode.DriverValid, GoodDisk;
      Basics();
      left := LookAhead(sectors);
      ExtentBounds(thisExtent);
      var moved := Min(left, thisExtent.len);
      chunk := moved;
      MulMono(chunk, sectors, disk.sectorSize);
      Transfer(buf, pos, moved);
      len := moved * disk.sectorSize;
      left := left - moved;
    }

    /** Lines 106-185: read up to `sectors` sectors from `lsector` on. */
    method ReadLoop(lsector: nat, buf: array<int>, sectors: nat) returns (bytesRead: nat, ghost done: nat)
      requires Valid() && CanServe(lsector) && 0 < sectors && sectors * disk.sectorSize <= buf.Length
      requires lsector + sectors <= Sectors()
      modifies Repr(), buf
      ensures Valid() && done <= sectors && bytesRead == done * disk.sectorSize
      ensures done == sectors || lsector + done >= Sure()
      ensures lsector + done <= Wall() <= |Smap()|
      ensures Filled(old(buf[..]), buf[..], 0, Data(disk, Smap(), lsector, done))
      ensures lsector + done < Sectors() ==> CanServe(lsector + done)
    {
      hide Data, Filled, GoodDriver, SectorMap, SectorsOf, Askable, Inode.GoodExtent, Inode.DriverValid, GoodDisk;
      hide Inode.CanAsk, Inode.Sure, Inode.Wall;
      Basics();
      ServedInside(lsector);
      var ss := disk.sectorSize;
      Locate(lsector);
      var left := sectors;
      done := 0;
      bytesRead := 0;
      NothingRead(disk, Smap(), lsector, buf[..]);
      while left > 0
        invariant Valid() && done <= sectors && bytesRead == done * ss
        invariant done + left == sectors || (left == 0 && lsector + done >= Sure())
        invariant thisExtent.lstart == lsector + done <= Wall()
        invariant thisExtent.len == 0 && lsector + done < Sectors() ==> CanAsk(lsector + done)
        invariant Filled(old(buf[..]), buf[..], 0, Data(disk, Smap(), lsector, done))
        decreases left
      {
        Distribute(done, left, ss);
        ghost var before := buf[..];
        var len;
        ghost var chunk;
        left, len, chunk := ReadStep(buf, bytesRead, left);
        MoreRead(disk, Smap(), lsector, done, chunk, old(buf[..]), before, buf[..]);
        Distribute(done, chunk, ss);
        bytesRead := bytesRead + len;
        done := done + chunk;
      }
      ExtentBounds(thisExtent);
    }

    /** `done` sectors from byte offset `from` on were put at the front of the buffer, nothing else. */
    ghost predicate Delivered(from: int, done: nat, a: seq<int>, b: seq<int>)
      requires Good()
    {
      if done == 0 then a == b
      else
        Basics();
        && OnSector(from, disk.sectorSize) && from / disk.sectorSize + done <= Sectors()
        && Filled(a, b, 0, Data(disk, Smap(), from / disk.sectorSize, done))
    }

    lemma NoneDelivered(from: int, b: seq<int>)
      requires Good()
      ensures Delivered(from, 0, b, b)
    {
    }

    lemma SomeDelivered(from: int, done: nat, a: seq<int>, b: seq<int>)
      requires Good() && disk.sectorSize > 0 && OnSector(from, disk.sectorSize)
      requires from / disk.sectorSize + done <= Sectors() <= |Smap()|
      requires Filled(a, b, 0, Data(disk, Smap(), from / disk.sectorSize, done))
      ensures Delivered(from, done, a, b)
    {
      if done == 0 {
        NothingFilled(disk, Smap(), from / disk.sectorSize, a, b);
      }
    }
  }

  /** The test in lines 109-110 and 115-116, in 32 bits. */
  predicate Misses(e: Extent, l: int) { l < e.lstart || l >= (e.lstart + e.len) % WORD }

  predicate Holds(e: Extent, l: int) { e.lstart <= l < e.End() }

  lemma EmptyAgrees(smap: seq<Place>, pstart: int, lstart: nat)
    ensures Agrees(smap, Extent(pstart, lstart, 0))
  {
  }

  /** What is left of an extent once its first sectors are read. */
  lemma AgreesMoved(smap: seq<Place>, e: Extent, chunk: nat)
    requires Agrees(smap, e) && chunk <= e.len
    ensures var p := if e.pstart == EXTENT_ZERO then e.pstart else e.pstart + chunk;
            Agrees(smap, Extent(p, e.lstart + chunk, e.len - chunk))
  {
    if chunk < e.len {
      AgreesDrop(smap, e, chunk);
    }
  }

  /** An open file (fs.h:122-126). */
  class File {
    const inode: Inode
    var offset: int

    constructor (inode: Inode)
      requires inode.Good()
      requires inode.DriverValid() && inode.thisExtent == inode.nextExtent == Extent(0, 0, 0)
      ensures this.inode == inode && offset == 0 && Ready()
    {
      hide File.Ready, Inode.Valid, Inode.Good, Fat.FatPvt.CursorOk, Inode.CanAsk, Inode.Wall;
      this.inode, offset := inode, 0;
      new;
      inode.Begins();
      DivUnique(0, inode.disk.sectorSize, 0, 0);
      BecomesReady();
    }

    ghost function Repr(): set<object> { {this} + inode.Repr() }

    /** The offset is at a sector that can be read next, or at the end of the file. */
    ghost predicate Ready()
      reads Repr()
    {
      && inode.Valid() && 0 <= offset <= inode.size && offset <= inode.Wall() * inode.disk.sectorSize
      && (offset < inode.size ==> OnSector(offset, inode.disk.sectorSize) && inode.CanServe(offset / inode.disk.sectorSize))
    }

    lemma ReadyParts()
      requires Ready()
      ensures inode.Valid() && inode.Good() && inode.disk.sectorSize > 0
      ensures 0 <= offset <= inode.size < WORD && offset <= inode.Wall() * inode.disk.sectorSize
      ensures offset < inode.size ==> OnSector(offset, inode.disk.sectorSize) && inode.CanServe(offset / inode.disk.sectorSize)
      ensures 0 <= inode.Sectors() <= |inode.Smap()| && 0 <= inode.Wall() <= |inode.Smap()|
      ensures BytesLeft() == inode.size - offset
    {
      hide GoodDriver, SectorMap, SectorsOf, GoodDisk, Inode.GoodExtent, Inode.DriverValid, Inode.CanServe, Inode.Wall, OnSector;
      inode.Basics();
    }

    lemma BecomesReady()
      requires inode.Valid() && inode.Good() && inode.disk.sectorSize > 0
      requires 0 <= offset <= inode.size && offset <= inode.Wall() * inode.disk.sectorSize
      requires offset < inode.size ==> OnSector(offset, inode.disk.sectorSize) && inode.CanServe(offset / inode.disk.sectorSize)
      ensures Ready()
    {
    }

    /** Bytes and sectors left, in 32 bits (lines 95-97). */
    function BytesLeft(): int
      reads this
    {
      (inode.size - offset) % WORD
    }

    function SectorsLeft(): int
      requires inode.Good()
      reads this
    {
      SectorsIn(BytesLeft(), inode.disk.sectorSize)
    }

    function SectorOf(position: int): int
      requires inode.disk.sectorSize > 0
    {
      position / inode.disk.sectorSize
    }

    /** The number of sectors a request comes to (lines 100-101); a negative request is a huge one. */
    function Demand(sectors: int): int
      requires inode.Good()
      reads this
    {
      Min(sectors % WORD, SectorsLeft())
    }

    /**
     Where asking for `k` sectors at `from` has led: as far as asked, but not beyond the end
     of the file or the place where no reading gets; and nowhere if rounding up the bytes
     left does not fit 32 bits.
     */
    ghost predicate Lands(from: int, k: nat)
      requires inode.Good()
      reads this
    {
      inode.Basics();
      Landed(inode.size, from, inode.disk.sectorSize, k, inode.Wall(), inode.Sure(), offset)
    }

    /**
     `generic_getfssec`, getfssec.c:88-194.  `haveMore0` is what the caller's variable held
     before: an empty read leaves it alone.
     */
    method GenericGetfssec(buf: array<int>, sectors: int, haveMore0: bool)
      returns (bytesRead: int, haveMore: bool, ghost done: nat)
      requires Ready() && Demand(sectors) * inode.disk.sectorSize <= buf.Length
      modifies Repr(), buf
      ensures Ready() && done <= old(Demand(sectors))
      ensures done == old(Demand(sectors)) || SectorOf(old(offset)) + done >= inode.Sure()
      ensures done > 0 ==> SectorOf(old(offset)) + done <= inode.Wall()
      ensures bytesRead == Min(done * inode.disk.sectorSize, old(BytesLeft()))
      ensures offset == old(offset) + bytesRead
      ensures inode.Delivered(old(offset), done, old(buf[..]), buf[..])
      ensures haveMore == if old(Demand(sectors)) == 0 then haveMore0 else offset < inode.size
      ensures Lands(old(offset), sectors % WORD)
    {
      hide File.Demand, File.SectorsLeft, File.BytesLeft, OnSector, Inode.Delivered, Landed, SectorsIn;
      hide Inode.Wall, Inode.Sure, File.Ready, Inode.Valid, Inode.Good, File.Lands;
      ReadyParts();
      var left, bytesLeft := Clamp(sectors);
      if left == 0 {
        inode.NoneDelivered(offset, buf[..]);
        Landing(inode.size, offset, inode.disk.sectorSize, sectors % WORD, inode.Wall(), inode.Sure(), 0, 0);
        HasLanded(offset, sectors % WORD);
        return 0, haveMore0, 0;
      }
      bytesRead, done := ReadOn(buf, left, bytesLeft, sectors);
      haveMore := bytesRead < bytesLeft;
    }

    /** Lines 106-188: read `left` sectors at the offset and move it on. */
    method ReadOn(buf: array<int>, left: nat, bytesLeft: int, ghost sectors: int) returns (bytesRead: int, ghost done: nat)
      requires Ready() && 0 < left && left * inode.disk.sectorSize <= buf.Length && bytesLeft == inode.size - offset > 0
      requires inode.disk.sectorSize > 0 && left == Min(sectors % WORD, SectorsIn(inode.size - offset, inode.disk.sectorSize))
      requires OnSector(offset, inode.disk.sectorSize) && offset / inode.disk.sectorSize + left <= inode.Sectors()
      modifies Repr(), buf
      ensures Ready() && done <= left && (done == left || old(offset) / inode.disk.sectorSize + done >= inode.Sure())
      ensures done > 0 ==> old(offset) / inode.disk.sectorSize + done <= inode.Wall()
      ensures bytesRead == Min(done * inode.disk.sectorSize, bytesLeft) && offset == old(offset) + bytesRead
      ensures inode.Delivered(old(offset), done, old(buf[..]), buf[..])
      ensures Lands(old(offset), sectors % WORD)
    {
      hide Data, Filled, GoodDriver, SectorMap, SectorsOf, Askable, Inode.GoodExtent, Inode.DriverValid, GoodDisk;
      hide OnSector, Inode.CanServe, Inode.Delivered, Landed, SectorsIn;
      hide Inode.CanAsk, Inode.Wall, Inode.Sure, File.Ready, Inode.Valid, Inode.Good, File.Lands;
      ReadyParts();
      var ss := inode.disk.sectorSize;
      bytesRead, done := inode.ReadLoop(offset / ss, buf, left);
      inode.SomeDelivered(offset, done, old(buf[..]), buf[..]);
      NextOffset(inode.size, offset, ss, sectors % WORD, inode.Wall(), inode.Sure(), left, done);
      bytesRead := Min(bytesRead, bytesLeft);
      ghost var l := offset / ss;
      offset := offset + bytesRead;
      assert offset < inode.size ==> offset / ss == l + done && inode.CanServe(l + done);
      BecomesReady();
      HasLanded(old(offset), sectors % WORD);
    }

    lemma HasLanded(from: int, k: nat)
      requires inode.Good() && inode.disk.sectorSize > 0
      requires Landed(inode.size, from, inode.disk.sectorSize, k, inode.Wall(), inode.Sure(), offset)
      ensures Lands(from, k)
    {
    }

    /** Lines 95-104: the request cut to what is left. */
    method Clamp(sectors: int) returns (left: nat, bytesLeft: int)
      requires Ready()
      ensures left == Demand(sectors) && 0 <= bytesLeft == BytesLeft()
      ensures inode.disk.sectorSize > 0 && left == Min(sectors % WORD, SectorsIn(inode.size - offset, inode.disk.sectorSize))
      ensures inode.disk.sectorSize > 0 && 0 <= inode.size < WORD
      ensures left > 0 ==> offset < inode.size && bytesLeft == inode.size - offset
      ensures left > 0 ==>
                && OnSector(offset, inode.disk.sectorSize)
                && offset / inode.disk.sectorSize + left <= inode.Sectors() <= |inode.Smap()|
    {
      hide File.Ready, Inode.Valid, Inode.Good, Inode.CanServe, Inode.Wall, OnSector;
      ReadyParts();
      var ss := inode.disk.sectorSize;
      bytesLeft := (inode.size - offset) % WORD;
      var sectorsLeft := (bytesLeft + ss - 1) % WORD / ss;
      DivNonneg((bytesLeft + ss - 1) % WORD, ss);
      left := sectors % WORD;
      if left > sectorsLeft {
        left := sectorsLeft;
      }
      if left > 0 {
        DemandFits(inode.size, offset, ss, left);
      }
    }

    /** The bytes of the file. */
    ghost function Content(): seq<int>
      requires inode.Good()
    {
      inode.Basics();
      FileBytes(inode.disk, inode.Smap(), inode.size)
    }

    /**
     A reader that asks again and again, for any numbers of sectors: what it gets, put
     together, is the part of the file it has gone through.
     */
    method ReadInPieces(buf: array<int>, requests: seq<int>) returns (out: seq<int>)
      requires Ready() && inode.Sectors() * inode.disk.sectorSize <= buf.Length
      modifies Repr(), buf
      ensures Ready() && 0 <= old(offset) <= offset <= |Content()|
      ensures out == Content()[old(offset)..offset]
      ensures Lands(old(offset), Total(requests))
      ensures var ss := inode.disk.sectorSize;
              inode.size - old(offset) <= WORD - ss && (inode.driver.Scripted? ==> inode.driver.answers >= inode.Sectors()) ==>
                offset == Min(Min(inode.size, inode.Wall() * ss), old(offset) + Total(requests) * ss)
    {
      hide Data, Filled, GoodDriver, SectorMap, SectorsOf, Askable, Inode.GoodExtent, Inode.DriverValid, GoodDisk, FileBytes;
      hide File.Demand, OnSector, Inode.CanServe, Landed, Inode.Wall, Inode.Sure, Total;
      inode.Basics();
      FileBytesLength(inode.disk, inode.Smap(), inode.size);
      out := [];
      NoRequests(requests[..0]);
      LandedNowhere(inode.size, offset, inode.disk.sectorSize, inode.Wall(), inode.Sure());
      var i := 0;
      while i < |requests|
        invariant 0 <= i <= |requests| && Ready()
        invariant old(offset) <= offset <= |Content()| && out == Content()[old(offset)..offset]
        invariant Lands(old(offset), Total(requests[..i]))
      {
        ghost var from := offset;
        DemandSmall(requests[i]);
        var piece := ReadPiece(buf, requests[i]);
        out := out + piece;
        LandedTwice(inode.size, old(offset), from, offset, inode.disk.sectorSize,
                    Total(requests[..i]), requests[i] % WORD, inode.Wall(), inode.Sure());
        TotalNext(requests, i);
        i := i + 1;
      }
      assert requests[..i] == requests;
      Arrived(old(offset), Total(requests));
    }

    /** With a driver that answers wherever it is asked, reading gets just as far as it can. */
    lemma Arrived(from: int, k: nat)
      requires inode.Good() && Lands(from, k)
      ensures var ss := inode.disk.sectorSize;
              inode.size - from <= WORD - ss && (inode.driver.Scripted? ==> inode.driver.answers >= inode.Sectors()) ==>
                offset == Min(Min(inode.size, inode.Wall() * ss), from + k * ss)
    {
      hide GoodDriver, SectorMap;
      inode.Basics();
    }

    /** One read, as the file's user sees it. */
    method ReadPiece(buf: array<int>, sectors: int) returns (piece: seq<int>)
      requires Ready() && Demand(sectors) * inode.disk.sectorSize <= buf.Length
      modifies Repr(), buf
      ensures Ready() && 0 <= old(offset) <= offset <= |Content()|
      ensures piece == Content()[old(offset)..offset]
      ensures Lands(old(offset), sectors % WORD)
    {
      hide GoodDriver, SectorMap, SectorsOf, GoodDisk, FileBytes, Inode.Delivered;
      hide File.Demand, Inode.CanServe, Inode.Good, Inode.Valid, File.Ready, File.Lands, File.Content;
      ReadyParts();
      ghost var from, buf0 := offset, buf[..];
      var n, more, done := GenericGetfssec(buf, sectors, false);
      PieceRead(from, done, n, buf0, buf[..]);
      piece := buf[..n];
    }

    /** What a read leaves in the buffer is the next piece of the file. */
    lemma PieceRead(from: int, done: nat, n: int, a: seq<int>, b: seq<int>)
      requires inode.Good() && inode.disk.sectorSize > 0 && 0 <= from <= inode.size
      requires inode.Delivered(from, done, a, b) && n == Min(done * inode.disk.sectorSize, inode.size - from)
      ensures 0 <= n <= |b| && from + n <= |Content()| && b[..n] == Content()[from..from + n]
    {
      hide Data, Filled, GoodDriver, SectorMap, SectorsOf, OnSector, GoodDisk, FileBytes;
      inode.Basics();
      FileBytesLength(inode.disk, inode.Smap(), inode.size);
      MulMono(0, done, inode.disk.sectorSize);
      if done > 0 {
        ReadIsContent(inode.disk, inode.Smap(), inode.size, from, done, n, a, b);
      }
    }

    lemma DemandSmall(sectors: int)
      requires Ready()
      ensures Demand(sectors) * inode.disk.sectorSize <= inode.Sectors() * inode.disk.sectorSize
    {
      hide GoodDriver, SectorMap, SectorsOf, Askable, Inode.GoodExtent, Inode.DriverValid, GoodDisk, Inode.CanServe;
      inode.Basics();
      var ss, left := inode.disk.sectorSize, Demand(sectors);
      if left > 0 {
        DemandFits(inode.size, offset, ss, left);
        DivNonneg(offset, ss);
      }
      MulMono(left, inode.Sectors(), ss);
    }
  }

  /** The sectors that `bytes` bytes take, as computed in 32 bits (lines 96-97). */
  function SectorsIn(bytes: int, ss: nat): int
    requires ss > 0
  {
    (bytes + ss - 1) % WORD / ss
  }

  /** Requests come to what they should exactly when rounding up the bytes that are left stays inside 32 bits. */
  lemma DemandExact(left: nat, ss: nat)
    requires left < WORD && 0 < ss <= WORD
    ensures (forall k: nat :: Min(k, SectorsIn(left, ss)) == Min(k, SectorsOf(left, ss))) <==> left <= WORD - ss
    ensures left > WORD - ss ==> SectorsIn(left, ss) == 0
  {
    if left > WORD - ss {
      DivUnique((left + ss - 1) % WORD, ss, 0, left + ss - 1 - WORD);
      BelowSectors(left, ss, 0);
      assert Min(1, SectorsIn(left, ss)) != Min(1, SectorsOf(left, ss));
    }
  }

  /** Of a file of 2^32 - 1 bytes nothing is ever read. */
  lemma LargestFileUnread(sectors: int)
    ensures SectorsIn(0xffff_ffff, 512) == 0 && Min(sectors % WORD, SectorsIn(0xffff_ffff, 512)) == 0
  {
    DemandExact(0xffff_ffff, 512);
  }

  /** The sectors a list of requests asks for, each taken as an unsigned number. */
  function Total(requests: seq<int>): (n: nat)
  {
    if requests == [] then 0 else Total(requests[..|requests| - 1]) + requests[|requests| - 1] % WORD
  }

  /** Where a read lands: it stops only at the end of the file or where no reading gets. */
  lemma LandsExactly(size: nat, offset: nat, ss: nat, k: nat, wall: nat, demand: nat, done: nat)
    requires 0 < ss && offset <= size <= WORD - ss + offset && offset <= wall * ss && (offset < size ==> OnSector(offset, ss))
    requires size < WORD && demand == Min(k, SectorsIn(size - offset, ss)) && done <= demand
    requires done == demand || offset / ss + done >= Min(wall, SectorsOf(size, ss))
    requires done > 0 ==> offset / ss + done <= wall
    ensures offset + Min(done * ss, size - offset) == Min(Min(size, wall * ss), offset + k * ss)
  {
    MulMono(0, done, ss);
    MulMono(done, k, ss);
    if offset < size {
      var l, left := offset / ss, size - offset;
      Quotient(offset, ss);
      Distribute(l, done, ss);
      if done > 0 { MulMono(l + done, wall, ss); }
      var full := SectorsOf(size, ss);
      UnitAt(l, left + ss - 1, ss);
      assert full == l + SectorsIn(left, ss);
      Quotient(left + ss - 1, ss);
      if done >= SectorsIn(left, ss) {
        MulMono(SectorsIn(left, ss), done, ss);
      } else if done < demand {
        if l + done < wall { MulMono(l + done, wall, ss); }
        MulMono(wall, l + done, ss);
      }
    } else {
      DivUnique(ss - 1, ss, 0, ss - 1);
      MulMono(0, k, ss);
    }
  }

  /** The position after a read, for any driver. */
  lemma Landing(size: nat, offset: nat, ss: nat, k: nat, wall: nat, sure: int, demand: nat, done: nat)
    requires 0 < ss && offset <= size < WORD && offset <= wall * ss && (offset < size ==> OnSector(offset, ss))
    requires demand == Min(k, SectorsIn(size - offset, ss)) && done <= demand
    requires done == demand || offset / ss + done >= sure
    requires done > 0 ==> offset / ss + done <= wall
    ensures Landed(size, offset, ss, k, wall, sure, offset + Min(done * ss, size - offset))
  {
    MulMono(0, done, ss);
    if done > 0 && offset < size {
      Quotient(offset, ss);
      Distribute(offset / ss, done, ss);
      MulMono(offset / ss + done, wall, ss);
    }
    if size - offset > WORD - ss {
      if ss <= WORD {
        DemandExact(size - offset, ss);
      } else {
        DivUnique((size - offset + ss - 1) % WORD, ss, 0, (size - offset + ss - 1) % WORD);
      }
    } else if sure >= Min(wall, SectorsOf(size, ss)) {
      LandsExactly(size, offset, ss, k, wall, demand, done);
    }
  }

  /** Where reading `k` sectors from `offset` on ends: see GenericGetfssec. */
  ghost predicate Landed(size: int, offset: int, ss: nat, k: nat, wall: int, sure: int, next: int)
    requires ss > 0
  {
    && next <= wall * ss
    && (size - offset > WORD - ss ==> next == offset)
    && (size - offset <= WORD - ss && sure >= Min(wall, SectorsOf(size, ss)) ==>
          next == Min(Min(size, wall * ss), offset + k * ss))
  }

  lemma LandedTwice(size: int, a: int, b: int, c: int, ss: nat, j: nat, k: nat, wall: int, sure: int)
    requires ss > 0 && a <= b && Landed(size, a, ss, j, wall, sure, b) && Landed(size, b, ss, k, wall, sure, c)
    ensures Landed(size, a, ss, j + k, wall, sure, c)
  {
    Distribute(j, k, ss);
    MulMono(0, k, ss);
  }

  lemma LandedNowhere(size: int, a: int, ss: nat, wall: int, sure: int)
    requires ss > 0 && a <= size && a <= wall * ss
    ensures Landed(size, a, ss, 0, wall, sure, a)
  {
  }

  lemma NoRequests(requests: seq<int>)
    requires |requests| == 0
    ensures Total(requests) == 0
  {
  }

  lemma TotalNext(requests: seq<int>, i: nat)
    requires i < |requests|
    ensures Total(requests[..i + 1]) == Total(requests[..i]) + requests[i] % WORD
  {
    assert requests[..i + 1][..i] == requests[..i];
  }

  lemma LandedInside(size: int, offset: int, ss: nat, k: nat, wall: int, sure: int, next: int)
    requires ss > 0 && Landed(size, offset, ss, k, wall, sure, next)
    ensures next <= wall * ss
  {
  }

  predicate OnSector(offset: int, ss: nat)
    requires ss > 0
  {
    offset % ss == 0 && offset / ss >= 0
  }

  function Min(a: int, b: int): int { if a < b then a else b }

  lemma CanStart(drv: Driver, ss: nat, size: int)
    requires GoodDriver(drv, ss, size) && size > 0
    ensures Askable(drv, ss, size, 0)
  {
    match drv
    case FatDriver(sb, _, _) =>
      DivUnique(0, sb.clusterSecs, 0, 0);
    case Ext2Driver(f, spb, _) =>
      DivUnique(0, spb, 0, 0);
      Quotient(size + ss - 1, ss);
      if Ext2.Limit(f, spb) == 0 {
        MulMono(SectorsOf(size, ss), 0, ss);
      }
    case Scripted(_, _, _, _) =>
  }

  lemma NothingRead(d: Disk, smap: seq<Place>, from: nat, b: seq<int>)
    requires from <= |smap|
    ensures Filled(b, b, 0, Data(d, smap, from, 0))
  {
  }

  lemma NothingFilled(d: Disk, smap: seq<Place>, from: nat, a: seq<int>, b: seq<int>)
    requires from <= |smap| && Filled(a, b, 0, Data(d, smap, from, 0))
    ensures a == b
  {
    assert a[0..] == a && b[0..] == b;
  }

  lemma MoreRead(d: Disk, smap: seq<Place>, from: nat, done: nat, chunk: nat, a: seq<int>, b: seq<int>, c: seq<int>)
    requires GoodDisk(d) && from + done + chunk <= |smap|
    requires Filled(a, b, 0, Data(d, smap, from, done))
    requires Filled(b, c, done * d.sectorSize, Data(d, smap, from + done, chunk))
    ensures Filled(a, c, 0, Data(d, smap, from, done + chunk))
  {
    hide Filled, Data;
    DataLength(d, smap, from, done);
    DataAppend(d, smap, from, done, chunk);
    FilledNext(a, b, c, 0, Data(d, smap, from, done), Data(d, smap, from + done, chunk));
  }

  lemma BelowSectors(size: int, ss: nat, k: int)
    requires ss > 0 && k * ss < size
    ensures k < SectorsOf(size, ss)
  {
    var n := SectorsOf(size, ss);
    Quotient(size + ss - 1, ss);
    if n <= k { MulMono(n, k, ss); }
  }

  /** A request cut to the sectors left stays inside the file. */
  lemma DemandFits(size: int, offset: int, ss: nat, left: nat)
    requires 0 <= offset <= size < WORD && ss > 0 && (offset < size ==> OnSector(offset, ss))
    requires 0 < left <= ((size - offset) % WORD + ss - 1) % WORD / ss
    ensures offset < size && offset / ss + left <= SectorsOf(size, ss)
  {
    var x := size - offset + ss - 1;
    ShortQuotient(x % WORD, ss);
    NoWrap(size - offset, ss);
    Quotient(offset, ss);
    UnitAt(offset / ss, x, ss);
  }

  lemma NoWrap(left: nat, ss: nat)
    requires left < WORD && ss > 0 && (left + ss - 1) % WORD >= ss
    ensures (left + ss - 1) % WORD == left + ss - 1 && left > 0
  {
    assert ss < WORD;
  }

  lemma ShortQuotient(x: nat, ss: nat)
    requires ss > 0
    ensures x / ss > 0 ==> x >= ss
  {
    if x < ss { DivUnique(x, ss, 0, x); }
  }

  lemma StopsOnSector(size: int, offset: int, ss: nat, left: nat, done: nat)
    requires 0 <= offset < size < WORD && ss > 0 && OnSector(offset, ss)
    requires done <= left && offset / ss + left <= SectorsOf(size, ss)
    ensures var next := offset + Min(done * ss, size - offset);
            offset <= next <= size
            && (next < size ==> OnSector(next, ss) && next / ss == offset / ss + done < SectorsOf(size, ss))
  {
    MulMono(0, done, ss);
    var q := offset / ss;
    Quotient(offset, ss);
    Distribute(q, done, ss);
    if done * ss < size - offset {
      DivMul(q + done, ss);
      BelowSectors(size, ss, q + done);
    }
  }

  /** What holds of the offset after a read. */
  lemma NextOffset(size: nat, offset: nat, ss: nat, k: nat, wall: nat, sure: int, left: nat, done: nat)
    requires offset < size < WORD && ss > 0 && OnSector(offset, ss) && offset <= wall * ss
    requires done <= left && left == Min(k, SectorsIn(size - offset, ss)) && offset / ss + left <= SectorsOf(size, ss)
    requires done == left || offset / ss + done >= sure
    requires done > 0 ==> offset / ss + done <= wall
    ensures var next := offset + Min(done * ss, size - offset);
            && offset <= next <= size && next <= wall * ss && Landed(size, offset, ss, k, wall, sure, next)
            && (next < size ==> OnSector(next, ss) && next / ss == offset / ss + done < SectorsOf(size, ss))
  {
    hide OnSector, SectorsIn, SectorsOf, Landed;
    Landing(size, offset, ss, k, wall, sure, left, done);
    LandedInside(size, offset, ss, k, wall, sure, offset + Min(done * ss, size - offset));
    StopsOnSector(size, offset, ss, left, done);
  }

  lemma SectorsBelow(size: int, ss: nat, k: int)
    requires ss > 0
    ensures k < SectorsOf(size, ss) <==> k * ss < size
  {
    var n := SectorsOf(size, ss);
    Quotient(size + ss - 1, ss);
    if k * ss < size { BelowSectors(size, ss, k); }
    if k < n {
      MulMono(k + 1, n, ss);
      Distribute(k, 1, ss);
    }
  }

  /** A FAT file can be read to its end exactly when rounding its size up to clusters stays inside 32 bits. */
  lemma FatReadableToEnd(sb: Fat.FatSb, pvt: Fat.FatPvt, table: T.Table, ss: nat, size: int)
    requires GoodDriver(FatDriver(sb, pvt, table), ss, size)
    ensures WallOf(FatDriver(sb, pvt, table), ss, size) * ss >= size <==> size == 0 || size <= WORD - Fat.ClusterBytes(sb)
  {
    var wall := WallOf(FatDriver(sb, pvt, table), ss, size);
    MapCovers(FatDriver(sb, pvt, table), ss, size);
    Fat.CountCases(sb, size);
    MulMono(0, wall, ss);
    SectorsBelow(size, ss, wall);
  }

  /** A file of 2^32 - 2048 bytes in clusters of 4096, one behind the other on the disk. */
  function LargeFat(): Fat.FatSb { Fat.FatSb(8, 512, 2048, 0x10_0000, c => if 0 <= c < WORD - 1 then c + 1 else 0) }

  /** Of that file nothing is ever read, although the reader's own rounding goes well. */
  lemma LargeFatUnread(pvt: Fat.FatPvt, table: T.Table)
    requires pvt.startCluster == 2 && Fat.Reads(LargeFat(), table)
    ensures var drv, size := FatDriver(LargeFat(), pvt, table), 0xffff_f800;
            && GoodDriver(drv, 512, size) && SectorsIn(size, 512) == SectorsOf(size, 512) && WallOf(drv, 512, size) == 0
            && forall k: nat, next: nat :: Landed(size, 0, 512, k, WallOf(drv, 512, size), SureBelow(drv, 512, size), next) ==> next == 0
  {
    var sb, size := LargeFat(), 0xffff_f800;
    assert Fat.ClustersOf(sb, size) == 0x10_0000;
    forall k: nat | k < 0x10_0000 ensures Fat.Valid(sb, Fat.Chain(sb, 2, k)) {
      LargeChain(k);
    }
    Fat.CountCases(sb, size);
  }

  lemma {:induction false} LargeChain(k: nat)
    requires k < 0x10_0000
    ensures Fat.Chain(LargeFat(), 2, k) == 2 + k
  {
    if k > 0 {
      LargeChain(k - 1);
    }
  }

  /** An ext2, ext3 or ext4 file can be read to its end exactly when no hole lies between or behind its extents. */
  lemma ReadableToEnd(f: Ext2.Ext2File, spb: nat, dev: C.Device, ss: nat, size: int)
    requires GoodDriver(Ext2Driver(f, spb, dev), ss, size)
    ensures WallOf(Ext2Driver(f, spb, dev), ss, size) * ss >= size
       <==> f.Indirect? || forall b: nat :: b * spb * ss < size ==> Ext2.BlockAt(f, b) != 0
  {
    hide Ext2.BlockAt, Ext2.GoodFile, Ext2.Reach, SectorsOf;
    MapCovers(Ext2Driver(f, spb, dev), ss, size);
    Ext2.ReachesExact(f, spb, SectorsOf(size, ss));
    SectorsBelow(size, ss, Ext2.Reach(f, spb));
    forall b: nat ensures b * spb < SectorsOf(size, ss) <==> b * spb * ss < size {
      SectorsBelow(size, ss, b * spb);
    }
  }

  /** Once it has come to a hole between extents, every further read ends where it began. */
  lemma StuckAtHole(size: nat, ss: nat, k: nat, wall: nat, sure: int, next: int)
    requires ss > 0 && wall * ss < size && size - wall * ss <= WORD - ss && sure >= wall
    requires Landed(size, wall * ss, ss, k, wall, sure, next)
    ensures next == wall * ss
  {
    MulMono(0, k, ss);
  }

  // ---------- the file's content

  ghost function FileBytes(d: Disk, smap: seq<Place>, size: int): seq<int>
    requires GoodDisk(d) && 0 <= size && 0 <= SectorsOf(size, d.sectorSize) <= |smap|
  {
    FileBytesFit(d, smap, size);
    Data(d, smap, 0, SectorsOf(size, d.sectorSize))[..size]
  }

  lemma FileBytesFit(d: Disk, smap: seq<Place>, size: int)
    requires GoodDisk(d) && 0 <= size && 0 <= SectorsOf(size, d.sectorSize) <= |smap|
    ensures size <= |Data(d, smap, 0, SectorsOf(size, d.sectorSize))|
  {
    DataLength(d, smap, 0, SectorsOf(size, d.sectorSize));
    Quotient(size + d.sectorSize - 1, d.sectorSize);
  }

  lemma FileBytesLength(d: Disk, smap: seq<Place>, size: int)
    requires GoodDisk(d) && 0 <= size && 0 <= SectorsOf(size, d.sectorSize) <= |smap|
    ensures |FileBytes(d, smap, size)| == size
  {
    FileBytesFit(d, smap, size);
  }

  /** The useful part of what a read leaves in the buffer is a piece of the file. */
  lemma ReadIsContent(d: Disk, smap: seq<Place>, size: nat, from: nat, done: nat, n: nat, a: seq<int>, b: seq<int>)
    requires GoodDisk(d) && from <= size && 0 <= SectorsOf(size, d.sectorSize) <= |smap|
    requires n == Min(done * d.sectorSize, size - from)
    requires OnSector(from, d.sectorSize) && from / d.sectorSize + done <= SectorsOf(size, d.sectorSize)
    requires Filled(a, b, 0, Data(d, smap, from / d.sectorSize, done))
    ensures n <= |b| && from + n <= |FileBytes(d, smap, size)|
    ensures b[..n] == FileBytes(d, smap, size)[from..from + n]
  {
    FileBytesFit(d, smap, size);
    Quotient(from, d.sectorSize);
    hide Data, Filled, SectorsOf, OnSector;
    var l, total := from / d.sectorSize, SectorsOf(size, d.sectorSize);
    assert FileBytes(d, smap, size) == Data(d, smap, 0, total)[..size];
    DataLength(d, smap, 0, l);
    DataLength(d, smap, l, done);
    Parts(d, smap, l, done, total);
    FilledFront(a, b, Data(d, smap, l, done));
    Slices(Data(d, smap, 0, l), Data(d, smap, l, done), Data(d, smap, l + done, total - (l + done)), b, size, n);
  }

  lemma FilledFront(a: seq<int>, b: seq<int>, content: seq<int>)
    requires Filled(a, b, 0, content)
    ensures |content| <= |b| && b[0..|content|] == content
  {
  }

  lemma Parts(d: Disk, smap: seq<Place>, l: nat, done: nat, total: nat)
    requires l + done <= total <= |smap|
    ensures Data(d, smap, 0, total) == Data(d, smap, 0, l) + Data(d, smap, l, done) + Data(d, smap, l + done, total - (l + done))
  {
    hide Data;
    DataAppend(d, smap, 0, l, done);
    DataAppend(d, smap, 0, l + done, total - (l + done));
  }

  lemma Slices(x: seq<int>, y: seq<int>, z: seq<int>, b: seq<int>, size: nat, n: nat)
    requires |y| <= |b| && b[0..|y|] == y && n <= |y| && |x| + n <= size <= |x + y + z|
    ensures b[..n] == (x + y + z)[..size][|x|..|x| + n]
  {
    assert b[..n] == b[0..|y|][..n];
  }
}
