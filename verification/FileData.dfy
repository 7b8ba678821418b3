/**
 What a file holds, sector by sector, and what an extent claims about it.
 */
module FileData {

  const WORD: int := 0x1_0000_0000

  // The two special values of extent.pstart (fs.h:86-90), in 64 bits.
  const EXTENT_ZERO: int := 0xffff_ffff_ffff_ffff
  const EXTENT_VOID: int := 0xffff_ffff_ffff_fffe

  predicate Special(psector: int) { psector >= EXTENT_VOID }

  /** Where one sector of a file is found. */
  datatype Place = Zero | At(sector: int)

  datatype Extent = Extent(pstart: int, lstart: int, len: int) {
    function End(): int { lstart + len }
  }

  /** The place the extent gives for its `j`-th sector. */
  function Claimed(e: Extent, j: int): Place {
    if e.pstart == EXTENT_ZERO then Zero else At(e.pstart + j)
  }

  /** Every sector of the extent lies where the file's map says. */
  ghost predicate Agrees(smap: seq<Place>, e: Extent) {
    && 0 <= e.len && 0 <= e.lstart
    && (e.len > 0 ==>
          && 0 <= e.pstart && (e.pstart == EXTENT_ZERO || e.pstart + e.len <= EXTENT_VOID)
          && e.End() <= |smap|
          && forall j :: 0 <= j < e.len ==> smap[e.lstart + j] == Claimed(e, j))
  }

  function NextPsector(psector: int, skip: int): int {
    if Special(psector) then psector else psector + skip
  }

  /** Dropping the first `delta` sectors of an extent. */
  lemma AgreesDrop(smap: seq<Place>, e: Extent, delta: nat)
    requires Agrees(smap, e) && delta < e.len
    ensures Agrees(smap, Extent(NextPsector(e.pstart, delta), e.lstart + delta, e.len - delta))
  {
    var f := Extent(NextPsector(e.pstart, delta), e.lstart + delta, e.len - delta);
    forall j | 0 <= j < f.len ensures smap[f.lstart + j] == Claimed(f, j) {
      assert smap[e.lstart + (delta + j)] == Claimed(e, delta + j);
    }
  }

  /** Two extents that meet, logically and on the disk, are one. */
  lemma AgreesJoin(smap: seq<Place>, e: Extent, f: Extent)
    requires Agrees(smap, e) && Agrees(smap, f) && e.len > 0 && f.len > 0
    requires f.lstart == e.End() && f.pstart == NextPsector(e.pstart, e.len)
    ensures Agrees(smap, e.(len := e.len + f.len))
  {
    var g := e.(len := e.len + f.len);
    forall j | 0 <= j < g.len ensures smap[g.lstart + j] == Claimed(g, j) {
      if j < e.len {
        assert smap[e.lstart + j] == Claimed(e, j);
      } else {
        assert smap[f.lstart + (j - e.len)] == Claimed(f, j - e.len);
      }
    }
  }

  // ---------- contents

  type Sector = seq<int>

  datatype Disk = Disk(sectorSize: nat, read: int -> Sector)

  ghost predicate GoodDisk(d: Disk) {
    d.sectorSize > 0 && forall p :: |d.read(p)| == d.sectorSize
  }

  function Zeros(n: nat): (s: seq<int>)
    ensures |s| == n && forall i :: 0 <= i < n ==> s[i] == 0
  {
    seq(n, _ => 0)
  }

  function SectorData(d: Disk, p: Place): seq<int> {
    if p == Zero then Zeros(d.sectorSize) else d.read(p.sector)
  }

  /** The bytes of `n` sectors of the file from sector `from` on. */
  function Data(d: Disk, smap: seq<Place>, from: nat, n: nat): seq<int>
    requires from + n <= |smap|
  {
    if n == 0 then [] else Data(d, smap, from, n - 1) + SectorData(d, smap[from + n - 1])
  }

  lemma {:induction false} DataLength(d: Disk, smap: seq<Place>, from: nat, n: nat)
    requires GoodDisk(d) && from + n <= |smap|
    ensures |Data(d, smap, from, n)| == n * d.sectorSize
    decreases n
  {
    if n > 0 {
      DataLength(d, smap, from, n - 1);
    }
  }

  lemma {:induction false} DataAppend(d: Disk, smap: seq<Place>, from: nat, m: nat, n: nat)
    requires from + m + n <= |smap|
    ensures Data(d, smap, from, m + n) == Data(d, smap, from, m) + Data(d, smap, from + m, n)
    decreases n
  {
    if n > 0 {
      DataAppend(d, smap, from, m, n - 1);
      var a, b, c := Data(d, smap, from, m), Data(d, smap, from + m, n - 1), SectorData(d, smap[from + m + n - 1]);
      assert (a + b) + c == a + (b + c);
    } else {
      assert Data(d, smap, from, m) + [] == Data(d, smap, from, m);
    }
  }
}
