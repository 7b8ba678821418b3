/** Filling a buffer from an extent. */
module ReadRun {
  import opened FileData
  import opened Shift

  /** `b` is `a` with `content` put at `pos`. */
  ghost predicate Filled(a: seq<int>, b: seq<int>, pos: nat, content: seq<int>) {
    && |a| == |b| && pos + |content| <= |a|
    && b[..pos] == a[..pos] && b[pos..pos + |content|] == content
    && b[pos + |content|..] == a[pos + |content|..]
  }

  lemma FilledNext(a: seq<int>, b: seq<int>, c: seq<int>, pos: nat, one: seq<int>, two: seq<int>)
    requires Filled(a, b, pos, one) && Filled(b, c, pos + |one|, two)
    ensures Filled(a, c, pos, one + two)
  {
    var at := pos + |one|;
    var end := at + |two|;
    assert c[..at][..pos] == b[..at][..pos];
    assert c[..at][pos..] == b[..at][pos..];
    assert a[at..][|two|..] == b[at..][|two|..];
  }

  method PutBytes(buf: array<int>, pos: nat, bytes: seq<int>)
    requires pos + |bytes| <= buf.Length
    modifies buf
    ensures Filled(old(buf[..]), buf[..], pos, bytes)
  {
    var i := 0;
    while i < |bytes|
      invariant 0 <= i <= |bytes|
      invariant buf[..pos] == old(buf[..pos]) && buf[pos..pos + i] == bytes[..i]
      invariant buf[pos + i..] == old(buf[pos + i..])
    {
      buf[pos + i] := bytes[i];
      i := i + 1;
    }
  }

  /** The bytes of the first `n` sectors of an extent, as the disk gives them. */
  function Fetched(d: Disk, e: Extent, n: nat): seq<int> {
    if n == 0 then [] else Fetched(d, e, n - 1) + SectorData(d, Claimed(e, n - 1))
  }

  lemma FetchedNext(d: Disk, e: Extent, i: nat, bytes: seq<int>)
    requires GoodDisk(d)
    requires bytes == if e.pstart == EXTENT_ZERO then Zeros(d.sectorSize) else d.read(e.pstart + i)
    ensures |bytes| == d.sectorSize && Fetched(d, e, i + 1) == Fetched(d, e, i) + bytes
    ensures Fetched(d, e, 0) == []
  {
  }

  lemma {:induction false} FetchedIsData(d: Disk, smap: seq<Place>, e: Extent, n: nat)
    requires Agrees(smap, e) && n <= e.len
    ensures n > 0 ==> e.End() <= |smap|
    ensures e.lstart + n <= |smap| ==> Fetched(d, e, n) == Data(d, smap, e.lstart, n)
    decreases n
  {
    if n > 0 {
      FetchedIsData(d, smap, e, n - 1);
      assert smap[e.lstart + (n - 1)] == Claimed(e, n - 1);
    }
  }

  /** The `memset` and `rdwr_sectors` of getfssec.c:173-176. */
  method ReadSectors(d: Disk, e: Extent, buf: array<int>, pos: nat, n: nat)
    requires GoodDisk(d) && pos + n * d.sectorSize <= buf.Length
    modifies buf
    ensures Filled(old(buf[..]), buf[..], pos, Fetched(d, e, n))
  {
    assert Filled(buf[..], buf[..], pos, Fetched(d, e, 0));
    FetchedLength(d, e, 0);
    hide Filled, Fetched, GoodDisk;
    var i, at := 0, pos;
    while i < n
      invariant 0 <= i <= n && at == pos + |Fetched(d, e, i)| && |Fetched(d, e, i)| == i * d.sectorSize
      invariant Filled(old(buf[..]), buf[..], pos, Fetched(d, e, i))
    {
      FetchedLength(d, e, i + 1);
      MulMono(i + 1, n, d.sectorSize);
      var bytes := if e.pstart == EXTENT_ZERO then Zeros(d.sectorSize) else d.read(e.pstart + i);
      FetchedNext(d, e, i, bytes);
      ghost var before := buf[..];
      PutBytes(buf, at, bytes);
      FilledNext(old(buf[..]), before, buf[..], pos, Fetched(d, e, i), bytes);
      at := at + d.sectorSize;
      i := i + 1;
    }
  }

  lemma {:induction false} FetchedLength(d: Disk, e: Extent, n: nat)
    requires GoodDisk(d)
    ensures |Fetched(d, e, n)| == n * d.sectorSize
  {
    if n > 0 {
      FetchedLength(d, e, n - 1);
      Distribute(n - 1, 1, d.sectorSize);
    }
  }
}
