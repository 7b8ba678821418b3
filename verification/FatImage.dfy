/**
 The writer of the image tool (mkzip.py:178-247), against the boot loader's reader.
 */
module FatImage {
  import F = Fat
  import opened FatTable
  import opened FileData
  import opened Shift

  // ---------- the writer

  datatype Result = Done(value: int) | ValueError

  const LAST: int := -1   // "last cluster" for fat12_set and fat16_set

  function EndMark(bits: Bits): int { if bits == Fat12 then 0xfff else 0xffff }

  /** The value stored for a successor. */
  function Stored(bits: Bits, next: int): int {
    if next == LAST then EndMark(bits) else next
  }

  /** Two tables agree but for the half bytes of entry `c`. */
  ghost predicate OnlyEntry(t: seq<int>, r: seq<int>, bits: Bits, c: nat) {
    && |t| == |r|
    && match bits
       case Fat12 => forall i: nat :: i / 2 < |t| && !(3 * c <= i < 3 * c + 3) ==> Nibble(r, i) == Nibble(t, i)
       case _ => forall i :: 0 <= i < |t| && !(2 * c <= i < 2 * c + 2) ==> r[i] == t[i]
  }

  lemma OthersKept(t: seq<int>, r: seq<int>, bits: Bits, c: nat, d: nat)
    requires bits != Fat32 && OnlyEntry(t, r, bits, c) && c != d && Inside(t, bits, d)
    ensures Entry(r, bits, d) == Entry(t, bits, d)
  {
    if bits == Fat12 {
      NibblesOf(t, d);
      HalfIndex(t, d);
      assert Nibble(r, 3 * d) == Nibble(t, 3 * d);
      assert Nibble(r, 3 * d + 1) == Nibble(t, 3 * d + 1);
      assert Nibble(r, 3 * d + 2) == Nibble(t, 3 * d + 2);
    }
  }

  lemma HalfIndex(t: seq<int>, c: nat)
    requires c + c / 2 + 1 < |t|
    ensures 3 * c / 2 < |t| && (3 * c + 1) / 2 < |t| && (3 * c + 2) / 2 < |t|
  {
  }

  /** The two bytes of an entry changed as `fat12_set` does. */
  function After12(t: seq<int>, c: nat, v: int): (r: seq<int>)
    requires c / 2 * 3 + 3 <= |t|
    ensures |r| == |t|
  {
    var j := c / 2 * 3;
    if c % 2 == 1 then t[j + 2 := v / 16][j + 1 := t[j + 1] % 16 + 16 * (v % 16)]
    else t[j := v % 256][j + 1 := t[j + 1] / 16 * 16 + v / 256]
  }

  lemma Set12(t: seq<int>, c: nat, v: int)
    requires IsBytes(t) && c / 2 * 3 + 3 <= |t| && 0 <= v < 0x1000
    ensures var r := After12(t, c, v);
            c + c / 2 + 1 < |t| && IsBytes(r) && Entry(r, Fat12, c) == v && OnlyEntry(t, r, Fat12, c)
  {
    hide After12, Entry, Nibble, IsBytes;
    var r := After12(t, c, v);
    Set12Entry(t, c, v);
    forall i: nat | i / 2 < |t| && !(3 * c <= i < 3 * c + 3) ensures Nibble(r, i) == Nibble(t, i) {
      Set12Other(t, c, v, i);
    }
  }

  lemma Set12Entry(t: seq<int>, c: nat, v: int)
    requires IsBytes(t) && c / 2 * 3 + 3 <= |t| && 0 <= v < 0x1000
    ensures var r := After12(t, c, v); c + c / 2 + 1 < |t| && IsBytes(r) && Entry(r, Fat12, c) == v
  {
    NibblesOf(After12(t, c, v), c);
    if c % 2 == 1 {
      Set12Odd(t[c / 2 * 3 + 1], v);
    } else {
      Set12Even(t[c / 2 * 3 + 1], v);
    }
  }

  lemma Set12Odd(b: int, v: int)
    requires 0 <= b < 256 && 0 <= v < 0x1000
    ensures var x, y := v / 16, b % 16 + 16 * (v % 16);
            0 <= x < 256 && 0 <= y < 256 && y % 16 == b % 16 && y / 16 + 16 * (x % 16) + 256 * (x / 16) == v
  {
  }

  lemma Set12Even(b: int, v: int)
    requires 0 <= b < 256 && 0 <= v < 0x1000
    ensures var x, y := v % 256, b / 16 * 16 + v / 256;
            0 <= x < 256 && 0 <= y < 256 && y / 16 == b / 16 && x % 16 + 16 * (x / 16) + 256 * (y % 16) == v
  {
  }

  lemma Set12Other(t: seq<int>, c: nat, v: int, i: nat)
    requires IsBytes(t) && c / 2 * 3 + 3 <= |t| && 0 <= v < 0x1000
    requires i / 2 < |t| && !(3 * c <= i < 3 * c + 3)
    ensures Nibble(After12(t, c, v), i) == Nibble(t, i)
  {
    var j := c / 2 * 3;
    if c % 2 == 1 {
      Set12Odd(t[j + 1], v);
      assert 3 * c == 2 * (j + 1) + 1;
    } else {
      Set12Even(t[j + 1], v);
      assert 3 * c == 2 * j;
    }
  }

  /** The image as the tool holds it while it adds a file. */
  class Image {
    const data: array<int>
    const base: nat           // reserved_sector_count << 9
    const clusterCount: nat
    const bits: Bits

    constructor (data: array<int>, base: nat, clusterCount: nat, bits: Bits)
      ensures this.data == data && this.base == base && this.clusterCount == clusterCount && this.bits == bits
    {
      this.data, this.base, this.clusterCount, this.bits := data, base, clusterCount, bits;
    }

    /** The table lies in the image, and clusters can be numbered in its entries. */
    ghost predicate Good()
      reads data
    {
      && bits != Fat32 && base <= data.Length && IsBytes(data[..]) && clusterCount + 2 <= EndMark(bits)
      && base + (if bits == Fat12 then (clusterCount + 1) / 2 * 3 + 3 else 2 * clusterCount + 4) <= data.Length
    }

    predicate InRange(c: int) { 2 <= c < clusterCount + 2 }

    lemma EntryInside(c: int)
      requires Good() && InRange(c)
      ensures Inside(data[base..], bits, c)
      ensures bits == Fat12 ==> base + c / 2 * 3 + 3 <= data.Length
      ensures bits == Fat16 ==> base + 2 * c + 1 < data.Length
    {
      assert c / 2 <= (clusterCount + 1) / 2;
    }

    /** `fat12_get` and `fat16_get`, mkzip.py:179-195 and 216-221. */
    method FatGet(c: int) returns (r: Result)
      requires Good()
      ensures r == if InRange(c) && Inside(data[base..], bits, c) then Done(Entry(data[base..], bits, c)) else ValueError
      ensures InRange(c) <==> r.Done?
    {
      if !(2 <= c < clusterCount + 2) {
        return ValueError;
      }
      EntryInside(c);
      if bits == Fat12 {
        var j := base + c / 2 * 3;
        var x, y, z := data[j], data[j + 1], data[j + 2];
        NibblesOf(data[base..], c);
        if c % 2 == 1 {
          r := Done(z * 16 + y / 16);
        } else {
          r := Done(y % 16 * 256 + x);
        }
      } else {
        var j := base + 2 * c;
        r := Done(data[j] + 256 * data[j + 1]);
      }
    }

    /** `fat12_set` and `fat16_set`, mkzip.py:197-210 and 223-232. */
    method FatSet(c: int, next0: int) returns (r: Result)
      requires Good()
      modifies data
      ensures Good() && data[..base] == old(data[..base])
      ensures r.Done? <==> InRange(c) && (next0 == LAST || InRange(next0))
      ensures r.ValueError? ==> data[..] == old(data[..])
      ensures r.Done? ==>
                && Inside(data[base..], bits, c) && Entry(data[base..], bits, c) == Stored(bits, next0)
                && OnlyEntry(old(data[base..]), data[base..], bits, c)
    {
      if !(2 <= c < clusterCount + 2) {
        return ValueError;
      }
      var next := next0;
      if next == LAST {
        next := EndMark(bits);
      } else if !(2 <= next < clusterCount + 2) {
        return ValueError;
      }
      EntryInside(c);
      if bits == Fat12 {
        Set12(data[base..], c, next);
        Put12(c, next);
      } else {
        Put16(c, next);
      }
      r := Done(0);
    }

    method Put12(c: int, next: int)
      requires Good() && bits == Fat12 && InRange(c) && 0 <= next < 0x1000
      modifies data
      ensures Good() && data[..base] == old(data[..base])
      ensures c / 2 * 3 + 3 <= |old(data[base..])| && data[base..] == After12(old(data[base..]), c, next)
    {
      EntryInside(c);
      ghost var t, j0 := data[base..], c / 2 * 3;
      var j := base + c / 2 * 3;
      if c % 2 == 1 {
        Set12Odd(data[j + 1], next);
        data[j + 2] := next / 16;
        data[j + 1] := data[j + 1] % 16 + 16 * (next % 16);
      } else {
        Set12Even(data[j + 1], next);
        data[j] := next % 256;
        data[j + 1] := data[j + 1] / 16 * 16 + next / 256;
      }
      assert data[base..] == After12(t, c, next);
    }

    method Put16(c: int, next: int)
      requires Good() && bits == Fat16 && InRange(c) && 0 <= next < 0x1_0000
      modifies data
      ensures Good() && data[..base] == old(data[..base])
      ensures Inside(data[base..], Fat16, c) && Entry(data[base..], Fat16, c) == next
      ensures OnlyEntry(old(data[base..]), data[base..], Fat16, c)
    {
      EntryInside(c);
      var j := base + 2 * c;
      data[j + 1] := next / 256;
      data[j] := next % 256;
    }

    /** The allocation loop, mkzip.py:236-247: the last `n` clusters become one file. */
    method ChainFile(n: nat) returns (r: Result)
      requires Good()
      modifies data
      ensures Good() && data[..base] == old(data[..base])
      ensures forall d :: InRange(d) && !(clusterCount + 2 - n <= d) ==> EntryAt(d) == old(EntryAt(d))
      ensures r.Done? <==> (forall d :: clusterCount + 2 - n <= d < clusterCount + 2 ==> InRange(d) && old(EntryAt(d)) == 0)
      ensures r.Done? ==> Chained(data[base..], bits, clusterCount + 2 - n, n)
    {
      hide Entry, OnlyEntry, Inside;
      var start := clusterCount + 2 - n;
      var last := start + n - 1;
      var i := start;
      while i < last + 1
        invariant start <= i <= last + 1 && Good() && data[..base] == old(data[..base])
        invariant forall d :: start <= d < i ==> InRange(d) && old(EntryAt(d)) == 0 && EntryAt(d) == Successor(bits, last, d)
        invariant forall d :: InRange(d) && !(start <= d < i) ==> EntryAt(d) == old(EntryAt(d))
      {
        var e := FatGet(i);
        if e == ValueError {
          return ValueError;
        }
        EntryIs(i);
        if e.value != 0 {
          return ValueError;
        }
        ghost var t := data[base..];
        var s := FatSet(i, if i == last then LAST else i + 1);
        OthersSame(t, i);
        i := i + 1;
      }
      AllChained(start, n);
      r := Done(0);
    }

    ghost function EntryAt(d: int): int
      requires Good()
      reads data
    {
      if InRange(d) && Inside(data[base..], bits, d) then Entry(data[base..], bits, d) else 0
    }

    lemma EntryIs(d: int)
      requires Good() && InRange(d)
      ensures Inside(data[base..], bits, d) && EntryAt(d) == Entry(data[base..], bits, d)
    {
      EntryInside(d);
    }

    lemma OthersSame(t: seq<int>, c: nat)
      requires Good() && InRange(c) && OnlyEntry(t, data[base..], bits, c)
      ensures forall d :: InRange(d) && d != c ==> Inside(t, bits, d) && EntryAt(d) == Entry(t, bits, d)
    {
      forall d | InRange(d) && d != c ensures Inside(t, bits, d) && EntryAt(d) == Entry(t, bits, d) {
        EntryInside(d);
        OthersKept(t, data[base..], bits, c, d);
      }
    }

    lemma AllChained(start: int, n: nat)
      requires Good() && start == clusterCount + 2 - n
      requires forall d :: start <= d < start + n ==> InRange(d) && EntryAt(d) == Successor(bits, start + n - 1, d)
      ensures Chained(data[base..], bits, start, n)
    {
      var last := start + n - 1;
      forall d | start <= d <= last ensures Linked(data[base..], bits, last, d) {
        assert InRange(d) && EntryAt(d) == Successor(bits, start + n - 1, d);
        EntryIs(d);
      }
    }
  }

  function Successor(bits: Bits, last: int, d: int): int {
    if d == last then EndMark(bits) else d + 1
  }

  /** The `n` clusters from `start` on point each to the next one, the last to an end mark. */
  ghost predicate Chained(t: seq<int>, bits: Bits, start: int, n: nat) {
    LinkedUpTo(t, bits, start, start + n - 1)
  }

  ghost predicate LinkedUpTo(t: seq<int>, bits: Bits, start: int, last: int) {
    forall d :: start <= d <= last ==> Linked(t, bits, last, d)
  }

  ghost predicate Linked(t: seq<int>, bits: Bits, last: int, d: int) {
    d >= 0 && Inside(t, bits, d) && Entry(t, bits, d) == Successor(bits, last, d)
  }

  // ---------- reader and writer together

  /** The file system whose clusters follow one another as `t` has them. */
  ghost predicate Mounted(sb: F.FatSb, t: seq<int>, bits: Bits) {
    forall c: nat :: Inside(t, bits, c) ==> sb.next(c) == Entry(t, bits, c)
  }

  /** The boot loader follows exactly the clusters the tool chained, and then meets an end mark. */
  lemma {:induction false} ReaderWalks(sb: F.FatSb, t: seq<int>, bits: Bits, start: int, n: nat, k: nat)
    requires Mounted(sb, t, bits) && Chained(t, bits, start, n) && k < n && 2 <= start && bits != Fat32
    ensures F.Chain(sb, start, k) == start + k
    ensures F.Chain(sb, start, n) == EndMark(bits)
    decreases k, 1
  {
    WalkTo(sb, t, bits, start, n, k);
    WalkTo(sb, t, bits, start, n, n - 1);
    assert Linked(t, bits, start + n - 1, start + n - 1);
  }

  lemma {:induction false} WalkTo(sb: F.FatSb, t: seq<int>, bits: Bits, start: int, n: nat, k: nat)
    requires Mounted(sb, t, bits) && Chained(t, bits, start, n) && k < n && 2 <= start
    ensures F.Chain(sb, start, k) == start + k
    decreases k
  {
    if k > 0 {
      WalkTo(sb, t, bits, start, n, k - 1);
      assert Linked(t, bits, start + n - 1, start + k - 1);
    }
  }

  /** The chain is sound for the loader exactly when the end mark is no cluster number. */
  lemma EndRecognised(sb: F.FatSb, t: seq<int>, bits: Bits, start: int, n: nat)
    requires Mounted(sb, t, bits) && Chained(t, bits, start, n) && 0 < n && 2 <= start && bits != Fat32
    requires start + n <= sb.clusters + 2
    ensures F.ChainValid(sb, start, n)
    ensures !F.Valid(sb, F.Chain(sb, start, n)) <==> sb.clusters + 2 <= EndMark(bits)
  {
    forall k: nat | k < n ensures F.Valid(sb, F.Chain(sb, start, k)) {
      ReaderWalks(sb, t, bits, start, n, k);
    }
    ReaderWalks(sb, t, bits, start, n, 0);
  }

  /** On a volume whose table has the type that the loader takes it for, the tool's mark always ends the chain. */
  lemma MountedEnds(sb: F.FatSb, t: seq<int>, bits: Bits, start: int, n: nat)
    requires Mounted(sb, t, bits) && Chained(t, bits, start, n) && 0 < n && 2 <= start && bits != Fat32
    requires start + n <= sb.clusters + 2 && F.BitsFor(sb.clusters) == bits
    ensures F.ChainValid(sb, start, n) && !F.Valid(sb, F.Chain(sb, start, n))
  {
    EndRecognised(sb, t, bits, start, n);
  }

  /** Reading a chained file, the loader finds it on the disk in one piece. */
  lemma FileMapped(sb: F.FatSb, table: Table, start: int, n: nat, i: nat)
    requires F.GoodSb(sb) && F.Reads(sb, table) && table.bits != Fat32
    requires Chained(table.t, table.bits, start, n) && 2 <= start && i < n * sb.clusterSecs
    ensures F.FatMap(sb, start, n)[i] == At(F.ClusterSector(sb, start) + i)
  {
    hide F.GoodSb, Entry, Inside;
    var cs := sb.clusterSecs;
    QuotientBelow(i, n, cs);
    Quotient(i, cs);
    assert Mounted(sb, table.t, table.bits);
    ReaderWalks(sb, table.t, table.bits, start, n, i / cs);
    Distribute(start - 2, i / cs, cs);
    assert F.FatMap(sb, start, n)[i] == F.FatPlace(sb, start, i);
  }
}
