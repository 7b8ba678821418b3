/**
 The file allocation table as bytes, and the boot loader's reader of it (fat.c:31-84), which
 goes through the block cache.
 */
module FatTable {
  import C = Cache
  import opened Shift
  import opened LittleEndian

  const WORD: int := 0x1_0000_0000

  datatype Bits = Fat12 | Fat16 | Fat32

  predicate IsBytes(t: seq<int>) {
    forall i :: 0 <= i < |t| ==> 0 <= t[i] < 256
  }

  // ---------- what a table entry is

  /** The table as a row of half bytes, low half first. */
  function Nibble(t: seq<int>, i: nat): int
    requires i / 2 < |t|
  {
    if i % 2 == 0 then t[i / 2] % 16 else t[i / 2] / 16
  }

  /** The bytes that the entry of a cluster lies in. */
  predicate Inside(t: seq<int>, bits: Bits, c: nat) {
    match bits
    case Fat12 => c + c / 2 + 1 < |t|
    case Fat16 => 2 * c + 1 < |t|
    case Fat32 => 4 * c + 3 < |t|
  }

  /** Entry number `c`: three, four or seven half bytes. */
  function Entry(t: seq<int>, bits: Bits, c: nat): int
    requires Inside(t, bits, c)
  {
    match bits
    case Fat12 => Nibble(t, 3 * c) + 16 * Nibble(t, 3 * c + 1) + 256 * Nibble(t, 3 * c + 2)
    case Fat16 => t[2 * c] + 256 * t[2 * c + 1]
    case Fat32 => t[4 * c] + 0x100 * t[4 * c + 1] + 0x1_0000 * t[4 * c + 2] + 0x100_0000 * (t[4 * c + 3] % 16)
  }

  lemma NibblesOf(t: seq<int>, c: nat)
    requires c + c / 2 + 1 < |t|
    ensures var j := c / 2 * 3;
            Entry(t, Fat12, c) == if c % 2 == 0 then t[j] % 16 + 16 * (t[j] / 16) + 256 * (t[j + 1] % 16)
                                  else t[j + 1] / 16 + 16 * (t[j + 2] % 16) + 256 * (t[j + 2] / 16)
    ensures c + c / 2 == c / 2 * 3 + c % 2
  {
    var k := c / 2;
    if c % 2 == 0 {
      assert 3 * c == 2 * (3 * k) && (3 * c) / 2 == 3 * k && (3 * c + 1) / 2 == 3 * k && (3 * c + 2) / 2 == 3 * k + 1;
    } else {
      assert 3 * c == 2 * (3 * k + 1) + 1;
      assert (3 * c) / 2 == 3 * k + 1 && (3 * c + 1) / 2 == 3 * k + 2 && (3 * c + 2) / 2 == 3 * k + 2;
    }
  }

  /** A FAT32 entry is written in four bytes, of which the top four bits are not its own. */
  lemma Written32(t: seq<int>, c: nat, v: nat)
    requires v < WORD && Holds(t, 4 * c, Le(v, 4))
    ensures Inside(t, Fat32, c) && Entry(t, Fat32, c) == v % 0x1000_0000
  {
    FourBytes(t, 4 * c, v);
    Digits(v);
  }

  lemma FourBytes(t: seq<int>, at: nat, v: nat)
    requires Holds(t, at, Le(v, 4))
    ensures at + 3 < |t| && t[at] == v % 256 && t[at + 1] == v / 256 % 256
    ensures t[at + 2] == v / 256 / 256 % 256 && t[at + 3] == v / 256 / 256 / 256 % 256
  {
    var s := t[at..at + 4];
    assert s == Le(v, 4);
    assert s[0] == t[at] && s[1] == t[at + 1] && s[2] == t[at + 2] && s[3] == t[at + 3];
  }

  lemma Digits(v: nat)
    requires v < WORD
    ensures v % 256 + 0x100 * (v / 256 % 256) + 0x1_0000 * (v / 256 / 256 % 256) + 0x100_0000 * (v / 256 / 256 / 256 % 256 % 16)
         == v % 0x1000_0000
  {
    var a := v / 256;
    var b := a / 256;
    var c := b / 256;
    DigitsSum(v, a, b, c, v % 256, a % 256, b % 256);
  }

  lemma DigitsSum(v: nat, a: nat, b: nat, c: nat, x: nat, y: nat, z: nat)
    requires v == 256 * a + x && a == 256 * b + y && b == 256 * c + z && x < 256 && y < 256 && z < 256 && v < WORD
    ensures c < 256 && x + 0x100 * y + 0x1_0000 * z + 0x100_0000 * (c % 256 % 16) == v % 0x1000_0000
  {
    var h, l := c / 16, c % 16;
    assert c == 16 * h + l;
    DivUnique(v, 0x1000_0000, h, x + 0x100 * y + 0x1_0000 * z + 0x100_0000 * l);
  }

  /** A FAT16 entry is written in two bytes. */
  lemma Written16(t: seq<int>, c: nat, v: nat)
    requires v < 0x1_0000 && Holds(t, 2 * c, Le(v, 2))
    ensures Inside(t, Fat16, c) && Entry(t, Fat16, c) == v
  {
    var s := t[2 * c..2 * c + 2];
    assert s == Le(v, 2);
    assert s[0] == t[2 * c] && s[1] == t[2 * c + 1];
  }

  /** Two FAT12 entries, the first with an even number, are written as one number of three bytes. */
  lemma Written12(t: seq<int>, k: nat, v: nat, w: nat)
    requires v < 0x1000 && w < 0x1000 && Holds(t, 3 * k, Le(v + 0x1000 * w, 3))
    ensures Inside(t, Fat12, 2 * k) && Inside(t, Fat12, 2 * k + 1)
    ensures Entry(t, Fat12, 2 * k) == v && Entry(t, Fat12, 2 * k + 1) == w
  {
    hide Entry, Nibble;
    var x := v + 0x1000 * w;
    var s := t[3 * k..3 * k + 3];
    assert s == Le(x, 3);
    assert s[0] == t[3 * k] && s[1] == t[3 * k + 1] && s[2] == t[3 * k + 2];
    NibblesOf(t, 2 * k);
    NibblesOf(t, 2 * k + 1);
    Halves12(v, w);
  }

  lemma Halves12(v: nat, w: nat)
    requires v < 0x1000 && w < 0x1000
    ensures var x := v + 0x1000 * w;
            var a, b, c := x % 256, x / 256 % 256, x / 256 / 256 % 256;
            a % 16 + 16 * (a / 16) + 256 * (b % 16) == v && b / 16 + 16 * (c % 16) + 256 * (c / 16) == w
  {
    var x := v + 0x1000 * w;
    assert x / 256 == v / 256 + 16 * w;
    assert x / 256 / 256 == w / 16;
  }

  // ---------- the reader

  /** One sector of the table, through the cache. */
  function FatSector(t: seq<int>, ss: nat, sector: nat): (d: seq<int>)
    requires sector * ss + ss <= |t|
    ensures |d| == ss
  {
    t[sector * ss..sector * ss + ss]
  }

  /** The sector of the table a byte lies in, and where in it (fat.c:44-45). */
  function SectorOf(offset: nat, ss: nat): (q: nat)
    requires ss > 0
  {
    DivNonneg(offset, ss);
    offset / ss
  }

  function Within(offset: nat, ss: nat): (r: nat)
    requires ss > 0
    ensures r < ss
  {
    offset % ss
  }

  lemma SectorByte(t: seq<int>, ss: nat, offset: nat)
    requires ss > 0 && |t| % ss == 0 && offset < |t|
    ensures SectorOf(offset, ss) * ss + ss <= |t|
    ensures FatSector(t, ss, SectorOf(offset, ss))[Within(offset, ss)] == t[offset]
    ensures Within(offset, ss) + 1 == ss && offset + 1 < |t| ==>
              SectorOf(offset + 1, ss) == SectorOf(offset, ss) + 1 && Within(offset + 1, ss) == 0
  {
    SectorFits(|t|, ss, offset);
    NextSector(offset, ss);
    var q, r := SectorOf(offset, ss), Within(offset, ss);
    Quotient(offset, ss);
    InSlice(t, q * ss, ss, r);
  }

  lemma InSlice(t: seq<int>, at: nat, n: nat, r: nat)
    requires at + n <= |t| && r < n
    ensures t[at..at + n][r] == t[at + r]
  {
  }

  /** A table of whole sectors holds the whole sector of each of its bytes. */
  lemma SectorFits(len: nat, ss: nat, offset: nat)
    requires ss > 0 && len % ss == 0 && offset < len
    ensures SectorOf(offset, ss) * ss + ss <= len
  {
    Quotient(len, ss);
    DivNonneg(len, ss);
    QuotientBelow(offset, len / ss, ss);
    var q := SectorOf(offset, ss);
    MulMono(q + 1, len / ss, ss);
    Distribute(q, 1, ss);
  }

  lemma NextSector(offset: nat, ss: nat)
    requires ss > 0
    ensures Within(offset, ss) + 1 == ss ==> SectorOf(offset + 1, ss) == SectorOf(offset, ss) + 1 && Within(offset + 1, ss) == 0
  {
    Quotient(offset, ss);
    var q := SectorOf(offset, ss);
    if Within(offset, ss) + 1 == ss {
      Distribute(q, 1, ss);
      DivUnique(offset + 1, ss, q + 1, 0);
    }
  }

  /** An entry aligned to its size does not straddle two sectors. */
  lemma Even(offset: nat, ss: nat, u: nat)
    requires ss > 0 && (u == 2 || u == 4) && ss % 4 == 0 && offset % u == 0
    ensures Within(offset, ss) + u <= ss
  {
    Quotient(offset, ss);
    Quotient(ss, 4);
    Quotient(offset, u);
    var q, r := offset / ss, offset % ss;
    var e := ss / 4 * (4 / u);
    assert ss == e * u;
    assert q * ss == q * e * u;
    var d := offset / u - q * e;
    Distribute(offset / u, -(q * e), u);
    assert r == d * u;
    if d >= e { MulMono(e, d, u); }
    MulMono(d, e - 1, u);
    Distribute(e, -1, u);
  }

  /** A byte further on in the same sector. */
  lemma Straight(t: seq<int>, ss: nat, offset: nat, d: nat)
    requires ss > 0 && |t| % ss == 0 && offset < |t| && Within(offset, ss) + d < ss
    ensures SectorOf(offset, ss) * ss + ss <= |t| && offset + d < |t|
    ensures FatSector(t, ss, SectorOf(offset, ss))[Within(offset, ss) + d] == t[offset + d]
  {
    SectorByte(t, ss, offset);
    Quotient(offset, ss);
  }

  lemma Halves(a: int, b: int)
    requires 0 <= a < 256 && 0 <= b < 256
    ensures (a + 256 * b) / 16 == a / 16 + 16 * (b % 16) + 256 * (b / 16)
    ensures (a + 256 * b) % 0x1000 == a % 16 + 16 * (a / 16) + 256 * (b % 16)
  {
  }

  lemma TopNibble(a: int, b: int, c: int, d: int)
    requires 0 <= a < 256 && 0 <= b < 256 && 0 <= c < 256 && 0 <= d < 256
    ensures (a + 0x100 * b + 0x1_0000 * c + 0x100_0000 * d) % 0x1000_0000 == a + 0x100 * b + 0x1_0000 * c + 0x100_0000 * (d % 16)
  {
  }

  /** The table of a mounted file system: sectors from `fat` on, read through the cache. */
  class Table {
    const dev: C.Device
    const fat: nat
    const ss: nat
    const bits: Bits
    const t: seq<int>
    // What a look-up outside the table finds.
    const beyond: int -> int

    constructor (dev: C.Device, fat: nat, ss: nat, bits: Bits, t: seq<int>, beyond: int -> int)
      requires dev.Ready() && ss > 0 && ss % 4 == 0 && |t| % ss == 0 && |t| <= WORD && IsBytes(t)
      requires forall q: nat :: q * ss + ss <= |t| ==> dev.disk(fat + q) == FatSector(t, ss, q)
      ensures Valid() && this.dev == dev && this.fat == fat && this.ss == ss
      ensures this.t == t && this.bits == bits && this.beyond == beyond
    {
      this.dev, this.fat, this.ss, this.bits, this.t, this.beyond := dev, fat, ss, bits, t, beyond;
    }

    ghost function Repr(): set<object> { dev.Repr() }

    /** The sectors of the table are on the disk. */
    ghost predicate OnDisk()
      requires ss > 0
    {
      forall q: nat :: InTable(q) ==> dev.disk(fat + q) == FatSector(t, ss, q)
    }

    predicate InTable(q: nat) { q * ss + ss <= |t| }

    ghost predicate Valid()
      reads Repr()
    {
      && dev.Ready()
      && ss > 0 && ss % 4 == 0 && |t| % ss == 0 && |t| <= WORD && IsBytes(t) && OnDisk()
    }

    /** The successor of cluster `c`. */
    function Next(c: int): int {
      if c >= 0 && Inside(t, bits, c) then Entry(t, bits, c) else beyond(c)
    }

    /** `get_cache` of a sector of the table. */
    method Sector(q: nat) returns (d: seq<int>)
      requires Valid() && q * ss + ss <= |t|
      modifies Repr()
      ensures Valid() && d == FatSector(t, ss, q)
    {
      hide C.Device.Valid, IsBytes, FatSector;
      assert InTable(q);
      d := dev.GetCache(fat + q);
    }

    /** Lines 49-58: two bytes that may lie in two sectors. */
    method TwoBytes(offset: nat) returns (next: int)
      requires Valid() && offset + 1 < |t|
      modifies Repr()
      ensures Valid() && next == t[offset] + 256 * t[offset + 1]
    {
      hide FatSector, SectorOf, Within, C.Device.Valid, IsBytes;
      SectorByte(t, ss, offset);
      SectorByte(t, ss, offset + 1);
      var fatSector := SectorOf(offset, ss);
      var off := Within(offset, ss);
      var data := Sector(fatSector);
      if off == ss - 1 {
        next := data[off];
        data := Sector(fatSector + 1);
        next := next + data[0] * 256;
      } else {
        Straight(t, ss, offset, 1);
        next := data[off] + 256 * data[off + 1];
      }
    }

    method Next12(c: nat) returns (next: int)
      requires Valid() && Inside(t, Fat12, c)
      modifies Repr()
      ensures Valid() && next == Entry(t, Fat12, c)
    {
      hide Entry, C.Device.Valid;
      var offset := c + c / 2;
      NibblesOf(t, c);
      Halves(t[offset], t[offset + 1]);
      next := TwoBytes(offset);
      if c % 2 == 1 {
        next := next / 16;
      } else {
        next := next % 0x1000;
      }
    }

    method Next16(c: nat) returns (next: int)
      requires Valid() && Inside(t, Fat16, c)
      modifies Repr()
      ensures Valid() && next == Entry(t, Fat16, c)
    {
      hide FatSector, SectorOf, Within, C.Device.Valid;
      var offset := 2 * c;
      SectorByte(t, ss, offset);
      Even(offset, ss, 2);
      Straight(t, ss, offset, 1);
      var data := Sector(SectorOf(offset, ss));
      next := data[Within(offset, ss)] + 256 * data[Within(offset, ss) + 1];
    }

    method Next32(c: nat) returns (next: int)
      requires Valid() && Inside(t, Fat32, c)
      modifies Repr()
      ensures Valid() && next == Entry(t, Fat32, c)
    {
      hide FatSector, SectorOf, Within, C.Device.Valid;
      var offset := 4 * c;
      SectorByte(t, ss, offset);
      Even(offset, ss, 4);
      Straight(t, ss, offset, 1);
      Straight(t, ss, offset, 2);
      Straight(t, ss, offset, 3);
      var data := Sector(SectorOf(offset, ss));
      var at := Within(offset, ss);
      TopNibble(t[offset], t[offset + 1], t[offset + 2], t[offset + 3]);
      next := data[at] + 0x100 * data[at + 1] + 0x1_0000 * data[at + 2] + 0x100_0000 * data[at + 3];
      next := next % 0x1000_0000;
    }

    /** `get_next_cluster`, fat.c:31-84, reading the table sector by sector through the cache. */
    method GetNextCluster(c: int) returns (next: int)
      requires Valid()
      modifies Repr()
      ensures Valid() && next == Next(c)
    {
      hide C.Device.Valid, Entry;
      if !(c >= 0 && Inside(t, bits, c)) {
        return beyond(c);
      }
      match bits
      case Fat12 => next := Next12(c);
      case Fat16 => next := Next16(c);
      case Fat32 => next := Next32(c);
    }
  }
}
