/**
 Checksum shortcuts: the table-driven CRC-32C of btrfs (crc32c.h) and the combination of two
 Adler-32 sums (tools/upxbc).
 */
module Checksums {
  import opened Shift

  // ---------- CRC-32C, one bit at a time

  const POLY: bv32 := 0x82F63B78   // bit-reflected CRC32C polynomial

  function Xor(a: bv32, b: bv32): bv32 { a ^ b }

  function Low(x: bv32): bv32 { x & 1 }

  function Half(x: bv32): bv32 { x >> 1 }

  /** One message bit is shifted in (section 12.1 of RFC 3720, bits reflected). */
  function FeedBit(crc: bv32, bit: bv32): bv32 {
    Xor(Half(crc), if Low(Xor(crc, bit)) == 1 then POLY else 0)
  }

  function FeedBits(crc: bv32, b: bv32, n: nat): bv32
    decreases n
  {
    if n == 0 then crc else FeedBits(FeedBit(crc, Low(b)), Half(b), n - 1)
  }

  /** The reference: every byte of the message bit by bit, lowest bit first. */
  function Crc(crc: bv32, data: seq<bv8>): bv32
    decreases |data|
  {
    if data == [] then crc else Crc(FeedBits(crc, data[0] as bv32, 8), data[1..])
  }

  lemma {:induction false} CrcAppend(crc: bv32, a: seq<bv8>, b: seq<bv8>)
    ensures Crc(crc, a + b) == Crc(Crc(crc, a), b)
    decreases |a|
  {
    if a == [] {
      assert a + b == b;
    } else {
      assert (a + b)[1..] == a[1..] + b;
      CrcAppend(FeedBits(crc, a[0] as bv32, 8), a[1..], b);
    }
  }

  // ---------- a known sum

  lemma FeedOne(crc: bv32, b: bv32, n: nat, next: bv32, rest: bv32)
    requires FeedBit(crc, Low(b)) == next && Half(b) == rest
    ensures FeedBits(crc, b, n + 1) == FeedBits(next, rest, n)
  {
  }

  /** The CRC-32C of the letter a is c1d04330. */
  lemma SumOfA()
    ensures Xor(Crc(0xffff_ffff, [0x61]), 0xffff_ffff) == 0xc1d0_4330
  {
    FeedOne(0x7c5f_799e, 0x00, 0, 0x3e2f_bccf, 0x00);
    FeedOne(0xf8be_f33d, 0x01, 1, 0x7c5f_799e, 0x00);
    FeedOne(0xf491_908a, 0x03, 2, 0xf8be_f33d, 0x01);
    FeedOne(0xeccf_57e5, 0x06, 3, 0xf491_908a, 0x03);
    FeedOne(0xdc72_d93b, 0x0c, 4, 0xeccf_57e5, 0x06);
    FeedOne(0xbd09_c487, 0x18, 5, 0xdc72_d93b, 0x0c);
    FeedOne(0x7fff_ffff, 0x30, 6, 0xbd09_c487, 0x18);
    FeedOne(0xffff_ffff, 0x61, 7, 0x7fff_ffff, 0x30);
    Alone(0xffff_ffff, 0x61);
  }

  lemma Alone(crc: bv32, b: bv8)
    ensures Crc(crc, [b]) == FeedBits(crc, b as bv32, 8)
  {
    assert [b][1..] == [];
  }

  // ---------- the shortcut

  /** One turn of the inner loop of the table set-up (line 45). */
  function Step(v: bv32): bv32 {
    Xor(Half(v), if Low(v) == 1 then POLY else 0)
  }

  function Steps(v: bv32, n: nat): bv32
    decreases n
  {
    if n == 0 then v else Steps(Step(v), n - 1)
  }

  function Halves(x: bv32, n: nat): bv32
    decreases n
  {
    if n == 0 then x else Halves(Half(x), n - 1)
  }

  lemma HalfXor(a: bv32, b: bv32)
    ensures Half(Xor(a, b)) == Xor(Half(a), Half(b))
  {
  }

  lemma LowXor(a: bv32, b: bv32)
    ensures Low(Xor(a, b)) == 1 <==> (Low(a) == 1) != (Low(b) == 1)
    ensures Low(Xor(a, Low(b))) == Low(Xor(a, b))
  {
  }

  lemma XorAssoc(a: bv32, b: bv32, c: bv32)
    ensures Xor(a, Xor(b, c)) == Xor(Xor(a, b), c)
  {
  }

  lemma XorComm(a: bv32, b: bv32)
    ensures Xor(a, b) == Xor(b, a) && Xor(a, 0) == a && Xor(a, a) == 0
  {
  }

  lemma XorFacts(a: bv32, b: bv32, c: bv32)
    ensures Xor(Xor(a, b), c) == Xor(Xor(a, c), b) && Xor(Xor(a, c), Xor(b, c)) == Xor(a, b)
    ensures Xor(a, Xor(b, c)) == Xor(Xor(a, b), c) && Xor(a, b) == Xor(b, a) && Xor(a, 0) == a && Xor(a, a) == 0
  {
    hide Xor;
    XorAssoc(a, b, c);
    XorAssoc(a, c, b);
    XorComm(a, b);
    XorComm(a, a);
    XorComm(b, c);
    XorAssoc(a, c, Xor(b, c));
    XorAssoc(c, c, b);
    XorComm(c, c);
    XorComm(b, 0);
  }

  lemma StepLinear(a: bv32, b: bv32)
    ensures Step(Xor(a, b)) == Xor(Step(a), Step(b))
  {
    hide Xor, Half, Low;
    HalfXor(a, b);
    LowXor(a, b);
    var x, y := Half(a), Half(b);
    XorFacts(x, y, POLY);
    XorFacts(x, y, 0);
    XorFacts(x, 0, 0);
    XorFacts(y, 0, 0);
    XorFacts(x, POLY, y);
    XorFacts(Xor(x, y), 0, 0);
  }

  lemma StepFeeds(c: bv32, x: bv32)
    ensures Step(Xor(c, x)) == Xor(FeedBit(c, Low(x)), Half(x))
  {
    hide Xor, Half, Low;
    HalfXor(c, x);
    LowXor(c, x);
    var p: bv32 := if Low(Xor(c, x)) == 1 then POLY else 0;
    XorFacts(Half(c), Half(x), p);
  }

  /** Taking the byte in at once and then stepping is feeding its bits. */
  lemma {:induction false} StepsFeed(c: bv32, x: bv32, n: nat)
    ensures Steps(Xor(c, x), n) == Xor(FeedBits(c, x, n), Halves(x, n))
    decreases n
  {
    hide Xor, Half, Low, Step, FeedBit;
    if n > 0 {
      StepFeeds(c, x);
      StepsFeed(FeedBit(c, Low(x)), Half(x), n - 1);
    }
  }

  lemma {:induction false} StepsLinear(a: bv32, b: bv32, n: nat)
    ensures Steps(Xor(a, b), n) == Xor(Steps(a, n), Steps(b, n))
    decreases n
  {
    hide Xor, Step;
    if n > 0 {
      StepLinear(a, b);
      StepsLinear(Step(a), Step(b), n - 1);
    }
  }

  /** Stepping a value whose low bits are clear only shifts it. */
  lemma {:induction false} StepsClear(x: bv32, n: nat)
    requires forall k: nat :: k < n ==> Low(Halves(x, k)) == 0
    ensures Steps(x, n) == Halves(x, n)
    decreases n
  {
    hide Xor, Half, Low;
    if n > 0 {
      assert Low(Halves(x, 0)) == 0;
      XorFacts(Half(x), 0, 0);
      forall k: nat | k < n - 1 ensures Low(Halves(Half(x), k)) == 0 {
        assert Low(Halves(x, k + 1)) == 0;
      }
      StepsClear(Half(x), n - 1);
    }
  }

  function LowByte(x: bv32): bv32 { x & 0xff }

  function HighBytes(x: bv32): bv32 { x & 0xffffff00 }

  lemma SplitByte(x: bv32)
    ensures x == Xor(LowByte(x), HighBytes(x))
  {
  }

  lemma {:induction false} HalvesLast(x: bv32, n: nat)
    ensures Halves(x, n + 1) == Half(Halves(x, n))
    decreases n
  {
    hide Half;
    if n > 0 {
      HalvesLast(Half(x), n - 1);
    }
  }

  /** Up to eight halvings are one shift. */
  lemma HalvesShift(x: bv32)
    ensures Halves(x, 0) == x && Halves(x, 1) == x >> 1 && Halves(x, 2) == x >> 2 && Halves(x, 3) == x >> 3
    ensures Halves(x, 4) == x >> 4 && Halves(x, 5) == x >> 5 && Halves(x, 6) == x >> 6 && Halves(x, 7) == x >> 7
    ensures Halves(x, 8) == x >> 8
  {
    hide Halves, Half;
    HalvesZero(x);
    HalvesLast(x, 0);
    HalvesLast(x, 1);
    HalvesLast(x, 2);
    HalvesLast(x, 3);
    HalvesLast(x, 4);
    HalvesLast(x, 5);
    HalvesLast(x, 6);
    HalvesLast(x, 7);
    HalfShifts(x);
  }

  lemma HalvesZero(x: bv32)
    ensures Halves(x, 0) == x
  {
  }

  lemma HalfShifts(x: bv32)
    ensures Half(x) == x >> 1 && Half(x >> 1) == x >> 2 && Half(x >> 2) == x >> 3 && Half(x >> 3) == x >> 4
    ensures Half(x >> 4) == x >> 5 && Half(x >> 5) == x >> 6 && Half(x >> 6) == x >> 7 && Half(x >> 7) == x >> 8
  {
  }

  lemma HighBits(x: bv32)
    ensures var h := HighBytes(x);
            && Low(h) == 0 && Low(h >> 1) == 0 && Low(h >> 2) == 0 && Low(h >> 3) == 0
            && Low(h >> 4) == 0 && Low(h >> 5) == 0 && Low(h >> 6) == 0 && Low(h >> 7) == 0 && h >> 8 == x >> 8
  {
  }

  lemma HighClear(x: bv32)
    ensures forall k: nat :: k < 8 ==> Low(Halves(HighBytes(x), k)) == 0
    ensures Halves(HighBytes(x), 8) == x >> 8
  {
    hide Halves, Low, HighBytes;
    HalvesShift(HighBytes(x));
    HighBits(x);
  }

  /** The shortcut of line 32: eight steps are a table look-up and a shift. */
  lemma EightSteps(x: bv32)
    ensures Steps(x, 8) == Xor(Steps(LowByte(x), 8), x >> 8)
  {
    hide Xor, LowByte, HighBytes, Steps, Halves, Low;
    SplitByte(x);
    HighClear(x);
    StepsLinear(LowByte(x), HighBytes(x), 8);
    StepsClear(HighBytes(x), 8);
  }

  lemma ByteGone(b: bv8)
    ensures Halves(b as bv32, 8) == 0
  {
    hide Halves;
    HalvesShift(b as bv32);
  }

  /** One byte of the message: table and shift against bit by bit. */
  lemma TableByte(crc: bv32, b: bv8)
    ensures Xor(Steps(LowByte(Xor(crc, b as bv32)), 8), crc >> 8) == FeedBits(crc, b as bv32, 8)
  {
    hide Steps, Halves, LowByte, FeedBits;
    var x := b as bv32;
    EightSteps(Xor(crc, x));
    StepsFeed(crc, x, 8);
    ByteGone(b);
    XorComm(FeedBits(crc, x, 8), 0);
    ShiftedXor(crc, b);
  }

  lemma ShiftedXor(crc: bv32, b: bv8)
    ensures Xor(crc, b as bv32) >> 8 == crc >> 8
  {
  }

  // ---------- the code

  function Word(i: int): bv32
    requires 0 <= i < 256
  {
    i as bv32
  }

  function Index(x: bv32): (i: int)
    ensures 0 <= i < 256 && Word(i) == LowByte(x)
  {
    IndexOk(x);
    LowByte(x) as int
  }

  lemma IndexOk(x: bv32)
    ensures LowByte(x) < 256 && (LowByte(x) as int) < 256 && (LowByte(x) as int) as bv32 == LowByte(x)
  {
    LowByteSmall(x);
    Small(LowByte(x));
  }

  lemma LowByteSmall(x: bv32)
    ensures LowByte(x) < 256
  {
  }

  lemma Small(x: bv32)
    requires x < 256
    ensures (x as int) < 256 && (x as int) as bv32 == x
  {
  }

  /** The finished table. */
  ghost predicate TableOk(t: seq<bv32>) {
    |t| == 256 && forall k :: 0 <= k < 256 ==> t[k] == Steps(Word(k), 8)
  }

  /** The inner loop, lines 43-46. */
  method TableEntry(i: int) returns (v: bv32)
    requires 0 <= i < 256
    ensures v == Steps(Word(i), 8)
  {
    hide Xor, Half, Low, Word, Step;
    v := Word(i);
    var j := 0;
    while j < 8
      invariant 0 <= j <= 8 && Steps(v, 8 - j) == Steps(Word(i), 8)
    {
      StepsFirst(v, 8 - j);
      StepIs(v);
      v := Xor(Half(v), if Low(v) == 1 then POLY else 0);
      j := j + 1;
    }
    StepsNone(v, 8 - j);
  }

  /** `btrfs_init_crc32c`, crc32c.h:37-50. */
  method InitCrc32c(table: array<bv32>)
    requires table.Length == 256
    modifies table
    ensures TableOk(table[..])
  {
    hide Word, Steps;
    var i := 0;
    while i < 256
      invariant 0 <= i <= 256
      invariant forall k :: 0 <= k < i ==> table[k] == Steps(Word(k), 8)
    {
      var v := TableEntry(i);
      table[i] := v;
      i := i + 1;
    }
  }

  lemma StepsFirst(v: bv32, n: nat)
    requires n > 0
    ensures Steps(v, n) == Steps(Step(v), n - 1)
  {
  }

  lemma StepIs(v: bv32)
    ensures Step(v) == Xor(Half(v), if Low(v) == 1 then POLY else 0)
  {
  }

  lemma StepsNone(v: bv32, n: nat)
    requires n == 0
    ensures Steps(v, n) == v
  {
  }

  /** `crc32c_le`, crc32c.h:29-35. */
  method Crc32cLe(table: array<bv32>, crc0: bv32, data: seq<bv8>) returns (crc: bv32)
    requires TableOk(table[..])
    ensures crc == Crc(crc0, data)
  {
    hide Xor, LowByte, FeedBits, Half, Low, Step;
    crc := crc0;
    var i := 0;
    while i < |data|
      invariant 0 <= i <= |data| && Crc(crc, data[i..]) == Crc(crc0, data)
    {
      var x := Xor(crc, data[i] as bv32);
      TableByte(crc, data[i]);
      assert data[i..][1..] == data[i + 1..];
      assert table[..][Index(x)] == Steps(LowByte(x), 8);
      crc := Xor(table[Index(x)], crc >> 8);
      i := i + 1;
    }
  }

  // ---------- Adler-32

  const BASE: int := 65521

  /** The two sums of section 2.2 of RFC 1950. */
  function S1(d: seq<int>): (r: int)
    ensures 0 <= r < BASE
  {
    if d == [] then 1 else (S1(d[..|d| - 1]) + d[|d| - 1]) % BASE
  }

  function S2(d: seq<int>): (r: int)
    ensures 0 <= r < BASE
  {
    if d == [] then 0 else (S2(d[..|d| - 1]) + S1(d)) % BASE
  }

  function Adler(d: seq<int>): int { S1(d) + S2(d) * 0x1_0000 }

  /** `a` and `b` leave the same remainder. */
  predicate Same(a: int, b: int) { (a - b) % BASE == 0 }

  /** The first sum of a concatenation. */
  lemma {:induction false} S1Append(x: seq<int>, y: seq<int>)
    ensures Same(S1(x + y), S1(x) + S1(y) - 1)
    decreases |y|
  {
    if y == [] {
      assert x + y == x;
    } else {
      var n := |y| - 1;
      assert (x + y)[..|x + y| - 1] == x + y[..n];
      S1Append(x, y[..n]);
      S1Step(S1(x + y[..n]), S1(y[..n]), S1(x), y[n]);
    }
  }

  lemma S1Step(a: int, b: int, s: int, c: int)
    requires Same(a, s + b - 1)
    ensures Same((a + c) % BASE, s + (b + c) % BASE - 1)
  {
  }

  function Times(n: int, c: int): int { n * c }

  lemma TimesNext(n: int, c: int)
    ensures Times(n + 1, c) == Times(n, c) + c && Times(0, c) == 0
  {
  }

  /** The second sum of a concatenation. */
  lemma {:induction false} S2Append(x: seq<int>, y: seq<int>)
    ensures Same(S2(x + y), S2(x) + S2(y) + Times(|y|, S1(x) - 1))
    decreases |y|
  {
    hide Times;
    TimesNext(if y == [] then 0 else |y| - 1, S1(x) - 1);
    if y == [] {
      assert x + y == x;
    } else {
      var n := |y| - 1;
      assert (x + y)[..|x + y| - 1] == x + y[..n];
      S2Append(x, y[..n]);
      S1Append(x, y);
      S2Step(S2(x + y[..n]), S1(x + y), S2(y[..n]), S1(y), S2(x), S1(x), Times(n, S1(x) - 1));
    }
  }

  lemma S2Step(a: int, a1: int, b: int, b1: int, s2: int, s1: int, p: int)
    requires Same(a, s2 + b + p) && Same(a1, s1 + b1 - 1)
    ensures Same((a + a1) % BASE, s2 + (b + b1) % BASE + (p + (s1 - 1)))
  {
  }

  /** `adler32_combine`, tools/upxbc:369-381. */
  function Adler32Combine(adler1: int, adler2: int, len2: nat): int {
    var a1, a2 := adler1 % 0x1_0000_0000, adler2 % 0x1_0000_0000;
    var rem := len2 % BASE;
    var low := a1 % 0x1_0000;
    var sum1 := low + a2 % 0x1_0000 + BASE - 1;
    var sum2 := rem * low % BASE + a1 / 0x1_0000 + a2 / 0x1_0000 + BASE - rem;
    var t1 := if sum1 >= BASE then sum1 - BASE else sum1;
    var u1 := if t1 >= BASE then t1 - BASE else t1;
    var t2 := if sum2 >= 2 * BASE then sum2 - 2 * BASE else sum2;
    var u2 := if t2 >= BASE then t2 - BASE else t2;
    u1 + u2 * 0x1_0000
  }

  lemma Halved(s1: int, s2: int)
    requires 0 <= s1 < BASE && 0 <= s2 < BASE
    ensures var a := (s1 + s2 * 0x1_0000) % 0x1_0000_0000; a % 0x1_0000 == s1 && a / 0x1_0000 == s2
  {
  }

  lemma ProductMod(n: nat, s: int)
    ensures Same(n % BASE * s, n * s)
  {
    var q := n / BASE;
    assert n == q * BASE + n % BASE;
    Distribute(q * BASE, n % BASE, s);
    assert q * BASE * s == (q * s) * BASE;
    DivMul(q * s, BASE);
    assert n % BASE * s - n * s == (-(q * s)) * BASE;
    DivMul(-(q * s), BASE);
  }

  /** Combining the sums of two strings gives the sum of their concatenation. */
  lemma CombineCorrect(x: seq<int>, y: seq<int>)
    ensures Adler32Combine(Adler(x), Adler(y), |y|) == Adler(x + y)
  {
    hide S1, S2, Same, Times, Adler32Combine;
    S1Append(x, y);
    S2Append(x, y);
    CombineValue(S1(x), S2(x), S1(y), S2(y), |y|, S1(x + y), S2(x + y));
  }

  lemma CombineValue(a1: int, b1: int, a2: int, b2: int, n: nat, r1: int, r2: int)
    requires 0 <= a1 < BASE && 0 <= b1 < BASE && 0 <= a2 < BASE && 0 <= b2 < BASE && 0 <= r1 < BASE && 0 <= r2 < BASE
    requires Same(r1, a1 + a2 - 1) && Same(r2, b1 + b2 + Times(n, a1 - 1))
    ensures Adler32Combine(a1 + b1 * 0x1_0000, a2 + b2 * 0x1_0000, n) == r1 + r2 * 0x1_0000
  {
    hide Same;
    Halved(a1, b1);
    Halved(a2, b2);
    ProductMod(n, a1);
    LessOne(n, a1);
    Reduced(a1, b1, a2, b2, n % BASE, n % BASE * a1, n * a1, n, r1, r2);
  }

  lemma LessOne(n: int, s: int)
    ensures n * (s - 1) == n * s - n
  {
  }

  /** The subtractions at the end are exact remainders. */
  lemma Reduced(a1: int, b1: int, a2: int, b2: int, rem: int, p: int, q: int, n: nat, r1: int, r2: int)
    requires 0 <= a1 < BASE && 0 <= b1 < BASE && 0 <= a2 < BASE && 0 <= b2 < BASE && 0 <= r1 < BASE && 0 <= r2 < BASE
    requires rem == n % BASE && Same(p, q) && Same(r1, a1 + a2 - 1) && Same(r2, b1 + b2 + (q - n))
    ensures var sum1, sum2 := a1 + a2 + BASE - 1, p % BASE + b1 + b2 + BASE - rem;
            var t1 := if sum1 >= BASE then sum1 - BASE else sum1;
            var t2 := if sum2 >= 2 * BASE then sum2 - 2 * BASE else sum2;
            && (if t1 >= BASE then t1 - BASE else t1) == r1
            && (if t2 >= BASE then t2 - BASE else t2) == r2
  {
  }

  lemma SumsNext(d: seq<int>, c: int)
    ensures S1(d + [c]) == (S1(d) + c) % BASE && S2(d + [c]) == (S2(d) + S1(d + [c])) % BASE
  {
    assert (d + [c])[..|d|] == d;
  }

  /** The Adler-32 of `n` zero bytes: the second sum counts them, modulo 65521. */
  lemma {:induction false} SumOfZeros(n: nat)
    ensures S1(seq(n, _ => 0)) == 1 && Adler(seq(n, _ => 0)) == 1 + n % 65521 * 0x1_0000
    decreases n
  {
    if n > 0 {
      SumOfZeros(n - 1);
      SumsNext(seq(n - 1, _ => 0), 0);
      assert seq(n, _ => 0) == seq(n - 1, _ => 0) + [0];
      OneMore(n - 1);
    }
  }

  lemma OneMore(n: nat)
    ensures (n % BASE + 1) % BASE == (n + 1) % BASE
  {
  }

  lemma NoSums(d: seq<int>)
    requires d == []
    ensures S1(d) == 1 && S2(d) == 0
  {
  }

  /** And that of the letters abc is 024d0127. */
  lemma SumOfAbc()
    ensures Adler([97, 98, 99]) == 0x024d_0127
  {
    hide S1, S2;
    var d0: seq<int> := [];
    var d1 := d0 + [97];
    var d2 := d1 + [98];
    NoSums(d0);
    SumsNext(d0, 97);
    SumsNext(d1, 98);
    SumsNext(d2, 99);
    assert d2 + [99] == [97, 98, 99];
  }
}
