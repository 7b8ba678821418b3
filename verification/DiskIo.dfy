/**
 Sector reads through the BIOS (diskio.c): cut into transfers, retried, and halved.
 */
module DiskIo {
  import opened ReadRun
  import opened Shift

  const RETRY_COUNT: nat := 6
  const LINE: nat := 0x1_0000     // a transfer must not cross a 64K line
  const LOW_LIMIT: nat := 0xf0000 // the last 64K line the BIOS can reach starts here

  /** The bytes of `n` sectors from `lba` on. */
  function Sectors(media: seq<seq<int>>, lba: nat, n: nat): seq<int>
    requires lba + n <= |media|
  {
    if n == 0 then [] else Sectors(media, lba, n - 1) + media[lba + n - 1]
  }

  ghost predicate GoodMedia(media: seq<seq<int>>, ss: nat) {
    forall i :: 0 <= i < |media| ==> |media[i]| == ss
  }

  lemma {:induction false} SectorsLength(media: seq<seq<int>>, ss: nat, lba: nat, n: nat)
    requires GoodMedia(media, ss) && lba + n <= |media|
    ensures |Sectors(media, lba, n)| == n * ss
    decreases n
  {
    if n > 0 {
      SectorsLength(media, ss, lba, n - 1);
      Distribute(n - 1, 1, ss);
    }
  }

  lemma {:induction false} SectorsAppend(media: seq<seq<int>>, lba: nat, m: nat, n: nat)
    requires lba + m + n <= |media|
    ensures Sectors(media, lba, m + n) == Sectors(media, lba, m) + Sectors(media, lba + m, n)
    decreases n
  {
    if n > 0 {
      SectorsAppend(media, lba, m, n - 1);
      var a, b, c := Sectors(media, lba, m), Sectors(media, lba + m, n - 1), media[lba + m + n - 1];
      assert (a + b) + c == a + (b + c);
    } else {
      assert Sectors(media, lba, m) + [] == Sectors(media, lba, m);
    }
  }

  /** `b` differs from `a` only inside the two stretches of memory. */
  ghost predicate OnlyThere(a: seq<int>, b: seq<int>, p: nat, m: nat, q: nat, n: nat) {
    && |a| == |b|
    && forall k :: 0 <= k < |a| && !(p <= k < p + m) && !(q <= k < q + n) ==> a[k] == b[k]
  }

  /** What reading has achieved: `done` sectors in the buffer, nothing else touched but the transfer buffer. */
  ghost predicate Progress(a: seq<int>, b: seq<int>, buf: nat, got: seq<int>, total: nat, xfer: nat, xlen: nat) {
    && OnlyThere(a, b, buf, total, xfer, xlen)
    && buf + |got| <= |b| && b[buf..buf + |got|] == got
  }

  /** The stretch for the buffer and the one for the transfer buffer do not overlap. */
  predicate Apart(buf: nat, total: nat, xfer: nat, xlen: nat) {
    buf + total <= xfer || xfer + xlen <= buf
  }

  /** Bytes written at `at`, inside the transfer buffer, change nothing that counts. */
  lemma BounceKeeps(a: seq<int>, b: seq<int>, c: seq<int>, buf: nat, got: seq<int>, total: nat, xfer: nat, xlen: nat, content: seq<int>)
    requires Progress(a, b, buf, got, total, xfer, xlen) && Apart(buf, total, xfer, xlen) && |got| <= total
    requires Filled(b, c, xfer, content) && |content| <= xlen
    ensures Progress(a, c, buf, got, total, xfer, xlen)
  {
    FilledPoints(b, c, xfer, content);
    forall k | 0 <= k < |got| ensures c[buf..buf + |got|][k] == got[k] {
      assert b[buf..buf + |got|][k] == b[buf + k];
    }
  }

  /** Bytes written behind what has been read extend it. */
  lemma DirectAdds(a: seq<int>, b: seq<int>, c: seq<int>, buf: nat, got: seq<int>, total: nat, xfer: nat, xlen: nat, content: seq<int>)
    requires Progress(a, b, buf, got, total, xfer, xlen)
    requires Filled(b, c, buf + |got|, content) && |got| + |content| <= total
    ensures Progress(a, c, buf, got + content, total, xfer, xlen)
    ensures Progress(a, c, buf, got, total, xfer, xlen)
  {
    FilledPoints(b, c, buf + |got|, content);
    var n := |got| + |content|;
    forall k | 0 <= k < n ensures c[buf..buf + n][k] == (got + content)[k] {
      if k < |got| {
        assert b[buf..buf + |got|][k] == b[buf + k];
      } else {
        assert c[buf + |got| + (k - |got|)] == content[k - |got|];
      }
    }
    assert c[buf..buf + |got|] == c[buf..buf + n][..|got|];
  }

  /** What already lies behind the bytes read so far may be counted in. */
  lemma CountIn(a: seq<int>, b: seq<int>, buf: nat, got: seq<int>, total: nat, xfer: nat, xlen: nat, content: seq<int>)
    requires Progress(a, b, buf, got, total, xfer, xlen)
    requires buf + |got| + |content| <= |b| && b[buf + |got|..buf + |got| + |content|] == content
    ensures Progress(a, b, buf, got + content, total, xfer, xlen)
  {
    var n := |got| + |content|;
    forall k | 0 <= k < n ensures b[buf..buf + n][k] == (got + content)[k] {
      if k < |got| {
        assert b[buf..buf + |got|][k] == b[buf + k];
      } else {
        assert b[buf + |got|..buf + n][k - |got|] == content[k - |got|];
      }
    }
  }

  lemma FilledPoints(a: seq<int>, b: seq<int>, pos: nat, content: seq<int>)
    requires Filled(a, b, pos, content)
    ensures |a| == |b| && pos + |content| <= |a|
    ensures forall k :: 0 <= k < |content| ==> b[pos + k] == content[k]
    ensures forall k :: 0 <= k < |a| && !(pos <= k < pos + |content|) ==> b[k] == a[k]
  {
    forall k | 0 <= k < |content| ensures b[pos + k] == content[k] {
      assert b[pos..pos + |content|][k] == content[k];
    }
    forall k | 0 <= k < |a| && !(pos <= k < pos + |content|) ensures b[k] == a[k] {
      if k < pos {
        assert b[..pos][k] == a[..pos][k];
      } else {
        assert b[pos + |content|..][k - (pos + |content|)] == a[pos + |content|..][k - (pos + |content|)];
      }
    }
  }

  // ---------- retrying

  /** The size of the `j`-th call from now on, if all fail: `retry` more of this size, then half of it. */
  function SizeFrom(chunk: nat, retry: nat, j: nat): (n: nat)
    decreases j
  {
    if j <= retry then chunk else SizeFrom(chunk / 2, RETRY_COUNT, j - retry - 1)
  }

  /** After `n` failed calls the loop stands at size `chunk` with `retry` more tries. */
  ghost predicate StandsAt(chunk0: nat, n: nat, chunk: nat, retry: nat) {
    forall j: nat :: SizeFrom(chunk0, RETRY_COUNT, n + j) == SizeFrom(chunk, retry, j)
  }

  lemma StandsAtStart(chunk0: nat)
    ensures StandsAt(chunk0, 0, chunk0, RETRY_COUNT)
  {
  }

  lemma StandsNow(chunk0: nat, n: nat, chunk: nat, retry: nat)
    requires StandsAt(chunk0, n, chunk, retry)
    ensures SizeFrom(chunk0, RETRY_COUNT, n) == chunk
  {
    assert SizeFrom(chunk0, RETRY_COUNT, n + 0) == SizeFrom(chunk, retry, 0);
  }

  lemma StandsNext(chunk0: nat, n: nat, chunk: nat, retry: nat)
    requires StandsAt(chunk0, n, chunk, retry)
    ensures retry > 0 ==> StandsAt(chunk0, n + 1, chunk, retry - 1)
    ensures retry == 0 ==> StandsAt(chunk0, n + 1, chunk / 2, RETRY_COUNT)
  {
    hide SizeFrom;
    var c, r := if retry > 0 then chunk else chunk / 2, if retry > 0 then retry - 1 else RETRY_COUNT;
    forall j: nat ensures SizeFrom(chunk0, RETRY_COUNT, n + 1 + j) == SizeFrom(c, r, j) {
      SizeNext(chunk, retry, j);
      assert SizeFrom(chunk0, RETRY_COUNT, n + (j + 1)) == SizeFrom(chunk, retry, j + 1);
      assert n + (j + 1) == n + 1 + j;
    }
  }

  lemma SizeNext(chunk: nat, retry: nat, j: nat)
    ensures SizeFrom(chunk, retry, j + 1) == if retry > 0 then SizeFrom(chunk, retry - 1, j) else SizeFrom(chunk / 2, RETRY_COUNT, j)
  {
  }

  // ---------- real-mode pointers

  const MEGABYTE: nat := 0x10_0000

  /** `SEG` and `OFFS` (com32.h:138-147). */
  function Seg(p: nat): nat { p / 16 % 0x1_0000 }

  function Offs(p: nat): nat { p % 16 }

  /** The address that the BIOS makes of them. */
  function Linear(seg: nat, offs: nat): nat { seg * 16 + offs }

  /** Segment and offset name the right place exactly below one megabyte. */
  lemma FarExact(p: nat)
    requires p < 0x1_0000_0000
    ensures Seg(p) < 0x1_0000 && Offs(p) < 16 && Linear(Seg(p), Offs(p)) == p % MEGABYTE
    ensures Linear(Seg(p), Offs(p)) == p <==> p < MEGABYTE
  {
    var q := p / 16;
    assert p == q * 16 + p % 16;
    var r := q / 0x1_0000;
    assert q == r * 0x1_0000 + q % 0x1_0000;
    assert p == r * MEGABYTE + Linear(Seg(p), Offs(p));
  }

  /** Whole sectors up to the next 64K line. */
  function FreeSeg(p: int, ss: nat): int
    requires ss > 0
  {
    (LINE - p % LINE) / ss
  }

  /** A transfer to `ptr` that the CHS path (line 49) hands to the BIOS directly although its far pointer means another place. */
  predicate Strays(buf: nat, ptr: int, ss: nat)
    requires ss > 0
  {
    buf <= LOW_LIMIT && FreeSeg(ptr, ss) > 0 && ptr >= MEGABYTE
  }

  /** Some transfer of the call can begin at such a place. */
  ghost predicate MayStray(buf: nat, count: nat, ss: nat)
    requires ss > 0
  {
    exists k: nat :: k < count && Strays(buf, buf + k * ss, ss)
  }

  /** The CHS path is safe exactly for buffers above its limit and for those whose last sector begins below one megabyte. */
  lemma StrayExact(buf: nat, count: nat, ss: nat)
    requires 0 < ss <= LINE / 2
    ensures MayStray(buf, count, ss) <==> buf <= LOW_LIMIT && count > 0 && buf + (count - 1) * ss >= MEGABYTE
  {
    if MayStray(buf, count, ss) {
      var k: nat :| k < count && Strays(buf, buf + k * ss, ss);
      MulMono(k, count - 1, ss);
    } else if buf <= LOW_LIMIT && count > 0 && buf + (count - 1) * ss >= MEGABYTE {
      var k := FirstBeyond(buf, count - 1, ss);
      FreeBeyond(buf + k * ss, ss);
      assert Strays(buf, buf + k * ss, ss);
    }
  }

  /** Where the CHS path can have got without going astray: to whole sectors, or one sector at a time. */
  ghost predicate Close(buf: nat, ptr: int, ss: nat, byOne: bool)
    requires ss > 0
  {
    buf > LOW_LIMIT || if byOne then ptr < MEGABYTE + ss else ptr <= MEGABYTE && ptr % ss == 0
  }

  lemma CloseNext(buf: nat, ptr: nat, n: nat, ss: nat, byOne: bool)
    requires 0 < ss <= LINE / 2 && Close(buf, ptr, ss, byOne) && 1 <= n
    requires buf <= LOW_LIMIT && FreeSeg(ptr, ss) > 0 ==> ptr < MEGABYTE && ptr % LINE + n * ss <= LINE
    requires if byOne then n == 1 else LINE % ss == 0
    ensures Close(buf, ptr + n * ss, ss, byOne)
  {
    if buf <= LOW_LIMIT {
      if byOne {
        if ptr >= MEGABYTE { FreeBeyond(ptr, ss); }
      } else {
        FreeAligned(ptr, ss);
        Quotient(ptr, ss);
        Distribute(ptr / ss, n, ss);
        DivMul(ptr / ss + n, ss);
      }
    }
  }

  lemma FreeAligned(ptr: nat, ss: nat)
    requires ss > 0 && ptr % ss == 0 && LINE % ss == 0
    ensures FreeSeg(ptr, ss) > 0
  {
    Quotient(ptr, ss);
    Quotient(LINE, ss);
    Quotient(ptr, LINE);
    var a, b, q, r := ptr / ss, LINE / ss, ptr / LINE, ptr % LINE;
    Multiples(a, b, q, r, ss);
    var x := a - q * b;
    hide FreeSeg;
    if x >= b { MulMono(b, x, ss); }
    Distribute(b, -x, ss);
    FreeMultiple(ptr, ss, b - x);
  }

  lemma Multiples(a: int, b: int, q: int, r: int, ss: int)
    requires a * ss == q * (b * ss) + r
    ensures r == (a - q * b) * ss
  {
    assert q * (b * ss) == (q * b) * ss;
    Distribute(a, -(q * b), ss);
  }

  lemma FreeMultiple(ptr: nat, ss: nat, n: int)
    requires ss > 0 && LINE - ptr % LINE == n * ss
    ensures FreeSeg(ptr, ss) == n
  {
    DivMul(n, ss);
  }

  lemma FirstBeyond(buf: nat, last: nat, ss: nat) returns (k: nat)
    requires ss > 0 && buf < MEGABYTE <= buf + last * ss
    ensures k <= last && MEGABYTE <= buf + k * ss < MEGABYTE + ss
  {
    var d := MEGABYTE - buf + ss - 1;
    k := d / ss;
    DivNonneg(d, ss);
    Quotient(d, ss);
    if k > last {
      MulMono(last + 1, k, ss);
      Distribute(last, 1, ss);
    }
  }

  /** Just above one megabyte a whole sector still fits before the next line. */
  lemma FreeBeyond(p: int, ss: nat)
    requires 0 < ss <= LINE / 2 && MEGABYTE <= p < MEGABYTE + ss
    ensures FreeSeg(p, ss) > 0
  {
    assert p % LINE == p - MEGABYTE;
    Quotient(LINE - p % LINE, ss);
    if FreeSeg(p, ss) <= 0 {
      MulMono(FreeSeg(p, ss), 0, ss);
    }
  }

  /** One megabyte read to 64K in one call: the transfer that should go to the top of it goes to address 0. */
  lemma LongReadStrays()
    ensures MayStray(0x1_0000, 0x800, 512) && Strays(0x1_0000, 0x1_0000 + 0x780 * 512, 512)
    ensures 0x1_0000 + 0x780 * 512 == MEGABYTE && Linear(Seg(MEGABYTE), Offs(MEGABYTE)) == 0
  {
    StrayExact(0x1_0000, 0x800, 512);
    FarExact(MEGABYTE);
  }

  /** What decides how the CHS path cuts up a read: the buffer, the transfer buffer, the limit and the track. */
  datatype Route = Route(buf: nat, ss: nat, xfer: nat, limit: nat, track: nat)

  ghost predicate GoodRoute(r: Route) {
    0 < r.ss && 0 < r.limit && 0 < r.track && FreeSeg(r.xfer, r.ss) > 0
  }

  function Min(a: int, b: int): int { if a < b then a else b }

  /** The length of the transfer to `ptr` for the sectors from `at` on, if the call works (lines 49-76). */
  function ChunkAt(r: Route, ptr: int, at: int, left: int): (n: int)
    requires GoodRoute(r) && left > 0
    ensures 1 <= n <= left && n <= r.limit
  {
    var target := if r.buf <= LOW_LIMIT && FreeSeg(ptr, r.ss) > 0 then ptr else r.xfer;
    Min(Min(Min(left, r.limit), FreeSeg(target, r.ss)), r.track - at % r.track)
  }

  /** How many sectors arrive, if all calls work, before a transfer goes astray. */
  function Clean(r: Route, ptr: int, at: int, left: nat): (n: nat)
    requires GoodRoute(r)
    ensures n <= left
    decreases left
  {
    if left == 0 || Strays(r.buf, ptr, r.ss) then 0
    else
      var n := ChunkAt(r, ptr, at, left);
      n + Clean(r, ptr + n * r.ss, at + n, left - n)
  }

  lemma CleanNext(r: Route, ptr: int, at: int, left: nat)
    requires GoodRoute(r) && left > 0
    ensures Strays(r.buf, ptr, r.ss) ==> Clean(r, ptr, at, left) == 0
    ensures !Strays(r.buf, ptr, r.ss) ==>
              var n := ChunkAt(r, ptr, at, left); Clean(r, ptr, at, left) == n + Clean(r, ptr + n * r.ss, at + n, left - n)
  {
  }

  /** Reading stops short exactly where a transfer goes astray. */
  lemma {:induction false} CleanStops(r: Route, ptr: int, at: int, left: nat)
    requires GoodRoute(r)
    ensures var n := Clean(r, ptr, at, left); n < left <==> n < left && Strays(r.buf, ptr + n * r.ss, r.ss)
    decreases left
  {
    hide Strays, ChunkAt;
    if left > 0 && !Strays(r.buf, ptr, r.ss) {
      var n := ChunkAt(r, ptr, at, left);
      CleanStops(r, ptr + n * r.ss, at + n, left - n);
      Distribute(n, Clean(r, ptr + n * r.ss, at + n, left - n), r.ss);
    }
  }

  /** Transfers to the buffer begin at every sector in turn, or at least at the megabyte line. */
  predicate KnownPath(r: Route) {
    0 < r.ss <= LINE / 2 && (r.limit == 1 || (r.buf % r.ss == 0 && LINE % r.ss == 0))
  }

  lemma {:induction false} CleanClose(r: Route, ptr: nat, at: int, left: nat)
    requires GoodRoute(r) && KnownPath(r) && Close(r.buf, ptr, r.ss, r.limit == 1)
    ensures Clean(r, ptr, at, left) == left ==> Close(r.buf, ptr + left * r.ss, r.ss, r.limit == 1)
    decreases left
  {
    hide Close, ChunkAt, FreeSeg;
    if left > 0 && !Strays(r.buf, ptr, r.ss) {
      var n := ChunkAt(r, ptr, at, left);
      if FreeSeg(ptr, r.ss) > 0 && r.buf <= LOW_LIMIT {
        ChunkFits(r, ptr, at, left);
      }
      CloseNext(r.buf, ptr, n, r.ss, r.limit == 1);
      CleanClose(r, ptr + n * r.ss, at + n, left - n);
      Distribute(n, left - n, r.ss);
    }
  }

  /** A transfer that goes to the buffer itself stays in front of the next 64K line. */
  lemma ChunkFits(r: Route, ptr: nat, at: int, left: nat)
    requires GoodRoute(r) && left > 0 && FreeSeg(ptr, r.ss) > 0 && r.buf <= LOW_LIMIT
    ensures ptr % LINE + ChunkAt(r, ptr, at, left) * r.ss <= LINE
  {
    Quotient(LINE - ptr % LINE, r.ss);
    MulMono(ChunkAt(r, ptr, at, left), FreeSeg(ptr, r.ss), r.ss);
  }

  /** On a known path reading stops short exactly if some sector of the buffer can go astray. */
  lemma CleanExact(r: Route, at: int, count: nat)
    requires GoodRoute(r) && KnownPath(r)
    ensures Clean(r, r.buf, at, count) < count <==> MayStray(r.buf, count, r.ss)
  {
    hide Clean, Strays;
    var n := Clean(r, r.buf, at, count);
    CleanStops(r, r.buf, at, count);
    if n == count {
      CleanClose(r, r.buf, at, count);
      StrayExact(r.buf, count, r.ss);
      if count > 0 {
        Distribute(count - 1, 1, r.ss);
      }
    }
  }

  /** Off it a buffer can escape: the transfer at the megabyte line goes through the transfer buffer and takes all the rest with it. */
  lemma UnalignedEscapes()
    ensures var r := Route(0xeff00, 512, 0x1_0000, 127, 63);
            GoodRoute(r) && MayStray(r.buf, 130, r.ss) && Clean(r, r.buf, 0, 130) == 130
  {
    hide Clean, MayStray, FreeSeg, ChunkAt;
    var r := Route(0xeff00, 512, 0x1_0000, 127, 63);
    StrayExact(0xeff00, 130, 512);
    FourSegs();
    CleanEnds(r, 0x10_0300, 130);
    CleanStep(r, 0xfff00, 128, 2, 2);
    CleanStep(r, 0xffb00, 126, 4, 2);
    CleanStep(r, 0xf7d00, 63, 67, 63);
    CleanStep(r, 0xeff00, 0, 130, 63);
  }

  lemma FourSegs()
    ensures FreeSeg(0xeff00, 512) == FreeSeg(0xfff00, 512) == 0 && FreeSeg(0xffb00, 512) == 2
    ensures FreeSeg(0xf7d00, 512) == 65 && FreeSeg(0x1_0000, 512) == 128
    ensures var r := Route(0xeff00, 512, 0x1_0000, 127, 63);
            && GoodRoute(r) && ChunkAt(r, 0xeff00, 0, 130) == ChunkAt(r, 0xf7d00, 63, 67) == 63
            && ChunkAt(r, 0xffb00, 126, 4) == ChunkAt(r, 0xfff00, 128, 2) == 2
  {
  }

  lemma CleanStep(r: Route, ptr: int, at: int, left: nat, n: nat)
    requires GoodRoute(r) && left > 0 && !Strays(r.buf, ptr, r.ss) && ChunkAt(r, ptr, at, left) == n
    requires Clean(r, ptr + n * r.ss, at + n, left - n) == left - n
    ensures Clean(r, ptr, at, left) == left
  {
  }

  lemma CleanEnds(r: Route, ptr: int, at: int)
    requires GoodRoute(r)
    ensures Clean(r, ptr, at, 0) == 0
  {
  }

  // ---------- cylinders, heads and sectors

  datatype Regs = Regs(ch: int, cl: int, dh: int, al: int)

  /** The registers of a CHS request (lines 85-88). */
  function ChsRegs(c: nat, h: nat, s: nat, n: nat): Regs {
    Regs(c % 256, c / 256 % 4 * 64 + (s + 1), h, n)
  }

  /** The sector number a CHS request denotes. */
  function ChsLba(r: Regs, heads: nat, sectors: nat): int {
    ((r.ch + r.cl / 64 * 256) * heads + r.dh) * sectors + r.cl % 64 - 1
  }

  /** A request the BIOS understands: in range and inside one track. */
  predicate ChsValid(r: Regs, heads: nat, sectors: nat) {
    0 <= r.ch < 256 && 0 <= r.cl < 256 && 0 <= r.dh < heads && 1 <= r.cl % 64 && 1 <= r.al && r.cl % 64 - 1 + r.al <= sectors
  }

  /** Splitting a sector number into cylinder, head and sector and coding it loses nothing. */
  lemma ChsRoundTrip(lba: nat, heads: nat, sectors: nat, n: nat)
    requires 1 <= heads <= 256 && 1 <= sectors <= 63
    requires lba / sectors / heads < 1024 && lba / sectors >= 0 && 1 <= n <= sectors - lba % sectors
    ensures var s, t := lba % sectors, lba / sectors;
            var h, c := t % heads, t / heads;
            0 <= c && 0 <= h
            && ChsLba(ChsRegs(c, h, s, n), heads, sectors) == lba && ChsValid(ChsRegs(c, h, s, n), heads, sectors)
  {
    var s, t := lba % sectors, lba / sectors;
    Quotient(lba, sectors);
    Quotient(t, heads);
    DivNonneg(t, heads);
    var h, c := t % heads, t / heads;
    var r := ChsRegs(c, h, s, n);
    assert r.cl / 64 == c / 256 && r.cl % 64 == s + 1;
    assert r.ch + r.cl / 64 * 256 == c;
  }

  /** The machine: memory, a disk, and a BIOS whose `n`-th call succeeds or not. */
  class Machine {
    const mem: array<int>
    const media: seq<seq<int>>
    const sectorSize: nat
    const outcome: nat -> bool
    const xfer: nat              // core_xfer_buf
    var calls: nat

    constructor (mem: array<int>, media: seq<seq<int>>, sectorSize: nat, outcome: nat -> bool, xfer: nat)
      ensures this.mem == mem && this.media == media && this.sectorSize == sectorSize
      ensures this.outcome == outcome && this.xfer == xfer && calls == 0
    {
      this.mem, this.media, this.sectorSize, this.outcome, this.xfer, calls := mem, media, sectorSize, outcome, xfer, 0;
    }

    /** Room in the transfer buffer before the next 64K line, in whole sectors. */
    function XferLen(): nat
      requires sectorSize > 0
    {
      (LINE - xfer % LINE) / sectorSize * sectorSize
    }

    ghost predicate Good() {
      && sectorSize > 0 && GoodMedia(media, sectorSize)
      && sectorSize <= XferLen() && xfer + XferLen() <= mem.Length && xfer < MEGABYTE && mem.Length < 0x1_0000_0000
    }

    ghost predicate Working() { forall i :: outcome(i) }

    /** Call number `i` reads `n` sectors from `lba` on. */
    predicate Succeeds(i: nat, lba: nat, n: nat) { outcome(i) && lba + n <= |media| }

    /** The `n` calls from number `i` on all fail, with the sizes that follow from `chunk`. */
    ghost predicate AllFail(i: nat, n: nat, lba: nat, chunk: nat) {
      forall j :: 0 <= j < n ==> SizeFrom(chunk, RETRY_COUNT, j) > 0 && !Succeeds(i + j, lba, SizeFrom(chunk, RETRY_COUNT, j))
    }

    /**
     How a transfer that begins with `chunk0` sectors went: the first call that succeeds
     decides its size, and it has failed only when seven calls of every size have.
     */
    ghost predicate Tried(i: nat, n: nat, lba: nat, chunk0: nat, chunk: nat) {
      if chunk > 0 then
        && n > 0 && AllFail(i, n - 1, lba, chunk0)
        && chunk == SizeFrom(chunk0, RETRY_COUNT, n - 1) && Succeeds(i + n - 1, lba, chunk)
      else AllFail(i, n, lba, chunk0) && SizeFrom(chunk0, RETRY_COUNT, n) == 0
    }

    lemma NoneFail(i: nat, lba: nat, chunk0: nat)
      ensures AllFail(i, 0, lba, chunk0)
    {
    }

    lemma OneMoreFails(i: nat, n: nat, lba: nat, chunk0: nat, chunk: nat)
      requires AllFail(i, n, lba, chunk0) && SizeFrom(chunk0, RETRY_COUNT, n) == chunk > 0 && !Succeeds(i + n, lba, chunk)
      ensures AllFail(i, n + 1, lba, chunk0)
    {
    }

    /**
     A read of `n` sectors to a segment and offset: on failure what it leaves there is
     anybody's guess.  The BIOS can only be asked for at least one sector and inside one 64K line.
     */
    method BiosRead(lba: nat, seg: nat, offs: nat, n: nat) returns (ok: bool, ghost content: seq<int>)
      requires Good() && seg < 0x1_0000 && offs < 16 && Linear(seg, offs) + n * sectorSize <= mem.Length
      requires 1 <= n && Linear(seg, offs) % LINE + n * sectorSize <= LINE
      modifies this`calls, mem
      ensures Filled(old(mem[..]), mem[..], Linear(seg, offs), content) && |content| == n * sectorSize
      ensures ok ==> lba + n <= |media| && content == Sectors(media, lba, n)
      ensures calls == old(calls) + 1 && ok == (outcome(old(calls)) && lba + n <= |media|)
    {
      ok := outcome(calls) && lba + n <= |media|;
      calls := calls + 1;
      var bytes;
      if ok {
        bytes := Sectors(media, lba, n);
        SectorsLength(media, sectorSize, lba, n);
      } else {
        bytes := *;
        if |bytes| != n * sectorSize {
          bytes := seq(n * sectorSize, _ => 0);
        }
      }
      content := bytes;
      PutBytes(mem, Linear(seg, offs), bytes);
    }
  }

  /** The per-disk state the reads use (disk.h:15-32). */
  class Disk {
    const m: Machine
    const partStart: nat
    const h: nat
    const s: nat
    var maxtransfer: nat

    constructor (m: Machine, partStart: nat, h: nat, s: nat, maxtransfer: nat)
      ensures this.m == m && this.partStart == partStart && this.h == h && this.s == s && this.maxtransfer == maxtransfer
    {
      this.m, this.partStart, this.h, this.s, this.maxtransfer := m, partStart, h, s, maxtransfer;
    }

    /** Lines 53-68 and 168-183: where the next transfer goes and how long it may be. */
    method PickTarget(ptr: nat, low: bool, limit: nat, count: nat) returns (tptr: nat, chunk: nat)
      requires m.Good() && 1 <= limit && 1 <= count
      ensures 1 <= chunk <= count && chunk <= limit
      ensures tptr == if low && FreeSeg(ptr, m.sectorSize) > 0 then ptr else m.xfer
      ensures tptr % LINE + chunk * m.sectorSize <= LINE
      ensures tptr != ptr ==> chunk * m.sectorSize <= m.XferLen()
      ensures chunk == Min(Min(count, limit), FreeSeg(tptr, m.sectorSize))
    {
      var ss := m.sectorSize;
      chunk := count;
      if chunk > limit {
        chunk := limit;
      }
      var freeseg := (LINE - ptr % LINE) / ss;
      Quotient(LINE - ptr % LINE, ss);
      if low && freeseg > 0 {
        tptr := ptr;
      } else {
        tptr := m.xfer;
        freeseg := (LINE - tptr % LINE) / ss;
        Quotient(LINE - tptr % LINE, ss);
        if freeseg < 1 { MulMono(freeseg, 0, ss); }
      }
      if chunk > freeseg {
        chunk := freeseg;
      }
      MulMono(chunk, freeseg, ss);
    }

    /** The memory a read may touch, apart from the target: the transfer buffer. */
    ghost predicate Reading(a: seq<int>, buf: nat, got: seq<int>, total: nat)
      requires m.Good()
      reads m.mem
    {
      Progress(a, m.mem[..], buf, got, total, m.xfer, m.XferLen())
    }

    /** The sectors asked for lie at `at`. */
    ghost predicate Arrived(lba: nat, at: nat, n: nat)
      requires m.Good()
      reads m.mem
    {
      && lba + n <= |m.media| && at + n * m.sectorSize <= m.mem.Length
      && m.mem[at..at + n * m.sectorSize] == Sectors(m.media, lba, n)
    }

    /** One BIOS call; whatever it does, the bytes read before stay. */
    method Attempt(lba: nat, tptr: nat, chunk: nat, ghost a: seq<int>, ghost buf: nat, ghost got: seq<int>, ghost total: nat)
      returns (ok: bool)
      requires m.Good() && Reading(a, buf, got, total) && Apart(buf, total, m.xfer, m.XferLen())
      requires buf + total <= m.mem.Length && |got| + chunk * m.sectorSize <= total
      requires tptr == buf + |got| || (tptr == m.xfer && chunk * m.sectorSize <= m.XferLen())
      requires 1 <= chunk && tptr % LINE + chunk * m.sectorSize <= LINE && tptr < MEGABYTE
      modifies m`calls, m.mem
      ensures Reading(a, buf, got, total)
      ensures tptr + chunk * m.sectorSize <= m.mem.Length
      ensures ok ==> Arrived(lba, tptr, chunk)
      ensures m.Working() && lba + chunk <= |m.media| ==> ok
      ensures m.calls == old(m.calls) + 1 && ok == m.Succeeds(old(m.calls), lba, chunk)
    {
      hide Progress, GoodMedia, Seg, Offs, Linear;
      ghost var before := m.mem[..];
      ghost var content;
      FarExact(tptr);
      ok, content := m.BiosRead(lba, Seg(tptr), Offs(tptr), chunk);
      if tptr == buf + |got| {
        DirectAdds(a, before, m.mem[..], buf, got, total, m.xfer, m.XferLen(), content);
      } else {
        BounceKeeps(a, before, m.mem[..], buf, got, total, m.xfer, m.XferLen(), content);
      }
    }

    /** The retry loop of lines 187-253: chunk 0 on return is total failure. */
    method EddRetry(lba: nat, tptr: nat, chunk0: nat, limit0: nat, ghost a: seq<int>, ghost buf: nat, ghost got: seq<int>, ghost total: nat)
      returns (chunk: nat, limit: nat)
      requires m.Good() && Reading(a, buf, got, total) && Apart(buf, total, m.xfer, m.XferLen())
      requires buf + total <= m.mem.Length && |got| + chunk0 * m.sectorSize <= total && 1 <= chunk0 <= limit0
      requires tptr == buf + |got| || (tptr == m.xfer && chunk0 * m.sectorSize <= m.XferLen())
      requires tptr % LINE + chunk0 * m.sectorSize <= LINE && tptr < MEGABYTE
      modifies m`calls, m.mem
      ensures chunk <= chunk0 && 1 <= limit <= limit0 && chunk <= limit
      ensures Reading(a, buf, got, total)
      ensures chunk > 0 ==> Arrived(lba, tptr, chunk)
      ensures m.Working() && lba + chunk0 <= |m.media| ==> chunk == chunk0
      ensures m.calls >= old(m.calls) && m.Tried(old(m.calls), m.calls - old(m.calls), lba, chunk0, chunk)
    {
      hide Progress, Disk.Reading, Disk.Arrived, Machine.Working, SizeFrom, StandsAt, Machine.AllFail, Machine.Succeeds;
      chunk, limit := chunk0, limit0;
      var retry := RETRY_COUNT;
      StandsAtStart(chunk0);
      m.NoneFail(m.calls, lba, chunk0);
      while true
        invariant m.calls >= old(m.calls) && m.AllFail(old(m.calls), m.calls - old(m.calls), lba, chunk0)
        invariant StandsAt(chunk0, m.calls - old(m.calls), chunk, retry)
        invariant 1 <= chunk <= chunk0 && chunk <= limit && 1 <= limit <= limit0
        invariant Reading(a, buf, got, total)
        invariant m.Working() && lba + chunk0 <= |m.media| ==> chunk == chunk0
        decreases chunk, retry
      {
        MulMono(chunk, chunk0, m.sectorSize);
        ghost var n := m.calls - old(m.calls);
        StandsNow(chunk0, n, chunk, retry);
        var ok := Attempt(lba, tptr, chunk, a, buf, got, total);
        if ok {
          return;
        }
        m.OneMoreFails(old(m.calls), n, lba, chunk0, chunk);
        StandsNext(chunk0, n, chunk, retry);
        if retry != 0 {
          retry := retry - 1;
          continue;
        }
        chunk := chunk / 2;
        if chunk == 0 {
          StandsNow(chunk0, n + 1, chunk, RETRY_COUNT);
          return;
        }
        limit := chunk;
        retry := RETRY_COUNT;
      }
    }

    /** After a transfer that worked: copy from the transfer buffer if it was used (lines 149-152, 258-259). */
    method Collect(lba: nat, ptr: nat, tptr: nat, chunk: nat, ghost a: seq<int>, ghost buf: nat, ghost got: seq<int>, ghost total: nat)
      requires m.Good() && Reading(a, buf, got, total) && Arrived(lba, tptr, chunk)
      requires buf + total <= m.mem.Length && |got| + chunk * m.sectorSize <= total && ptr == buf + |got|
      modifies m.mem
      ensures lba + chunk <= |m.media| && Reading(a, buf, got + Sectors(m.media, lba, chunk), total)
    {
      hide Progress, GoodMedia;
      var bytes := chunk * m.sectorSize;
      ghost var before, content := m.mem[..], Sectors(m.media, lba, chunk);
      if tptr != ptr {
        var moved := m.mem[tptr..tptr + bytes];
        PutBytes(m.mem, ptr, moved);
        DirectAdds(a, before, m.mem[..], buf, got, total, m.xfer, m.XferLen(), moved);
      } else {
        CountIn(a, before, buf, got, total, m.xfer, m.XferLen(), content);
      }
    }

    /**
     `edd_rdwr_sectors` reading, diskio.c:167-264, up to the point where it would fall back
     to CHS.
     */
    method EddRead(buf: nat, lba: nat, count: nat) returns (done: nat, fellBack: bool)
      requires m.Good() && Apart(buf, count * m.sectorSize, m.xfer, m.XferLen())
      requires buf + count * m.sectorSize <= m.mem.Length && 1 <= maxtransfer
      modifies this`maxtransfer, m`calls, m.mem
      ensures 1 <= maxtransfer <= old(maxtransfer)
      ensures done <= count && (done == count <==> !fellBack)
      ensures partStart + lba + done <= |m.media| || done == 0
      ensures done > 0 ==> Reading(old(m.mem[..]), buf, Sectors(m.media, partStart + lba, done), count * m.sectorSize)
      ensures m.Working() && partStart + lba + count <= |m.media| ==> !fellBack
    {
      hide Progress, GoodMedia, Disk.Reading, Disk.Arrived, Machine.Working, Apart;
      var ss := m.sectorSize;
      var at, left, ptr, limit := partStart + lba, count, buf, maxtransfer;
      ghost var a, total := m.mem[..], count * ss;
      ghost var got: seq<int> := [];
      NothingRead(a, buf, total);
      done := 0;
      while left > 0
        invariant done + left == count && at == partStart + lba + done && ptr == buf + done * ss
        invariant 1 <= limit <= maxtransfer <= old(maxtransfer)
        invariant SoFar(partStart + lba, done, got)
        invariant Reading(a, buf, got, total)
        decreases left
      {
        Distribute(done, left, ss);
        LengthSoFar(partStart + lba, done, got);
        var tptr, chunk := PickTarget(ptr, ptr <= LOW_LIMIT, limit, left);
        MulMono(chunk, left, ss);
        chunk, limit := EddRetry(at, tptr, chunk, limit, a, buf, got, total);
        if chunk == 0 {
          return done, true;
        }
        MulMono(chunk, left, ss);
        MulMono(chunk, left, ss);
        CollectMore(partStart + lba, done, ptr, tptr, chunk, a, buf, got, total);
        maxtransfer := limit;
        got := got + Sectors(m.media, at, chunk);
        Distribute(done, chunk, ss);
        ptr := ptr + chunk * ss;
        at := at + chunk;
        left := left - chunk;
        done := done + chunk;
      }
      fellBack := false;
    }

    /** Collect, and count the sectors in. */
    method CollectMore(from: nat, done: nat, ptr: nat, tptr: nat, chunk: nat, ghost a: seq<int>, ghost buf: nat, ghost got: seq<int>, ghost total: nat)
      requires m.Good() && Reading(a, buf, got, total) && Arrived(from + done, tptr, chunk)
      requires buf + total <= m.mem.Length && |got| + chunk * m.sectorSize <= total && ptr == buf + |got|
      requires SoFar(from, done, got)
      modifies m.mem
      ensures from + done + chunk <= |m.media|
      ensures SoFar(from, done + chunk, got + Sectors(m.media, from + done, chunk))
      ensures Reading(a, buf, got + Sectors(m.media, from + done, chunk), total)
    {
      hide Progress, GoodMedia, Disk.Reading;
      Collect(from + done, ptr, tptr, chunk, a, buf, got, total);
      ArrivedMore(from, done, chunk, got);
      Distribute(done, chunk, m.sectorSize);
    }

    /** What has been read: `done` sectors from `from` on. */
    ghost predicate SoFar(from: nat, done: nat, got: seq<int>)
      requires m.Good()
    {
      |got| == done * m.sectorSize
      && if done == 0 then got == [] else from + done <= |m.media| && got == Sectors(m.media, from, done)
    }

    lemma NoneSoFar(from: nat)
      requires m.Good()
      ensures SoFar(from, 0, [])
    {
    }

    lemma LengthSoFar(from: nat, done: nat, got: seq<int>)
      requires m.Good() && SoFar(from, done, got)
      ensures |got| == done * m.sectorSize
      ensures done > 0 ==> from + done <= |m.media| && got == Sectors(m.media, from, done)
    {
    }

    lemma NothingRead(a: seq<int>, buf: nat, total: nat)
      requires m.Good() && a == m.mem[..] && buf <= m.mem.Length
      ensures Reading(a, buf, [], total)
    {
    }

    lemma ArrivedMore(from: nat, done: nat, chunk: nat, got: seq<int>)
      requires m.Good() && from + done + chunk <= |m.media|
      requires if done == 0 then got == [] else got == Sectors(m.media, from, done)
      ensures got + Sectors(m.media, from + done, chunk) == Sectors(m.media, from, done + chunk)
      ensures |Sectors(m.media, from + done, chunk)| == chunk * m.sectorSize
    {
      SectorsLength(m.media, m.sectorSize, from + done, chunk);
      SectorsAppend(m.media, from, done, chunk);
    }

    /** The CHS variant of one call: the BIOS works out the sector from the registers. */
    method ChsAttempt(r: Regs, tptr: nat, ghost a: seq<int>, ghost buf: nat, ghost got: seq<int>, ghost total: nat)
      returns (ok: bool)
      requires m.Good() && Reading(a, buf, got, total) && Apart(buf, total, m.xfer, m.XferLen())
      requires 1 <= s && ChsValid(r, h, s) && ChsLba(r, h, s) >= 0
      requires buf + total <= m.mem.Length && |got| + r.al * m.sectorSize <= total
      requires tptr == buf + |got| || (tptr == m.xfer && r.al * m.sectorSize <= m.XferLen())
      requires tptr % LINE + r.al * m.sectorSize <= LINE && tptr < MEGABYTE
      modifies m`calls, m.mem
      ensures Reading(a, buf, got, total)
      ensures ok ==> Arrived(ChsLba(r, h, s), tptr, r.al)
      ensures m.Working() && ChsLba(r, h, s) + r.al <= |m.media| ==> ok
      ensures m.calls == old(m.calls) + 1 && ok == m.Succeeds(old(m.calls), ChsLba(r, h, s), r.al)
    {
      ok := Attempt(((r.ch + r.cl / 64 * 256) * h + r.dh) * s + r.cl % 64 - 1, tptr, r.al, a, buf, got, total);
    }

    /** The retry loop of lines 92-132: chunk 0 on return is failure. */
    method ChsRetry(xlba: nat, tptr: nat, chunk0: nat, limit0: nat, ghost a: seq<int>, ghost buf: nat, ghost got: seq<int>, ghost total: nat)
      returns (chunk: nat, limit: nat)
      requires m.Good() && Reading(a, buf, got, total) && Apart(buf, total, m.xfer, m.XferLen())
      requires 1 <= h <= 256 && 1 <= s <= 63 && 1 <= chunk0 <= s - xlba % s && chunk0 <= limit0
      requires buf + total <= m.mem.Length && |got| + chunk0 * m.sectorSize <= total
      requires tptr == buf + |got| || (tptr == m.xfer && chunk0 * m.sectorSize <= m.XferLen())
      requires tptr % LINE + chunk0 * m.sectorSize <= LINE && tptr < MEGABYTE
      modifies m`calls, m.mem
      ensures chunk <= chunk0 && 1 <= limit <= limit0 && chunk <= limit
      ensures Reading(a, buf, got, total)
      ensures chunk > 0 ==> Arrived(xlba, tptr, chunk)
      ensures m.Working() && xlba + chunk0 <= |m.media| && xlba / s / h < 1024 ==> chunk == chunk0 && limit == limit0
      ensures m.calls >= old(m.calls)
      ensures xlba / s / h < 1024 ==> m.Tried(old(m.calls), m.calls - old(m.calls), xlba, chunk0, chunk)
      ensures xlba / s / h >= 1024 ==> chunk == 0 && m.calls == old(m.calls)
    {
      hide Progress, Disk.Reading, Disk.Arrived, Machine.Working, ChsValid, ChsLba, ChsRegs;
      hide SizeFrom, StandsAt, Machine.AllFail, Machine.Succeeds;
      StandsAtStart(chunk0);
      m.NoneFail(m.calls, xlba, chunk0);
      chunk, limit := chunk0, limit0;
      DivNonneg(xlba, s);
      var ss, t := xlba % s, xlba / s;
      DivNonneg(t, h);
      var head, c := t % h, t / h;
      var retry := RETRY_COUNT;
      while true
        invariant m.calls >= old(m.calls) && m.AllFail(old(m.calls), m.calls - old(m.calls), xlba, chunk0)
        invariant StandsAt(chunk0, m.calls - old(m.calls), chunk, retry) && (c >= 1024 ==> m.calls == old(m.calls))
        invariant 1 <= chunk <= chunk0 && chunk <= limit && 1 <= limit <= limit0
        invariant Reading(a, buf, got, total)
        invariant m.Working() && xlba + chunk0 <= |m.media| && c < 1024 ==> chunk == chunk0 && limit == limit0
        decreases chunk, retry
      {
        if c >= 1024 {
          return 0, limit;
        }
        MulMono(chunk, chunk0, m.sectorSize);
        ChsRoundTrip(xlba, h, s, chunk);
        RegsAl(c, head, ss, chunk);
        ghost var n := m.calls - old(m.calls);
        StandsNow(chunk0, n, chunk, retry);
        var ok := ChsAttempt(ChsRegs(c, head, ss, chunk), tptr, a, buf, got, total);
        if ok {
          return;
        }
        m.OneMoreFails(old(m.calls), n, xlba, chunk0, chunk);
        StandsNext(chunk0, n, chunk, retry);
        if retry != 0 {
          retry := retry - 1;
          continue;
        }
        chunk := chunk / 2;
        if chunk == 0 {
          StandsNow(chunk0, n + 1, chunk, RETRY_COUNT);
          return;
        }
        limit := chunk;
        retry := RETRY_COUNT;
      }
    }

    lemma RegsAl(c: nat, h: nat, s: nat, n: nat)
      ensures ChsRegs(c, h, s, n).al == n
    {
    }

    /** The same, cut to what is left of the track (lines 75-76). */
    method PickInTrack(ptr: nat, low: bool, limit: nat, count: nat, xlba: nat) returns (tptr: nat, chunk: nat)
      requires m.Good() && 1 <= limit && 1 <= count && 1 <= s
      ensures 1 <= chunk <= count && chunk <= limit && chunk <= s - xlba % s
      ensures tptr == if low && FreeSeg(ptr, m.sectorSize) > 0 then ptr else m.xfer
      ensures tptr % LINE + chunk * m.sectorSize <= LINE && chunk * m.sectorSize <= count * m.sectorSize
      ensures tptr != ptr ==> chunk * m.sectorSize <= m.XferLen()
      ensures chunk == Min(Min(Min(count, limit), FreeSeg(tptr, m.sectorSize)), s - xlba % s)
    {
      tptr, chunk := PickTarget(ptr, low, limit, count);
      var room := s - xlba % s;
      MulMono(if chunk > room then room else chunk, chunk, m.sectorSize);
      MulMono(chunk, count, m.sectorSize);
      if chunk > room {
        chunk := room;
      }
    }

    /** Lines 70-123 for a target that the BIOS can reach: try, retry, and collect. */
    method ChsTransfer(from: nat, done: nat, ptr: nat, tptr: nat, chunk0: nat, limit0: nat,
                       ghost a: seq<int>, ghost buf: nat, ghost got0: seq<int>, ghost total: nat)
      returns (chunk: nat, limit: nat, ghost got: seq<int>)
      requires m.Good() && Reading(a, buf, got0, total) && SoFar(from, done, got0) && Apart(buf, total, m.xfer, m.XferLen())
      requires 1 <= h <= 256 && 1 <= s <= 63 && 1 <= chunk0 <= s - (from + done) % s && chunk0 <= limit0
      requires buf + total <= m.mem.Length && done * m.sectorSize + chunk0 * m.sectorSize <= total && ptr == buf + done * m.sectorSize
      requires tptr == ptr || (tptr == m.xfer && chunk0 * m.sectorSize <= m.XferLen())
      requires tptr % LINE + chunk0 * m.sectorSize <= LINE && tptr < MEGABYTE
      modifies m`calls, m.mem
      ensures chunk <= chunk0 && 1 <= limit <= limit0 && chunk <= limit
      ensures chunk == 0 ==> Reading(a, buf, got0, total) && got == got0
      ensures chunk > 0 ==> from + done + chunk <= |m.media| && SoFar(from, done + chunk, got) && Reading(a, buf, got, total)
      ensures m.Working() && from + done + chunk0 <= |m.media| && from + done < ChsMax() ==> chunk == chunk0 && limit == limit0
    {
      hide Progress, GoodMedia, Disk.Reading, Disk.Arrived, Machine.Working, Apart, Disk.ChsMax, Disk.SoFar;
      LengthSoFar(from, done, got0);
      Cylinder(from + done);
      chunk, limit := ChsRetry(from + done, tptr, chunk0, limit0, a, buf, got0, total);
      got := got0;
      if chunk > 0 {
        MulMono(chunk, chunk0, m.sectorSize);
        CollectMore(from, done, ptr, tptr, chunk, a, buf, got0, total);
        got := got0 + Sectors(m.media, from + done, chunk);
      }
    }

    /** How this disk's reads to `buf` are cut up. */
    function RouteTo(buf: nat, limit: nat): Route { Route(buf, m.sectorSize, m.xfer, limit, s) }

    lemma RouteGood(buf: nat, limit: nat)
      requires m.Good() && 1 <= limit && 1 <= s
      ensures GoodRoute(RouteTo(buf, limit))
    {
      if FreeSeg(m.xfer, m.sectorSize) < 1 { MulMono(FreeSeg(m.xfer, m.sectorSize), 0, m.sectorSize); }
    }

    /** All calls for the sectors from `from` on work. */
    ghost predicate Smooth(from: nat, count: nat) {
      m.Working() && from + count <= |m.media| && from + count <= ChsMax()
    }

    /**
     `chs_rdwr_sectors` reading, diskio.c:18-148, up to the first call that would make the
     BIOS write to a wrong place.
     */
    method ChsRead(buf: nat, lba: nat, count: nat) returns (done: nat, stray: bool)
      requires m.Good() && Apart(buf, count * m.sectorSize, m.xfer, m.XferLen())
      requires buf + count * m.sectorSize <= m.mem.Length && 1 <= maxtransfer
      requires 1 <= h <= 256 && 1 <= s <= 63
      modifies this`maxtransfer, m`calls, m.mem
      ensures 1 <= maxtransfer <= old(maxtransfer)
      ensures done <= count && (partStart + lba + done <= |m.media| || done == 0)
      ensures done > 0 ==> Reading(old(m.mem[..]), buf, Sectors(m.media, partStart + lba, done), count * m.sectorSize)
      ensures partStart + lba >= ChsMax() ==> done == 0 && !stray
      ensures stray ==> done < count && Strays(buf, buf + done * m.sectorSize, m.sectorSize)
      ensures var r := RouteTo(buf, old(maxtransfer));
              && GoodRoute(r)
              && (Smooth(partStart + lba, count) ==>
                    && done == Clean(r, buf, partStart + lba, count) && (stray <==> done < count)
                    && (KnownPath(r) ==> (stray <==> MayStray(buf, count, m.sectorSize))))
    {
      hide Progress, GoodMedia, Disk.Reading, Machine.Working, Apart, Disk.ChsMax, Strays, MayStray, Close, Clean, GoodRoute, KnownPath;
      ghost var r := RouteTo(buf, maxtransfer);
      RouteGood(buf, maxtransfer);
      if KnownPath(r) { CleanExact(r, partStart + lba, count); }
      if lba + partStart >= ChsMax() {
        return 0, false;
      }
      done, stray := ChsLoop(buf, partStart + lba, count);
    }

    /** One turn of the loop in lines 42-131; chunk 0 on return is failure, or a transfer that would go astray. */
    method ChsStep(buf: nat, from: nat, count: nat, done: nat, ptr: nat, limit0: nat, ghost a: seq<int>, ghost got0: seq<int>)
      returns (chunk: nat, limit: nat, stray: bool, ghost got: seq<int>)
      requires m.Good() && Apart(buf, count * m.sectorSize, m.xfer, m.XferLen()) && buf + count * m.sectorSize <= m.mem.Length
      requires 1 <= h <= 256 && 1 <= s <= 63 && 1 <= limit0 && done < count && ptr == buf + done * m.sectorSize
      requires Reading(a, buf, got0, count * m.sectorSize) && SoFar(from, done, got0)
      requires GoodRoute(RouteTo(buf, limit0))
      modifies m`calls, m.mem
      ensures chunk <= count - done && 1 <= limit <= limit0
      ensures stray <==> Strays(buf, ptr, m.sectorSize)
      ensures stray ==> chunk == 0
      ensures chunk == 0 ==> Reading(a, buf, got0, count * m.sectorSize) && got == got0
      ensures chunk > 0 ==>
                && from + done + chunk <= |m.media| && SoFar(from, done + chunk, got)
                && Reading(a, buf, got, count * m.sectorSize)
      ensures Smooth(from, count) && !stray ==> limit == limit0 && chunk == ChunkAt(RouteTo(buf, limit0), ptr, from + done, count - done)
    {
      hide Progress, GoodMedia, Disk.Reading, Disk.Arrived, Machine.Working, Apart, Disk.ChsMax, Disk.SoFar, FreeSeg;
      var ss, left := m.sectorSize, count - done;
      limit, stray, got := limit0, false, got0;
      Distribute(done, left, ss);
      LengthSoFar(from, done, got0);
      var tptr;
      tptr, chunk := PickInTrack(ptr, buf <= LOW_LIMIT, limit, left, from + done);
      if tptr >= MEGABYTE {
        return 0, limit, true, got0;
      }
      chunk, limit, got := ChsTransfer(from, done, ptr, tptr, chunk, limit, a, buf, got0, count * ss);
    }

    /** The loop of lines 42-131. */
    method ChsLoop(buf: nat, from: nat, count: nat) returns (done: nat, stray: bool)
      requires m.Good() && Apart(buf, count * m.sectorSize, m.xfer, m.XferLen())
      requires buf + count * m.sectorSize <= m.mem.Length && 1 <= maxtransfer
      requires 1 <= h <= 256 && 1 <= s <= 63 && GoodRoute(RouteTo(buf, maxtransfer))
      modifies this`maxtransfer, m`calls, m.mem
      ensures 1 <= maxtransfer <= old(maxtransfer)
      ensures done <= count && (from + done <= |m.media| || done == 0)
      ensures done > 0 ==> Reading(old(m.mem[..]), buf, Sectors(m.media, from, done), count * m.sectorSize)
      ensures stray ==> done < count && Strays(buf, buf + done * m.sectorSize, m.sectorSize)
      ensures Smooth(from, count) ==>
                done == Clean(RouteTo(buf, old(maxtransfer)), buf, from, count) && (stray <==> done < count)
    {
      hide Progress, GoodMedia, Disk.Reading, Disk.Arrived, Disk.Smooth, Apart, Disk.ChsMax, Disk.SoFar, Strays, FreeSeg, ChunkAt;
      hide Clean, GoodRoute;
      done := 0;
      stray := false;
      var ss := m.sectorSize;
      var ptr, limit := buf, maxtransfer;
      ghost var a, r := m.mem[..], RouteTo(buf, maxtransfer);
      ghost var got: seq<int> := [];
      NothingRead(a, buf, count * ss);
      NoneSoFar(from);
      while done < count
        invariant !stray && done <= count && ptr == buf + done * ss
        invariant 1 <= limit <= maxtransfer <= old(maxtransfer)
        invariant SoFar(from, done, got) && Reading(a, buf, got, count * ss)
        invariant GoodRoute(RouteTo(buf, limit))
        invariant Smooth(from, count) ==>
                    limit == old(maxtransfer) && done + Clean(r, ptr, from + done, count - done) == Clean(r, buf, from, count)
        decreases count - done
      {
        var chunk;
        CleanNext(RouteTo(buf, limit), ptr, from + done, count - done);
        chunk, limit, stray, got := ChsStep(buf, from, count, done, ptr, limit, a, got);
        LengthSoFar(from, done + chunk, got);
        RouteGood(buf, limit);
        if chunk == 0 {
          return;
        }
        maxtransfer := limit;
        Distribute(done, chunk, ss);
        ptr := ptr + chunk * ss;
        done := done + chunk;
      }
      LengthSoFar(from, done, got);
    }

    lemma Cylinder(xlba: nat)
      requires h >= 1 && s >= 1
      ensures xlba < ChsMax() ==> xlba / s / h < 1024
    {
      if xlba < ChsMax() {
        assert h * s * 1024 == 1024 * h * s;
        QuotientBelow(xlba, 1024 * h, s);
        QuotientBelow(xlba / s, 1024, h);
      }
    }

    /** `chs_max`, diskio.c:13-16. */
    function ChsMax(): nat { h * s * 1024 }

    /**
     `edd_rdwr_sectors` reading with its fallback, diskio.c:143-264.  `first` is how many
     sectors arrived before it; the fallback starts over at the front of the buffer.
     */
    method EddRdwr(buf: nat, lba: nat, count: nat) returns (done: nat, stray: bool, ghost first: nat)
      requires m.Good() && Apart(buf, count * m.sectorSize, m.xfer, m.XferLen())
      requires buf + count * m.sectorSize <= m.mem.Length && 1 <= maxtransfer
      requires 1 <= h <= 256 && 1 <= s <= 63
      modifies this`maxtransfer, m`calls, m.mem
      ensures first <= count && (first == count ==> done == count && !stray) && (first < count ==> done <= count - first)
      ensures done > 0 ==>
                && partStart + lba + done <= |m.media| && (first < count ==> partStart + lba + first + done <= |m.media|)
                && buf + done * m.sectorSize <= m.mem.Length
                && m.mem[buf..buf + done * m.sectorSize]
                   == Sectors(m.media, partStart + lba + if first < count then first else 0, done)
    {
      hide GoodMedia, Disk.Reading, Disk.Arrived, Machine.Working, Disk.ChsMax, Clean, Strays, MayStray, GoodRoute;
      var fellBack;
      done, fellBack := EddRead(buf, lba, count);
      first, stray := done, false;
      ghost var a := m.mem[..];
      if fellBack {
        MulMono(count - done, count, m.sectorSize);
        done, stray := ChsRead(buf, lba + done, count - done);
      }
      if done > 0 {
        InBuffer(if fellBack then a else old(m.mem[..]), buf, partStart + lba + if fellBack then first else 0, done,
                 (if fellBack then count - first else count) * m.sectorSize);
      }
    }

    lemma InBuffer(a: seq<int>, buf: nat, from: nat, done: nat, total: nat)
      requires m.Good() && from + done <= |m.media| && Reading(a, buf, Sectors(m.media, from, done), total)
      ensures buf + done * m.sectorSize <= m.mem.Length
      ensures m.mem[buf..buf + done * m.sectorSize] == Sectors(m.media, from, done)
    {
      SectorsLength(m.media, m.sectorSize, from, done);
    }
  }

  /** What the fallback puts at the front of the buffer belongs there, for every disk, exactly if nothing had arrived before. */
  lemma FallbackExact(ss: nat, from: nat, first: nat, done: nat)
    requires ss > 0 && done > 0
    ensures (forall media: seq<seq<int>> :: GoodMedia(media, ss) && from + first + done <= |media| ==>
               Sectors(media, from + first, done) == Sectors(media, from, done)) <==> first == 0
  {
    if first > 0 {
      var media := seq(from + first + done, i => seq(ss, _ => i));
      FirstByte(media, ss, from + first, done);
      FirstByte(media, ss, from, done);
      assert media[from][0] != media[from + first][0];
      assert GoodMedia(media, ss) && Sectors(media, from + first, done) != Sectors(media, from, done);
    }
  }

  /** Of two sectors, one read before the fallback and one by it, the second ends up where the first belongs. */
  lemma FallbackWrong()
    ensures var media := [seq(512, _ => 10), seq(512, _ => 20)];
            && GoodMedia(media, 512) && |Sectors(media, 1, 1)| > 0 && |Sectors(media, 0, 2)| > 0
            && Sectors(media, 1, 1)[0] == 20 && Sectors(media, 0, 2)[0] == 10
  {
    var media := [seq(512, _ => 10), seq(512, _ => 20)];
    FirstByte(media, 512, 1, 1);
    FirstByte(media, 512, 0, 2);
  }

  lemma {:induction false} FirstByte(media: seq<seq<int>>, ss: nat, lba: nat, n: nat)
    requires GoodMedia(media, ss) && ss > 0 && n > 0 && lba + n <= |media|
    ensures |Sectors(media, lba, n)| > 0 && Sectors(media, lba, n)[0] == media[lba][0]
    decreases n
  {
    if n == 1 {
      assert Sectors(media, lba, 0) == [];
    } else {
      FirstByte(media, ss, lba, n - 1);
    }
  }
}
