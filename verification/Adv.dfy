/**
 The routines on the auxiliary data vector (adv.inc).
 */
module Adv {
  import opened AdvModel
  import opened Options


  lemma ChainHead(m: seq<int>, p: nat, es: seq<Entry>)
    requires ChainFrom(m, p, es)
    ensures es == [] ==> m[p] == 0
    ensures es != [] ==>
              var n := |es[0].bytes|;
              && 1 <= es[0].tag < 256 && n < 256 && m[p] == es[0].tag && m[p + 1] == n && p + 2 + n < TAIL
              && At(m, p, One(es[0])) && At(m, p + 2, es[0].bytes) && ChainFrom(m, p + 2 + n, es[1..])
              && |Enc(es)| == 2 + n + |Enc(es[1..])|
  {
    if es != [] {
      assert GoodEntry(es[0]);
      AtSplit(m, p, One(es[0]), Enc(es[1..]));
      OneAt(m, p, es[0]);
    }
  }

  lemma OneAt(m: seq<int>, p: nat, e: Entry)
    requires At(m, p, One(e))
    ensures m[p] == e.tag && m[p + 1] == |e.bytes| && At(m, p + 2, e.bytes)
  {
    AtSplit(m, p, [e.tag, |e.bytes|], e.bytes);
    var two := m[p..p + 2];
    assert m[p] == two[0] && m[p + 1] == two[1];
  }

  /** Entries before `p` and entries from `p` on make one chain. */
  ghost predicate Split(m: seq<int>, kept: seq<Entry>, p: nat, rest: seq<Entry>) {
    && ChainFrom(m, p, rest) && p == DATA + |Enc(kept)| && At(m, DATA, Enc(kept))
    && forall e :: e in kept ==> GoodEntry(e)
  }

  lemma SplitChain(m: seq<int>, kept: seq<Entry>, p: nat, rest: seq<Entry>)
    requires Split(m, kept, p, rest)
    ensures Chain(m, kept + rest)
  {
    EncAppend(kept, rest);
    AtSplit(m, DATA, Enc(kept), Enc(rest));
  }

  /** Going on to the next entry. */
  lemma SplitNext(m: seq<int>, kept: seq<Entry>, p: nat, rest: seq<Entry>)
    requires Split(m, kept, p, rest) && rest != []
    ensures Split(m, kept + [rest[0]], p + 2 + |rest[0].bytes|, rest[1..])
  {
    hide At, One;
    ChainHead(m, p, rest);
    EncAppend(kept, [rest[0]]);
    EncOne(rest[0]);
    AtSplit(m, DATA, Enc(kept), One(rest[0]));
    forall e | e in kept + [rest[0]] ensures GoodEntry(e) {
      assert e in kept || e == rest[0];
    }
  }

  lemma EncOne(e: Entry)
    ensures Enc([e]) == One(e) && |One(e)| == 2 + |e.bytes|
  {
    assert [e][1..] == [];
  }

  class Store {
    const adv0: array<int>
    const adv1: array<int>
    const configured: bool        // both sectors and the drive are known
    const outcome: nat -> Call    // what becomes of the n-th BIOS call
    var calls: nat
    var on: bool                  // there is power
    var sec0: Sector
    var sec1: Sector

    constructor (adv0: array<int>, adv1: array<int>, configured: bool, outcome: nat -> Call, sec0: Sector, sec1: Sector)
      ensures this.adv0 == adv0 && this.adv1 == adv1 && this.configured == configured && this.outcome == outcome
      ensures this.sec0 == sec0 && this.sec1 == sec1 && on && calls == 0
    {
      this.adv0, this.adv1, this.configured, this.outcome := adv0, adv1, configured, outcome;
      this.sec0, this.sec1, calls, on := sec0, sec1, 0, true;
    }

    ghost predicate Good() {
      adv0 != adv1 && adv0.Length == SIZE && adv1.Length == SIZE
    }

    /** From call number `k` on every call works. */
    ghost predicate WorksFrom(k: nat) { forall i :: i >= k ==> outcome(i).Worked? }

    /** `adv_get`, lines 152-178: length and position of the string with a tag; length 0 if there is none. */
    method AdvGet(tag: int, ghost es: seq<Entry>) returns (count: int, si: int)
      requires Good() && 1 <= tag < 256 && Chain(adv0[..], es)
      ensures match Find(es, tag)
              case None => count == 0
              case Some(b) => count == |b| && DATA <= si && si + count <= TAIL && At(adv0[..], si, b)
    {
      si := DATA;
      ghost var rest := es;
      while true
        invariant DATA <= si < TAIL && ChainFrom(adv0[..], si, rest) && Find(es, tag) == Find(rest, tag)
        decreases |rest|
      {
        ChainHead(adv0[..], si, rest);
        var al := adv0[si];
        si := si + 1;
        if al == tag {
          count := adv0[si];
          si := si + 1;
          if count + si > TAIL {
            count := 0;
          }
          return;
        }
        if al == 0 {
          return 0, si;
        }
        si := si + 1 + adv0[si];
        if si >= TAIL {
          return 0, si;
        }
        rest := rest[1..];
      }
    }

    /** Lines 213-222: take out the entry at `di`, which is `gap` bytes long, by moving what follows down. */
    method TakeOut(di: nat, gap: nat)
      requires Good() && DATA <= di && 0 < gap && di + gap < TAIL
      modifies adv0
      ensures Shifted(old(adv0[..]), adv0[..], di, gap)
    {
      ghost var m := adv0[..];
      var k := 0;
      while k < TAIL - di - gap
        invariant 0 <= k <= TAIL - di - gap
        invariant forall i :: 0 <= i < SIZE ==> adv0[i] == MovedByte(m, di, gap, di + k, i)
      {
        adv0[di + k] := adv0[di + gap + k];
        k := k + 1;
      }
      adv0[TAIL - gap] := 0;
    }

    /** Lines 239-244: tag, length and bytes at `di`. */
    method PutEntry(di: nat, e: Entry)
      requires Good() && DATA <= di && di + 2 + |e.bytes| <= TAIL
      modifies adv0
      ensures At(adv0[..], di, One(e)) && SameBut(old(adv0[..]), adv0[..], di, di + 2 + |e.bytes|)
    {
      var s := One(e);
      var k := 0;
      while k < |s|
        invariant 0 <= k <= |s|
        invariant adv0[di..di + k] == s[..k]
        invariant forall i :: 0 <= i < SIZE && !(di <= i < di + k) ==> adv0[i] == old(adv0[i])
      {
        adv0[di + k] := s[k];
        k := k + 1;
      }
      assert adv0[..][di..di + |s|] == s;
    }

    /** Lines 247-250: zeros from `di` to the tail. */
    method ZeroFill(di: nat)
      requires Good() && DATA <= di <= TAIL
      modifies adv0
      ensures SameBut(old(adv0[..]), adv0[..], di, TAIL) && forall i :: di <= i < TAIL ==> adv0[i] == 0
    {
      var k := di;
      while k < TAIL
        invariant di <= k <= TAIL && forall i :: di <= i < k ==> adv0[i] == 0
        invariant forall i :: 0 <= i < SIZE && !(di <= i < k) ==> adv0[i] == old(adv0[i])
      {
        adv0[k] := 0;
        k := k + 1;
      }
    }

    /** Lines 196-229: every entry with the tag goes; the result is where the chain then ends. */
    method DropTag(tag: int, ghost es: seq<Entry>) returns (si: nat)
      requires Good() && 1 <= tag < 256 && Chain(adv0[..], es)
      modifies adv0
      ensures Frame(old(adv0[..]), adv0[..]) && Split(adv0[..], Remove(es, tag), si, [])
    {
      hide Enc, At, Frame, One;
      si := DATA;
      ghost var kept: seq<Entry>, rest := [], es;
      StartSplit(adv0[..], es);
      while true
        invariant Split(adv0[..], kept, si, rest) && Frame(old(adv0[..]), adv0[..])
        invariant Remove(es, tag) == kept + Remove(rest, tag)
        decreases |rest|
      {
        ChainHead(adv0[..], si, rest);
        var al := adv0[si];
        if al == tag {
          ghost var m := adv0[..];
          var gap := 2 + adv0[si + 1];
          TakeOut(si, gap);
          Taken(m, adv0[..], kept, si, rest);
          FrameTrans(old(adv0[..]), m, adv0[..]);
          rest := rest[1..];
        } else {
          if al == 0 {
            assert kept + [] == kept;
            return;
          }
          SplitNext(adv0[..], kept, si, rest);
          assert kept + ([rest[0]] + Remove(rest[1..], tag)) == kept + [rest[0]] + Remove(rest[1..], tag);
          kept := kept + [rest[0]];
          si := si + 2 + adv0[si + 1];
          rest := rest[1..];
        }
      }
    }

    /** `adv_set`, lines 191-260; the result is the carry flag. */
    method AdvSet(tag: int, src: seq<int>, ghost es: seq<Entry>) returns (overflow: bool)
      requires Good() && 1 <= tag < 256 && Chain(adv0[..], es)
      modifies adv0
      ensures Chain(adv0[..], Set(es, tag, src)) && Frame(old(adv0[..]), adv0[..])
      ensures overflow <==> |src| > 255 || (src != [] && Overflows(es, tag, src))
      ensures |src| > 255 ==> adv0[..] == old(adv0[..])
    {
      hide Enc, At, One, Chain;
      FrameSelf(adv0[..]);
      if |src| >= 256 {
        return true;
      }
      var si := DropTag(tag, es);
      ghost var kept, m := Remove(es, tag), adv0[..];
      SplitEnd(m, kept, si);
      var di := si;
      if |src| != 0 {
        if si + |src| >= TAIL - 2 {
          return true;
        }
        PutEntry(di, Entry(tag, src));
        di := di + 2 + |src|;
      }
      ghost var m1 := adv0[..];
      ZeroFill(di);
      if |src| != 0 {
        Appended(m, m1, adv0[..], kept, si, Entry(tag, src));
      } else {
        Cleared(m, adv0[..], kept, si);
      }
      overflow := false;
    }

    // ---------- checking, repairing, writing

    /** `.check_adv`, lines 122-139. */
    method CheckAdv(m: array<int>) returns (good: bool)
      requires m.Length == SIZE
      ensures good == Usable(m[..])
    {
      if DWord(m[..], 0) != ADV_MAGIC1 {
        return false;
      }
      var edx, k := 0, 0;
      while k < ADV_LEN / 4 + 1
        invariant 0 <= k <= ADV_LEN / 4 + 1 && edx == Sum(m[..], 4, k)
      {
        edx := (edx + DWord(m[..], 4 + 4 * k)) % WORD;
        k := k + 1;
      }
      good := edx == ADV_MAGIC2 && DWord(m[..], TAIL) == ADV_MAGIC3;
    }

    method Fill(m: array<int>, s: seq<int>)
      requires m.Length == |s|
      modifies m
      ensures m[..] == s
    {
      var k := 0;
      while k < |s|
        invariant 0 <= k <= |s| && m[..k] == s[..k]
      {
        m[k] := s[k];
        k := k + 1;
      }
    }

    /** `adv_verify`, lines 85-117. */
    method AdvVerify()
      requires Good()
      modifies adv0
      ensures adv0[..] == if configured then Recovered(old(adv0[..]), adv1[..]) else Blank()
      ensures Usable(adv0[..])
    {
      BlankUsable();
      if configured {
        var ok := CheckAdv(adv0);
        if ok {
          return;
        }
        ok := CheckAdv(adv1);
        if ok {
          Fill(adv0, adv1[..]);
          return;
        }
      }
      Fill(adv0, Blank());
    }

    /** `adv_cleanup`, lines 266-283: the checksum is put right and the copy made. */
    method AdvCleanup()
      requires Good() && Framed(adv0[..])
      modifies adv0, adv1
      ensures Usable(adv0[..]) && adv1[..] == adv0[..]
      ensures adv0[DATA..] == old(adv0[DATA..]) && adv0[..4] == old(adv0[..4])
    {
      ghost var m := adv0[..];
      var edx, k := 0, 0;
      while k < ADV_LEN / 4
        invariant 0 <= k <= ADV_LEN / 4 && edx == Sum(m, DATA, k) && adv0[..] == m
      {
        edx := (edx + DWord(adv0[..], DATA + 4 * k)) % WORD;
        k := k + 1;
      }
      SumRange(m, DATA, ADV_LEN / 4);
      var csum := Bytes((ADV_MAGIC2 - edx) % WORD);
      adv0[4], adv0[5], adv0[6], adv0[7] := csum[0], csum[1], csum[2], csum[3];
      assert adv0[..][4..8] == csum;
      Sealed(m, adv0[..], csum);
      Fill(adv1, adv0[..]);
    }

    /** One sector read or written, with retries (lines 354-387). */
    method OneSector(content: Sector, was: Sector) returns (now: Sector, ok: bool)
      requires on
      modifies this`calls, this`on
      ensures Try(now, ok, calls, on) == Tries(content, was, outcome, old(calls), RETRIES)
    {
      now := was;
      var cx := RETRIES;
      while cx > 0
        invariant 0 <= cx <= RETRIES && on
        invariant Tries(content, now, outcome, calls, cx) == Tries(content, was, outcome, old(calls), RETRIES)
        decreases cx
      {
        var call := outcome(calls);
        calls := calls + 1;
        match call {
          case Worked =>
            return content, true;
          case Failed(e) =>
            now := Left(e, now, content);
          case Died(e) =>
            on := false;
            return Left(e, now, content), false;
        }
        cx := cx - 1;
      }
      ok := false;
    }

    /** `adv_write`, lines 293-314; the result is the carry flag. */
    method AdvWrite() returns (noPlace: bool)
      requires Good() && Framed(adv0[..]) && on
      modifies adv0, adv1, this`calls, this`sec0, this`sec1, this`on
      ensures noPlace == !configured
      ensures noPlace ==> adv0[..] == old(adv0[..]) && sec0 == old(sec0) && sec1 == old(sec1) && on
      ensures adv0[DATA..] == old(adv0[DATA..])
      ensures !noPlace ==> Usable(adv0[..])
      ensures !noPlace ==>
                var w := WriteBoth(old(sec0), old(sec1), adv0[..], outcome, old(calls));
                sec0 == w.s0 && sec1 == w.s1 && calls == w.calls && on == w.on
      ensures !noPlace && WorksFrom(old(calls)) ==> sec0 == sec1 == adv0[..]
    {
      hide Usable, Framed;
      if !configured {
        return true;
      }
      AdvCleanup();
      var ok;
      sec0, ok := OneSector(adv0[..], sec0);
      if on {
        sec1, ok := OneSector(adv1[..], sec1);
      }
      noPlace := false;
    }

    /** `adv_read`, lines 322-328. */
    method AdvRead()
      requires Good() && on
      modifies adv0, adv1, this`calls, this`on
      ensures on ==> Usable(adv0[..])
      ensures WorksFrom(old(calls)) ==> on && (configured ==> adv0[..] == Recovered(sec0, sec1))
    {
      hide Usable;
      var m, ok := OneSector(sec0, adv0[..]);
      Fill(adv0, m);
      if on {
        m, ok := OneSector(sec1, adv1[..]);
        Fill(adv1, m);
      }
      if on {
        AdvVerify();
      }
    }

    /** The power comes back, with anything in memory. */
    method PowerCycle()
      requires Good()
      modifies adv0, adv1, this`on
      ensures on
    {
      on := true;
      var m0: Sector, m1: Sector := *, *;
      Fill(adv0, m0);
      Fill(adv1, m1);
    }

    /**
     The vector is written, the machine started again, and the vector read: the old or the
     new vector is there exactly as `WriteExact` says of the calls, and for sectors as in
     `PowerLossExact` the power alone does no harm.
     */
    method WriteAndStartAgain() returns (ghost next: Sector)
      requires Good() && Framed(adv0[..]) && on && configured
      modifies adv0, adv1, this`calls, this`sec0, this`sec1, this`on
      ensures Usable(next) && next[DATA..] == old(adv0[DATA..])
      ensures var d0, d1, (f0, f1) := old(sec0), old(sec1), Fates(outcome, old(calls));
              Detected(outcome) && WorksFrom(WriteBoth(d0, d1, next, outcome, old(calls)).calls) ==>
                && (OldOrNew(adv0[..], d0, d1, next) <==>
                      || f0 == Written || f1 == Written || (f0 == Kept && Usable(d0))
                      || OldOrNew(if f1 == Kept then Alone(d1) else Blank(), d0, d1, next))
                && (OnlyPower(outcome) && OldOrNew(Alone(d1), d0, d1, next) ==> OldOrNew(adv0[..], d0, d1, next))
    {
      hide Usable, Blank, WriteBoth, Recovered, Detected, OnlyPower, Fates, Alone;
      ghost var d0, d1, k := sec0, sec1, calls;
      var _ := AdvWrite();
      next := adv0[..];
      PowerCycle();
      if Detected(outcome) {
        WriteExact(d0, d1, next, outcome, k);
        PowerLossExact(d0, d1, next);
      }
      AdvRead();
    }
  }

  lemma SumRange(m: seq<int>, at: nat, n: nat)
    requires at + 4 * n <= |m|
    ensures 0 <= Sum(m, at, n) < WORD
  {
  }

  /** With the checksum complement in place, the vector is usable. */
  lemma Sealed(m: seq<int>, r: seq<int>, csum: seq<int>)
    requires |m| == |r| == SIZE && Framed(m) && csum == Bytes((ADV_MAGIC2 - Sum(m, DATA, ADV_LEN / 4)) % WORD)
    requires r[4..8] == csum && (forall i :: 0 <= i < SIZE && !(4 <= i < 8) ==> r[i] == m[i])
    ensures Usable(r) && r[DATA..] == m[DATA..] && r[..4] == m[..4]
  {
    hide Sum, DWord, Bytes;
    var sum := Sum(m, DATA, ADV_LEN / 4);
    var x := (ADV_MAGIC2 - sum) % WORD;
    BytesDWord(x, r, 4);
    SumFirst(r, 4, ADV_LEN / 4);
    SumSame(m, r, DATA, ADV_LEN / 4);
    SumRange(m, DATA, ADV_LEN / 4);
    assert (x + sum) % WORD == ADV_MAGIC2;
    DWordSame(m, r, 0);
    DWordSame(m, r, TAIL);
  }

  lemma DWordSame(m: seq<int>, r: seq<int>, at: nat)
    requires at + 4 <= |m| == |r| && forall i :: at <= i < at + 4 ==> r[i] == m[i]
    ensures DWord(r, at) == DWord(m, at)
  {
  }

  lemma {:induction false} SumSame(m: seq<int>, r: seq<int>, at: nat, n: nat)
    requires at + 4 * n <= |m| == |r| && forall i :: at <= i < at + 4 * n ==> r[i] == m[i]
    ensures Sum(r, at, n) == Sum(m, at, n)
  {
    if n > 0 {
      SumSame(m, r, at, n - 1);
    }
  }

  /** Two memories differ only from `lo` up to `hi`. */
  ghost predicate SameBut(m: seq<int>, r: seq<int>, lo: nat, hi: nat) {
    |m| == |r| == SIZE && forall i :: 0 <= i < SIZE && !(lo <= i < hi) ==> r[i] == m[i]
  }

  lemma SameBelow(m: seq<int>, r: seq<int>, lo: nat, hi: nat, s: seq<int>)
    requires SameBut(m, r, lo, hi) && DATA <= lo <= hi <= TAIL && At(m, DATA, s) && DATA + |s| <= lo
    ensures At(r, DATA, s) && Frame(m, r)
  {
    assert r[DATA..lo] == m[DATA..lo];
    AtMoved(m, DATA, r, DATA, lo - DATA, s);
  }

  lemma StartSplit(m: seq<int>, es: seq<Entry>)
    requires Chain(m, es)
    ensures Split(m, [], DATA, es) && Frame(m, m)
  {
  }

  lemma FrameSelf(m: seq<int>)
    requires |m| == SIZE
    ensures Frame(m, m)
  {
  }

  lemma FrameTrans(a: seq<int>, b: seq<int>, c: seq<int>)
    requires Frame(a, b) && Frame(b, c)
    ensures Frame(a, c)
  {
    forall i | 0 <= i < SIZE && !(DATA <= i < TAIL) ensures c[i] == a[i] {
      assert b[i] == a[i];
    }
  }

  lemma SplitEnd(m: seq<int>, kept: seq<Entry>, p: nat)
    requires Split(m, kept, p, [])
    ensures Chain(m, kept) && DATA <= p == DATA + |Enc(kept)| < TAIL
  {
    SplitChain(m, kept, p, []);
    assert kept + [] == kept;
  }

  /** Zeros behind the chain change nothing in it. */
  lemma Cleared(m: seq<int>, r: seq<int>, kept: seq<Entry>, p: nat)
    requires Split(m, kept, p, []) && SameBut(m, r, p, TAIL) && (forall i :: p <= i < TAIL ==> r[i] == 0)
    ensures Chain(r, kept) && Frame(m, r)
  {
    SplitEnd(m, kept, p);
    SameBelow(m, r, p, TAIL, Enc(kept));
  }

  /** A new entry behind the chain, and zeros behind it. */
  lemma Appended(m: seq<int>, m1: seq<int>, r: seq<int>, kept: seq<Entry>, p: nat, e: Entry)
    requires Split(m, kept, p, []) && GoodEntry(e) && p + 2 + |e.bytes| < TAIL
    requires SameBut(m, m1, p, p + 2 + |e.bytes|) && At(m1, p, One(e))
    requires SameBut(m1, r, p + 2 + |e.bytes|, TAIL) && (forall i :: p + 2 + |e.bytes| <= i < TAIL ==> r[i] == 0)
    ensures Chain(r, kept + [e]) && Frame(m, r)
  {
    hide At, One, Enc;
    SplitEnd(m, kept, p);
    EncOne(e);
    EncAppend(kept, [e]);
    SameBelow(m, m1, p, p + 2 + |e.bytes|, Enc(kept));
    AtSplit(m1, DATA, Enc(kept), One(e));
    SameBelow(m1, r, p + 2 + |e.bytes|, TAIL, Enc(kept) + One(e));
    FrameTrans(m, m1, r);
    forall x | x in kept + [e] ensures GoodEntry(x) {
      assert x in kept || x == e;
    }
  }

  /** From `di` on everything has come down by `gap` bytes, with a zero put behind it. */
  ghost predicate Shifted(m: seq<int>, r: seq<int>, di: nat, gap: nat) {
    && |m| == |r| == SIZE && di + gap <= TAIL
    && forall i :: 0 <= i < SIZE ==> r[i] == (if i == TAIL - gap then 0 else MovedByte(m, di, gap, TAIL - gap, i))
  }

  function MovedByte(m: seq<int>, di: nat, gap: nat, end: nat, i: nat): int
    requires |m| == SIZE && end + gap <= SIZE && i < SIZE
  {
    if di <= i < end then m[i + gap] else m[i]
  }

  /** Taking an entry out leaves the chain of the others. */
  lemma Taken(m: seq<int>, r: seq<int>, kept: seq<Entry>, p: nat, rest: seq<Entry>)
    requires Split(m, kept, p, rest) && rest != []
    requires Shifted(m, r, p, 2 + |rest[0].bytes|)
    ensures Split(r, kept, p, rest[1..])
    ensures Frame(m, r)
  {
    hide At, Enc, Shifted, Frame, One;
    ChainHead(m, p, rest);
    var gap, n := 2 + |rest[0].bytes|, |Enc(rest[1..])|;
    ShiftedBelow(m, r, p, gap);
    ShiftedAbove(m, r, p, gap, n);
    AtMoved(m, DATA, r, DATA, p - DATA, Enc(kept));
    AtMoved(m, p + gap, r, p, n, Enc(rest[1..]));
  }

  lemma ShiftedBelow(m: seq<int>, r: seq<int>, di: nat, gap: nat)
    requires Shifted(m, r, di, gap) && DATA <= di && 0 < gap
    ensures |r| == |m| == SIZE && r[DATA..di] == m[DATA..di] && Frame(m, r)
  {
    forall i | DATA <= i < di ensures r[i] == m[i] {
    }
  }

  lemma ShiftedAbove(m: seq<int>, r: seq<int>, di: nat, gap: nat, n: nat)
    requires Shifted(m, r, di, gap) && di + gap + n < TAIL
    ensures r[di..di + n] == m[di + gap..di + gap + n] && r[di + n] == m[di + gap + n]
  {
    forall i | di <= i < di + n ensures r[i] == m[i + gap] {
    }
  }

  /** Only the data area differs. */
  ghost predicate Frame(m: seq<int>, r: seq<int>) {
    |m| == |r| == SIZE && forall i :: 0 <= i < SIZE && !(DATA <= i < TAIL) ==> r[i] == m[i]
  }
}
