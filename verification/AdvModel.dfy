/**
 The auxiliary data vector: a chain of tagged strings, and what its two copies promise.
 */
module AdvModel {
  import opened Options

  const ADV_LEN: nat := 500
  const DATA: nat := 8
  const TAIL: nat := 508
  const SIZE: nat := 512
  const ADV_MAGIC1: int := 0x5a2d2fa5
  const ADV_MAGIC2: int := 0xa3041767
  const ADV_MAGIC3: int := 0xdd28bf64
  const WORD: int := 0x1_0000_0000

  // ---------- the chain of entries

  datatype Entry = Entry(tag: int, bytes: seq<int>)

  ghost predicate GoodEntry(e: Entry) {
    1 <= e.tag < 256 && |e.bytes| < 256
  }

  function One(e: Entry): seq<int> {
    [e.tag, |e.bytes|] + e.bytes
  }

  function Enc(es: seq<Entry>): seq<int> {
    if es == [] then [] else One(es[0]) + Enc(es[1..])
  }

  /** The bytes `s` lie at `p`. */
  predicate At(m: seq<int>, p: nat, s: seq<int>) {
    p + |s| <= |m| && m[p..p + |s|] == s
  }

  lemma AtSplit(m: seq<int>, p: nat, a: seq<int>, b: seq<int>)
    ensures At(m, p, a + b) <==> At(m, p, a) && At(m, p + |a|, b)
  {
    if At(m, p, a + b) {
      assert m[p..p + |a|] == m[p..p + |a + b|][..|a|];
      assert m[p + |a|..p + |a| + |b|] == m[p..p + |a + b|][|a|..];
    }
    if At(m, p, a) && At(m, p + |a|, b) {
      assert m[p..p + |a + b|] == m[p..p + |a|] + m[p + |a|..p + |a| + |b|];
    }
  }

  /** Equal stretches hold the same bytes. */
  lemma AtMoved(m: seq<int>, p: nat, r: seq<int>, q: nat, n: nat, s: seq<int>)
    requires At(m, p, s) && |s| <= n && p + n <= |m| && q + n <= |r| && r[q..q + n] == m[p..p + n]
    ensures At(r, q, s)
  {
    assert r[q..q + |s|] == r[q..q + n][..|s|];
    assert m[p..p + |s|] == m[p..p + n][..|s|];
  }

  /** From `p` on, the vector holds the entries and then a zero. */
  ghost predicate ChainFrom(m: seq<int>, p: nat, es: seq<Entry>) {
    && |m| == SIZE && p + |Enc(es)| < TAIL
    && At(m, p, Enc(es)) && m[p + |Enc(es)|] == 0
    && forall e :: e in es ==> GoodEntry(e)
  }

  ghost predicate Chain(m: seq<int>, es: seq<Entry>) {
    ChainFrom(m, DATA, es)
  }

  /** The first string with a tag. */
  function Find(es: seq<Entry>, tag: int): Option<seq<int>> {
    if es == [] then None else if es[0].tag == tag then Some(es[0].bytes) else Find(es[1..], tag)
  }

  function Remove(es: seq<Entry>, tag: int): seq<Entry> {
    if es == [] then []
    else if es[0].tag == tag then Remove(es[1..], tag)
    else [es[0]] + Remove(es[1..], tag)
  }

  /** What `adv_set` makes of the entries. */
  function Set(es: seq<Entry>, tag: int, bytes: seq<int>): seq<Entry> {
    if |bytes| > 255 then es
    else if bytes == [] || Overflows(es, tag, bytes) then Remove(es, tag)
    else Remove(es, tag) + [Entry(tag, bytes)]
  }

  /** No room for the new entry and a final zero, once the old entry is gone. */
  predicate Overflows(es: seq<Entry>, tag: int, bytes: seq<int>) {
    DATA + |Enc(Remove(es, tag))| + |bytes| >= TAIL - 2
  }

  lemma {:induction false} EncAppend(a: seq<Entry>, b: seq<Entry>)
    ensures Enc(a + b) == Enc(a) + Enc(b)
    decreases |a|
  {
    if a == [] {
      assert a + b == b;
    } else {
      EncAppend(a[1..], b);
      assert (a + b)[1..] == a[1..] + b;
      assert One(a[0]) + (Enc(a[1..]) + Enc(b)) == One(a[0]) + Enc(a[1..]) + Enc(b);
    }
  }

  lemma {:induction false} RemoveFind(es: seq<Entry>, tag: int, other: int)
    ensures Find(Remove(es, tag), other) == if other == tag then None else Find(es, other)
    decreases |es|
  {
    if es != [] {
      RemoveFind(es[1..], tag, other);
      if es[0].tag != tag {
        assert ([es[0]] + Remove(es[1..], tag))[1..] == Remove(es[1..], tag);
      }
    }
  }

  lemma {:induction false} AppendFind(es: seq<Entry>, e: Entry, tag: int)
    ensures Find(es + [e], tag) == if Find(es, tag).Some? then Find(es, tag) else if e.tag == tag then Some(e.bytes) else None
    decreases |es|
  {
    if es == [] {
      assert (es + [e])[1..] == [];
    } else {
      assert (es + [e])[1..] == es[1..] + [e];
      AppendFind(es[1..], e, tag);
    }
  }

  /** `adv_set` then `adv_get` is a finite map: the tag is replaced or removed, every other tag is as before. */
  lemma SetFind(es: seq<Entry>, tag: int, bytes: seq<int>, other: int)
    ensures Find(Set(es, tag, bytes), other) ==
            if other != tag || |bytes| > 255 then Find(es, other)
            else if bytes == [] || Overflows(es, tag, bytes) then None
            else Some(bytes)
  {
    RemoveFind(es, tag, other);
    AppendFind(Remove(es, tag), Entry(tag, bytes), other);
  }

  /** A string is stored exactly if the chain with it and the zero behind it fit the area. */
  lemma StoredExact(es: seq<Entry>, tag: int, bytes: seq<int>)
    requires 0 < |bytes| <= 255
    ensures Find(Set(es, tag, bytes), tag) == Some(bytes) <==> |Enc(Remove(es, tag) + [Entry(tag, bytes)])| + 1 <= ADV_LEN
  {
    SetFind(es, tag, bytes, tag);
    var e := Entry(tag, bytes);
    EncAppend(Remove(es, tag), [e]);
    assert Enc([e]) == One(e) + Enc([e][1..]) && [e][1..] == [];
  }

  // ---------- checksums and copies

  function DWord(m: seq<int>, at: nat): int
    requires at + 4 <= |m|
  {
    m[at] + 0x100 * m[at + 1] + 0x1_0000 * m[at + 2] + 0x100_0000 * m[at + 3]
  }

  /** The sum of `n` dwords from `at` on, in 32 bits. */
  function Sum(m: seq<int>, at: nat, n: nat): int
    requires at + 4 * n <= |m|
  {
    if n == 0 then 0 else (Sum(m, at, n - 1) + DWord(m, at + 4 * (n - 1))) % WORD
  }

  /** A usable copy (adv.inc:122-139). */
  predicate Usable(m: seq<int>)
    requires |m| == SIZE
  {
    DWord(m, 0) == ADV_MAGIC1 && Sum(m, 4, ADV_LEN / 4 + 1) == ADV_MAGIC2 && DWord(m, TAIL) == ADV_MAGIC3
  }

  predicate Framed(m: seq<int>)
    requires |m| == SIZE
  {
    DWord(m, 0) == ADV_MAGIC1 && DWord(m, TAIL) == ADV_MAGIC3
  }

  /** The four bytes of a dword. */
  function Bytes(x: int): (b: seq<int>)
    ensures |b| == 4
  {
    [x % 0x100, x / 0x100 % 0x100, x / 0x1_0000 % 0x100, x / 0x100_0000]
  }

  lemma BytesDWord(x: int, m: seq<int>, at: nat)
    requires 0 <= x < WORD && at + 4 <= |m| && m[at..at + 4] == Bytes(x)
    ensures DWord(m, at) == x
  {
    assert m[at] == m[at..at + 4][0] && m[at + 1] == m[at..at + 4][1];
    assert m[at + 2] == m[at..at + 4][2] && m[at + 3] == m[at..at + 4][3];
    var b := x / 0x100;
    var c := b / 0x100;
    assert x / 0x1_0000 == c && x / 0x100_0000 == c / 0x100;
  }

  /** The blank vector that `adv_verify` falls back to (lines 97-107). */
  function Blank(): (m: seq<int>)
    ensures |m| == SIZE
  {
    Bytes(ADV_MAGIC1) + Bytes(ADV_MAGIC2) + seq(ADV_LEN, _ => 0) + Bytes(ADV_MAGIC3)
  }

  lemma {:induction false} SumZeros(m: seq<int>, at: nat, n: nat)
    requires at + 4 * n <= |m| && forall k :: at <= k < at + 4 * n ==> m[k] == 0
    ensures Sum(m, at, n) == 0
  {
    if n > 0 {
      SumZeros(m, at, n - 1);
    }
  }

  lemma {:induction false} SumFirst(m: seq<int>, at: nat, n: nat)
    requires at + 4 * (n + 1) <= |m|
    ensures Sum(m, at, n + 1) == (DWord(m, at) + Sum(m, at + 4, n)) % WORD
    decreases n
  {
    hide DWord;
    if n > 0 {
      SumFirst(m, at, n - 1);
      assert at + 4 * n == at + 4 + 4 * (n - 1);
      ModSum(DWord(m, at), Sum(m, at + 4, n - 1), DWord(m, at + 4 * n));
    } else {
      ModSum(0, DWord(m, at), 0);
    }
  }

  lemma ModSum(a: int, b: int, c: int)
    ensures ((a + b) % WORD + c) % WORD == (a + (b + c) % WORD) % WORD
  {
  }

  /** The bytes of a blank vector, as other programs look for them. */
  lemma BlankBytes()
    ensures Blank()[..4] == [0xa5, 0x2f, 0x2d, 0x5a] && Blank()[4..8] == [0x67, 0x17, 0x04, 0xa3]
    ensures Blank()[TAIL..] == [0x64, 0xbf, 0x28, 0xdd] && forall i :: DATA <= i < TAIL ==> Blank()[i] == 0
  {
  }

  lemma BlankUsable()
    ensures Usable(Blank()) && Chain(Blank(), [])
  {
    var m := Blank();
    hide Sum, DWord;
    BytesDWord(ADV_MAGIC1, m, 0);
    BytesDWord(ADV_MAGIC2, m, 4);
    BytesDWord(ADV_MAGIC3, m, TAIL);
    SumFirst(m, 4, ADV_LEN / 4);
    SumZeros(m, DATA, ADV_LEN / 4);
  }

  /** What reading the two copies yields (lines 85-117). */
  function Recovered(d0: seq<int>, d1: seq<int>): (m: seq<int>)
    requires |d0| == |d1| == SIZE
    ensures |m| == SIZE
  {
    if Usable(d0) then d0 else if Usable(d1) then d1 else Blank()
  }

  // ---------- writing the two copies, call by call (adv.inc:336-387)

  const RETRIES: nat := 6

  type Sector = s: seq<int> | |s| == SIZE witness seq(SIZE, _ => 0)

  /** What a BIOS call that did not succeed has done to its target. */
  datatype Effect = Nothing | All | Torn(s: Sector)

  /** A call works, fails, or is the one during which the power goes. */
  datatype Call = Worked | Failed(e: Effect) | Died(e: Effect)

  function Left(e: Effect, was: Sector, content: Sector): Sector {
    match e
    case Nothing => was
    case All => content
    case Torn(s) => s
  }

  datatype Try = Try(now: Sector, ok: bool, calls: nat, on: bool)

  /** Up to `cx` calls with `content`, from call number `k` on, on a target that holds `was` (lines 354-387). */
  function Tries(content: Sector, was: Sector, outcome: nat -> Call, k: nat, cx: nat): Try
    decreases cx
  {
    if cx == 0 then Try(was, false, k, true)
    else
      match outcome(k)
      case Worked => Try(content, true, k + 1, true)
      case Failed(e) => Tries(content, Left(e, was, content), outcome, k + 1, cx - 1)
      case Died(e) => Try(Left(e, was, content), false, k + 1, false)
  }

  /** Both sectors after a write; `reached` tells whether the second one was begun. */
  datatype Both = Both(s0: Sector, s1: Sector, ok0: bool, ok1: bool, reached: bool, calls: nat, on: bool)

  /** The second copy is written whatever became of the first, as long as there is power (lines 340-352). */
  function WriteBoth(d0: Sector, d1: Sector, next: Sector, outcome: nat -> Call, k: nat): Both {
    var a := Tries(next, d0, outcome, k, RETRIES);
    if !a.on then Both(a.now, d1, false, false, false, a.calls, false)
    else
      var b := Tries(next, d1, outcome, a.calls, RETRIES);
      Both(a.now, b.now, a.ok, b.ok, true, b.calls, b.on)
  }

  /** What reading the sectors back yields is the old vector or the new one. */
  predicate Intact(d0: Sector, d1: Sector, next: Sector, w: Both) {
    Recovered(w.s0, w.s1) == Recovered(d0, d1) || Recovered(w.s0, w.s1) == next
  }

  /** A sector that was written in part does not pass the check. */
  ghost predicate Detected(outcome: nat -> Call) {
    forall k :: !outcome(k).Worked? && outcome(k).e.Torn? ==> !Usable(outcome(k).e.s)
  }

  /** Nothing ever fails but for the power. */
  ghost predicate OnlyPower(outcome: nat -> Call) {
    forall k :: !outcome(k).Failed?
  }

  /** What becomes of a sector, told by the calls alone. */
  datatype Fate = Kept | Lost | Written

  function After(e: Effect, f: Fate): Fate {
    match e
    case Nothing => f
    case All => Written
    case Torn(_) => Lost
  }

  datatype Course = Course(fate: Fate, calls: nat, on: bool)

  /** How up to `cx` calls from number `k` on leave a sector of fate `f`. */
  function CourseOf(outcome: nat -> Call, k: nat, cx: nat, f: Fate): Course
    decreases cx
  {
    if cx == 0 then Course(f, k, true)
    else
      match outcome(k)
      case Worked => Course(Written, k + 1, true)
      case Failed(e) => CourseOf(outcome, k + 1, cx - 1, After(e, f))
      case Died(e) => Course(After(e, f), k + 1, false)
  }

  /** `now` is what a sector of fate `f` can hold. */
  predicate Fits(f: Fate, was: Sector, content: Sector, now: Sector) {
    match f
    case Kept => now == was
    case Lost => !Usable(now)
    case Written => now == content
  }

  lemma {:induction false} TriesCourse(content: Sector, first: Sector, was: Sector, f: Fate, outcome: nat -> Call, k: nat, cx: nat)
    requires Detected(outcome) && Fits(f, first, content, was)
    ensures var t, c := Tries(content, was, outcome, k, cx), CourseOf(outcome, k, cx, f);
            t.calls == c.calls && t.on == c.on && Fits(c.fate, first, content, t.now) && (t.ok ==> c.fate == Written)
    decreases cx
  {
    hide Usable;
    if cx > 0 && outcome(k).Failed? {
      var e := outcome(k).e;
      TriesCourse(content, first, Left(e, was, content), After(e, f), outcome, k + 1, cx - 1);
    }
  }

  /** What the calls do to the two sectors; the second is not begun without power. */
  function Fates(outcome: nat -> Call, k: nat): (Fate, Fate) {
    var a := CourseOf(outcome, k, RETRIES, Kept);
    (a.fate, if a.on then CourseOf(outcome, a.calls, RETRIES, Kept).fate else Kept)
  }

  /** What there is without the first copy. */
  function Alone(d1: Sector): Sector { if Usable(d1) then d1 else Blank() }

  /** `m` is the vector that was there, or the one that was to be written. */
  predicate OldOrNew(m: Sector, d0: Sector, d1: Sector, next: Sector) {
    m == Recovered(d0, d1) || m == next
  }

  /**
     For any calls that fail or that the power ends, what the sectors held and what the calls
     did decide whether the old or the new vector comes back: a copy was written, or the
     first was not touched, or what is left without it happens to be one of the two.
   */
  lemma WriteExact(d0: Sector, d1: Sector, next: Sector, outcome: nat -> Call, k: nat)
    requires Usable(next) && Detected(outcome)
    ensures var (f0, f1) := Fates(outcome, k);
            Intact(d0, d1, next, WriteBoth(d0, d1, next, outcome, k)) <==>
              || f0 == Written || f1 == Written || (f0 == Kept && Usable(d0))
              || OldOrNew(if f1 == Kept then Alone(d1) else Blank(), d0, d1, next)
  {
    hide Tries, CourseOf, Usable, Blank;
    var a := Tries(next, d0, outcome, k, RETRIES);
    TriesCourse(next, d0, d0, Kept, outcome, k, RETRIES);
    TriesCourse(next, d1, d1, Kept, outcome, a.calls, RETRIES);
  }

  /**
     The power may go at any call: the old or the new vector comes back every time, exactly
     if the sectors are such that the second copy alone already yields one of the two.
   */
  lemma PowerLossExact(d0: Sector, d1: Sector, next: Sector)
    requires Usable(next)
    ensures (forall outcome: nat -> Call, k: nat :: Detected(outcome) && OnlyPower(outcome) ==>
               Intact(d0, d1, next, WriteBoth(d0, d1, next, outcome, k)))
            <==> OldOrNew(Alone(d1), d0, d1, next)
  {
    hide WriteBoth, Usable, Blank, Intact, Detected, OnlyPower;
    forall outcome: nat -> Call, k: nat | Detected(outcome) && OnlyPower(outcome) && OldOrNew(Alone(d1), d0, d1, next)
      ensures Intact(d0, d1, next, WriteBoth(d0, d1, next, outcome, k))
    {
      PowerFates(outcome, k);
      WriteExact(d0, d1, next, outcome, k);
    }
    var torn: nat -> Call := _ => Died(Torn(Zeros()));
    TornDetected();
    WriteExact(d0, d1, next, torn, 0);
  }

  /** Without failures the second copy is lost only after the first has been written. */
  lemma PowerFates(outcome: nat -> Call, k: nat)
    requires OnlyPower(outcome)
    ensures Fates(outcome, k).0 == Written || Fates(outcome, k).1 == Kept
  {
  }

  lemma TornDetected()
    ensures var torn: nat -> Call := _ => Died(Torn(Zeros()));
            Detected(torn) && OnlyPower(torn) && Fates(torn, 0) == (Lost, Kept)
    ensures var failing: nat -> Call := _ => Failed(Torn(Zeros()));
            Detected(failing) && Fates(failing, 0) == (Lost, Lost)
  {
    ZerosUnusable();
    hide Usable;
    var failing: nat -> Call := _ => Failed(Torn(Zeros()));
    AllLost(failing, 0, RETRIES, Kept);
    AllLost(failing, RETRIES, RETRIES, Kept);
  }

  lemma {:induction false} AllLost(outcome: nat -> Call, k: nat, cx: nat, f: Fate)
    requires forall i :: outcome(i) == Failed(Torn(Zeros()))
    ensures CourseOf(outcome, k, cx, f) == Course(if cx == 0 then f else Lost, k + cx, true)
    decreases cx
  {
    if cx > 0 {
      AllLost(outcome, k + 1, cx - 1, Lost);
    }
  }

  /**
     Calls may fail and the power may go: the old or the new vector comes back every time,
     exactly if the blank vector is one of the two and so is the second copy, if usable.
   */
  lemma FailuresExact(d0: Sector, d1: Sector, next: Sector)
    requires Usable(next)
    ensures (forall outcome: nat -> Call, k: nat :: Detected(outcome) ==>
               Intact(d0, d1, next, WriteBoth(d0, d1, next, outcome, k)))
            <==> OldOrNew(Blank(), d0, d1, next) && OldOrNew(Alone(d1), d0, d1, next)
  {
    hide WriteBoth, Usable, Blank, Intact, Detected;
    forall outcome: nat -> Call, k: nat
      | Detected(outcome) && OldOrNew(Blank(), d0, d1, next) && OldOrNew(Alone(d1), d0, d1, next)
      ensures Intact(d0, d1, next, WriteBoth(d0, d1, next, outcome, k))
    {
      WriteExact(d0, d1, next, outcome, k);
    }
    TornDetected();
    var torn: nat -> Call := _ => Died(Torn(Zeros()));
    var failing: nat -> Call := _ => Failed(Torn(Zeros()));
    WriteExact(d0, d1, next, torn, 0);
    WriteExact(d0, d1, next, failing, 0);
  }

  /** So one copy whose last call worked is enough, whatever the other calls leave behind. */
  lemma OneCopyEnough(d0: Sector, d1: Sector, next: Sector, outcome: nat -> Call, k: nat)
    requires Usable(next) && Detected(outcome)
    ensures var w := WriteBoth(d0, d1, next, outcome, k); w.ok0 || w.ok1 ==> Intact(d0, d1, next, w)
  {
    hide Tries, CourseOf, Usable, Blank, Intact;
    WriteExact(d0, d1, next, outcome, k);
    var a := Tries(next, d0, outcome, k, RETRIES);
    TriesCourse(next, d0, d0, Kept, outcome, k, RETRIES);
    TriesCourse(next, d1, d1, Kept, outcome, a.calls, RETRIES);
  }

  /** The promise of the two copies: if they are equal and only the power can go, then at any moment. */
  lemma EqualCopiesSafe(d: Sector, next: Sector, outcome: nat -> Call, k: nat)
    requires Usable(d) && Usable(next) && Detected(outcome) && OnlyPower(outcome)
    ensures Intact(d, d, next, WriteBoth(d, d, next, outcome, k))
  {
    hide WriteBoth, Usable, Blank, Intact, Detected, OnlyPower;
    PowerLossExact(d, d, next);
  }

  /** So a change of an entry is made or not made: the old chain or the new one is read back. */
  lemma CrashKeepsEntries(d: Sector, next: Sector, es: seq<Entry>, tag: int, bytes: seq<int>, outcome: nat -> Call, k: nat)
    requires Usable(d) && Usable(next) && Detected(outcome) && OnlyPower(outcome)
    requires Chain(d, es) && Chain(next, Set(es, tag, bytes))
    ensures var w := WriteBoth(d, d, next, outcome, k);
            Chain(Recovered(w.s0, w.s1), es) || Chain(Recovered(w.s0, w.s1), Set(es, tag, bytes))
  {
    EqualCopiesSafe(d, next, outcome, k);
  }

  // ---------- where the promise ends

  /** A usable vector with the number `x` at the start of its data. */
  function Vector(x: int): Sector {
    Bytes(ADV_MAGIC1) + Bytes(ADV_MAGIC2 - x) + Bytes(x) + seq(ADV_LEN - 4, _ => 0) + Bytes(ADV_MAGIC3)
  }

  lemma VectorUsable(x: int)
    requires 0 <= x < 0x100
    ensures Usable(Vector(x)) && Vector(x)[DATA] == x
  {
    var m := Vector(x);
    hide Sum, DWord;
    BytesDWord(ADV_MAGIC1, m, 0);
    BytesDWord(ADV_MAGIC2 - x, m, 4);
    BytesDWord(x, m, 8);
    BytesDWord(ADV_MAGIC3, m, TAIL);
    SumFirst(m, 4, ADV_LEN / 4);
    SumFirst(m, 8, ADV_LEN / 4 - 1);
    SumZeros(m, 12, ADV_LEN / 4 - 1);
  }

  function Zeros(): Sector { seq(SIZE, _ => 0) }

  /** The code goes on to the second copy when the first could not be written: if both fail, everything is lost. */
  lemma TwoFailuresLose()
    ensures var d, next := Vector(1), Vector(2);
            var w := WriteBoth(d, d, next, _ => Failed(Torn(Zeros())), 0);
            && Usable(d) && Usable(next) && !Intact(d, d, next, w) && Recovered(w.s0, w.s1) == Blank()
  {
    var failing: nat -> Call := _ => Failed(Torn(Zeros()));
    var d, next := Vector(1), Vector(2);
    VectorUsable(1);
    VectorUsable(2);
    assert Blank()[DATA] == 0;
    hide Usable, Vector, Blank, Tries, CourseOf;
    TornDetected();
    TriesCourse(next, d, d, Kept, failing, 0, RETRIES);
    TriesCourse(next, d, d, Kept, failing, CourseOf(failing, 0, RETRIES, Kept).calls, RETRIES);
  }

  lemma ZerosUnusable()
    ensures !Usable(Zeros())
  {
    assert DWord(Zeros(), 0) == 0;
  }

  /** After a power loss between the two writes the copies differ, and another one can bring back the older. */
  lemma SecondCrashLoses(older: Sector, newer: Sector, next: Sector)
    requires Usable(older) && Usable(newer) && Usable(next) && older != newer && older != next
    ensures var w := WriteBoth(older, older, newer, k => if k == 0 then Worked else Died(Nothing), 0);
            w.s0 == newer && w.s1 == older
    ensures var w := WriteBoth(newer, older, next, _ => Died(Torn(Zeros())), 0);
            Recovered(w.s0, w.s1) == older && !Intact(newer, older, next, w)
  {
    hide Usable, Blank;
    ZerosUnusable();
  }
}
