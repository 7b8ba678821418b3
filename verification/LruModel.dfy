/**
 Least-recently-used replacement as values.

 `v` lists the blocks held by the unlocked cache entries, least recently used first;
 EMPTY stands for an entry that holds nothing yet.  Blocks in `locked` are held by
 entries that have left the chain.
 */
module LruModel {

  // (block_t)-1, the tag of an entry that holds nothing (cache.c:44 and 52).
  const EMPTY: int := -1

  function Dropped(v: seq<int>, b: int): seq<int> {
    if v == [] then []
    else if v[0] == b then v[1..]
    else [v[0]] + Dropped(v[1..], b)
  }

  /** The chain after a request for `b` (cache.c:76-125). */
  function Touch(v: seq<int>, locked: set<int>, b: int): seq<int>
    requires v != []
  {
    if b in locked then v
    else if b in v then Dropped(v, b) + [b]
    else v[1..] + [b]
  }

  function Run(v: seq<int>, locked: set<int>, bs: seq<int>): (r: seq<int>)
    requires v != []
    ensures |r| == |v|
    decreases |bs|
  {
    if bs == [] then v
    else
      var u := Run(v, locked, bs[..|bs| - 1]);
      TouchLength(u, locked, bs[|bs| - 1]);
      Touch(u, locked, bs[|bs| - 1])
  }

  ghost predicate NoDuplicates(v: seq<int>) {
    forall i, j :: 0 <= i < j < |v| && v[i] == v[j] ==> v[i] == EMPTY
  }

  lemma DroppedAt(v: seq<int>, b: int) returns (k: nat)
    requires b in v
    ensures k < |v| && v[k] == b && b !in v[..k] && Dropped(v, b) == v[..k] + v[k + 1..]
  {
    if v[0] == b {
      k := 0;
    } else {
      var j := DroppedAt(v[1..], b);
      k := j + 1;
      assert v[..k] == [v[0]] + v[1..][..j];
      assert v[k + 1..] == v[1..][j + 1..];
    }
  }

  lemma TouchLength(v: seq<int>, locked: set<int>, b: int)
    requires v != []
    ensures |Touch(v, locked, b)| == |v|
  {
    if b in v {
      var k := DroppedAt(v, b);
    }
  }

  lemma DroppedKeeps(v: seq<int>, b: int)
    requires NoDuplicates(v) && b in v && b != EMPTY
    ensures NoDuplicates(Dropped(v, b)) && b !in Dropped(v, b)
  {
    var k := DroppedAt(v, b);
    var d := Dropped(v, b);
    forall i | 0 <= i < |d| ensures d[i] == v[if i < k then i else i + 1] && d[i] != b {
    }
  }

  lemma AppendedKeeps(u: seq<int>, b: int)
    requires NoDuplicates(u) && b !in u
    ensures NoDuplicates(u + [b])
  {
  }

  lemma TouchKeeps(v: seq<int>, locked: set<int>, b: int)
    requires v != [] && NoDuplicates(v) && b != EMPTY
    ensures NoDuplicates(Touch(v, locked, b))
    ensures b !in locked ==> var t := Touch(v, locked, b); |t| > 0 && t[|t| - 1] == b
  {
    if b !in locked {
      if b in v {
        DroppedKeeps(v, b);
        AppendedKeeps(Dropped(v, b), b);
        var k := DroppedAt(v, b);
      } else {
        AppendedKeeps(v[1..], b);
      }
    }
  }

  lemma {:induction false} RunKeeps(v: seq<int>, locked: set<int>, bs: seq<int>)
    requires v != [] && NoDuplicates(v) && EMPTY !in bs
    ensures NoDuplicates(Run(v, locked, bs))
    decreases |bs|
  {
    if bs != [] {
      RunKeeps(v, locked, bs[..|bs| - 1]);
      TouchKeeps(Run(v, locked, bs[..|bs| - 1]), locked, bs[|bs| - 1]);
    }
  }

  // ---------- recency order and residency

  /** The different unlocked blocks among the requests. */
  ghost function Others(bs: seq<int>, locked: set<int>): set<int> {
    set b | b in bs && b !in locked
  }

  /** `b` sits in `v` with exactly the blocks of `after`, each once, behind it. */
  ghost predicate FollowedBy(v: seq<int>, b: int, after: set<int>) {
    && |after| < |v| && v[|v| - 1 - |after|] == b
    && SameMembers(v[|v| - |after|..], after)
  }

  ghost predicate SameMembers(s: seq<int>, members: set<int>) {
    (set x | x in s) == members
  }

  lemma InMembers(s: seq<int>, members: set<int>, x: int)
    requires SameMembers(s, members)
    ensures x in s <==> x in members
  {
    assert x in (set y | y in s) <==> x in s;
  }

  lemma TailMember(v: seq<int>, p: int, k: int)
    requires 0 <= p <= k < |v|
    ensures v[k] in v[p..]
  {
    assert v[p..][k - p] == v[k];
  }

  lemma FirstUnique(v: seq<int>)
    requires NoDuplicates(v) && v != [] && v[0] != EMPTY
    ensures v[0] !in v[1..]
  {
  }

  lemma MovedMembers(s: seq<int>, q: nat)
    requires q < |s|
    ensures forall x :: x in s[..q] + s[q + 1..] + [s[q]] <==> x in s
  {
    assert s == s[..q] + [s[q]] + s[q + 1..];
  }

  lemma MovedTail(v: seq<int>, k: nat, p: nat)
    requires p <= k < |v|
    ensures var r := v[..k] + v[k + 1..] + [v[k]];
            && |r| == |v| && r[..p] == v[..p]
            && r[p..] == v[p..][..k - p] + v[p..][k - p + 1..] + [v[p..][k - p]]
  {
  }

  lemma PositionBehind(v: seq<int>, p: int, c: int, k: int)
    requires NoDuplicates(v) && 0 <= p < |v| && c in v[p..] && c != EMPTY && 0 <= k < |v| && v[k] == c
    ensures k >= p
  {
    var q :| 0 <= q < |v[p..]| && v[p..][q] == c;
    assert v[p + q] == c;
  }

  lemma FollowedBehind(v: seq<int>, b: int, after: set<int>, c: int)
    requires NoDuplicates(v) && FollowedBy(v, b, after) && c in after && c != b && b != EMPTY && c != EMPTY
    ensures c in v && FollowedBy(Dropped(v, c) + [c], b, after)
  {
    hide NoDuplicates, Dropped;
    var p := |v| - 1 - |after|;
    InMembers(v[p + 1..], after, c);
    var k := DroppedAt(v, c);
    PositionBehind(v, p + 1, c, k);
    MovedTail(v, k, p + 1);
    MovedMembers(v[p + 1..], k - p - 1);
    var r := Dropped(v, c) + [c];
    assert r[p] == r[..p + 1][p] == v[p];
  }

  /** Taking out an entry in front of `b` and appending `c` puts `c` among those behind `b`. */
  lemma FollowedFront(v: seq<int>, b: int, after: set<int>, k: nat, c: int)
    requires FollowedBy(v, b, after) && c !in after && k < |v| - 1 - |after|
    ensures FollowedBy(v[..k] + v[k + 1..] + [c], b, after + {c})
  {
    var r := v[..k] + v[k + 1..] + [c];
    assert |after + {c}| == |after| + 1;
    assert r[|r| - |after| - 1..] == v[|v| - |after|..] + [c];
    assert r[|r| - 2 - |after|] == b;
  }

  /** One more request for another block. */
  lemma FollowedStep(v: seq<int>, locked: set<int>, b: int, after: set<int>, c: int)
    requires NoDuplicates(v) && FollowedBy(v, b, after) && c != b && c !in locked && b != EMPTY && c != EMPTY
    ensures |after + {c}| < |v| ==> FollowedBy(Touch(v, locked, c), b, after + {c})
    ensures |after + {c}| >= |v| ==> b !in Touch(v, locked, c)
  {
    hide NoDuplicates, FollowedBy, SameMembers, Dropped;
    var p := |v| - 1 - |after|;
    if c in after {
      FollowedBehind(v, b, after, c);
      assert after + {c} == after;
      FollowedLength(v, b, after);
    } else {
      assert |after + {c}| == |after| + 1;
      FollowedLength(v, b, after);
      if c in v {
        var k := DroppedAt(v, c);
        NotBehind(v, b, after, c, k);
        FollowedFront(v, b, after, k, c);
      } else if p > 0 {
        FollowedFront(v, b, after, 0, c);
        assert v[..0] + v[1..] + [c] == v[1..] + [c];
      } else {
        FirstUnique(v);
      }
    }
  }

  lemma FollowedLength(v: seq<int>, b: int, after: set<int>)
    requires FollowedBy(v, b, after)
    ensures |after| < |v| && v[|v| - 1 - |after|] == b
  {
  }

  lemma NotBehind(v: seq<int>, b: int, after: set<int>, c: int, k: int)
    requires FollowedBy(v, b, after) && c !in after && c != b && 0 <= k < |v| && v[k] == c
    ensures k < |v| - 1 - |after|
  {
    InMembers(v[|v| - |after|..], after, c);
    if k >= |v| - |after| {
      TailMember(v, |v| - |after|, k);
    }
  }

  lemma AbsentStays(v: seq<int>, locked: set<int>, b: int, c: int)
    requires v != [] && b !in v && c != b
    ensures b !in Touch(v, locked, c)
  {
    if c !in locked && c in v {
      var k := DroppedAt(v, c);
    }
  }

  /**
     The chain is in least-recently-used order: behind the last request for `b` stand
     exactly the different blocks requested since, and `b` leaves the cache exactly when
     they are as many as the unlocked entries.
   */
  lemma {:induction false} Residency(v: seq<int>, locked: set<int>, b: int, bs: seq<int>)
    requires v != [] && NoDuplicates(v) && v[|v| - 1] == b && b != EMPTY
    requires b !in bs && EMPTY !in bs
    ensures b in Run(v, locked, bs) <==> |Others(bs, locked)| < |v|
    ensures |Others(bs, locked)| < |v| ==> FollowedBy(Run(v, locked, bs), b, Others(bs, locked))
    decreases |bs|
  {
    if bs == [] {
      assert Others(bs, locked) == {};
      assert FollowedBy(v, b, {});
    } else {
      var init, c := bs[..|bs| - 1], bs[|bs| - 1];
      assert bs == init + [c];
      Residency(v, locked, b, init);
      RunKeeps(v, locked, init);
      var u, after := Run(v, locked, init), Others(init, locked);
      if c in locked {
        assert Others(bs, locked) == after;
      } else {
        assert Others(bs, locked) == after + {c};
        if |after| < |v| {
          FollowedStep(u, locked, b, after, c);
        } else {
          AbsentStays(u, locked, b, c);
          GrownNotSmaller(after, c);
        }
      }
      FollowedPresent(Run(v, locked, bs), b, Others(bs, locked));
    }
  }

  lemma GrownNotSmaller(after: set<int>, c: int)
    ensures |after + {c}| >= |after|
  {
    if c in after {
      assert after + {c} == after;
    }
  }

  lemma FollowedPresent(v: seq<int>, b: int, after: set<int>)
    ensures FollowedBy(v, b, after) ==> b in v
  {
  }

  /** After any history, a block just requested stays until as many others were requested as there are entries. */
  lemma ResidentUntilOthers(v: seq<int>, locked: set<int>, history: seq<int>, b: int, bs: seq<int>)
    requires v != [] && NoDuplicates(v) && EMPTY !in history + [b] + bs
    requires b !in locked && b !in bs
    ensures b in Run(v, locked, history + [b] + bs) <==> |Others(bs, locked)| < |v|
  {
    var u := Run(v, locked, history + [b]);
    assert (history + [b])[..|history|] == history;
    assert EMPTY !in history && b != EMPTY && EMPTY !in bs by {
      assert (history + [b] + bs)[|history|] == b;
      assert forall i :: 0 <= i < |history| ==> (history + [b] + bs)[i] == history[i];
      assert forall i :: 0 <= i < |bs| ==> (history + [b] + bs)[|history| + 1 + i] == bs[i];
    }
    RunKeeps(v, locked, history);
    TouchKeeps(Run(v, locked, history), locked, b);
    RunAppend(v, locked, history + [b], bs);
    Residency(u, locked, b, bs);
  }

  lemma {:induction false} RunAppend(v: seq<int>, locked: set<int>, bs: seq<int>, cs: seq<int>)
    requires v != []
    ensures Run(v, locked, bs + cs) == Run(Run(v, locked, bs), locked, cs)
    decreases |cs|
  {
    if cs == [] {
      assert bs + cs == bs;
    } else {
      assert (bs + cs)[..|bs + cs| - 1] == bs + cs[..|cs| - 1];
      RunAppend(v, locked, bs, cs[..|cs| - 1]);
    }
  }

  // ---------- with entries leaving the chain in between

  /** A request, or the entry at some place of the chain being locked for good (cache.c:63-69). */
  datatype Event = Get(b: int) | Lock(p: nat)

  datatype Lru = Lru(v: seq<int>, locked: set<int>)

  function Without(v: seq<int>, p: nat): seq<int>
    requires p < |v|
  {
    v[..p] + v[p + 1..]
  }

  predicate CanStep(s: Lru, e: Event) {
    match e
    case Get(b) => s.v != [] && b != EMPTY
    case Lock(p) => p < |s.v|
  }

  function Step(s: Lru, e: Event): Lru
    requires CanStep(s, e)
  {
    match e
    case Get(b) => Lru(Touch(s.v, s.locked, b), s.locked)
    case Lock(p) => Lru(Without(s.v, p), if s.v[p] == EMPTY then s.locked else s.locked + {s.v[p]})
  }

  predicate CanPlay(s: Lru, es: seq<Event>)
    decreases |es|, 0
  {
    es == [] || (CanPlay(s, es[..|es| - 1]) && CanStep(Play(s, es[..|es| - 1]), es[|es| - 1]))
  }

  function Play(s: Lru, es: seq<Event>): Lru
    requires CanPlay(s, es)
    decreases |es|, 1
  {
    if es == [] then s else Step(Play(s, es[..|es| - 1]), es[|es| - 1])
  }

  /** The different blocks requested that have not been locked. */
  ghost function Since(s: Lru, es: seq<Event>): set<int>
    requires CanPlay(s, es)
    decreases |es|
  {
    if es == [] then {}
    else
      var init, e := es[..|es| - 1], es[|es| - 1];
      var u := Play(s, init);
      match e
      case Get(c) => if c in u.locked then Since(s, init) else Since(s, init) + {c}
      case Lock(p) => Since(s, init) - {u.v[p]}
  }

  /** At every moment fewer other blocks have been requested than there are unlocked entries. */
  ghost predicate Roomy(s: Lru, es: seq<Event>)
    requires CanPlay(s, es)
    decreases |es|
  {
    |Since(s, es)| < |Play(s, es).v| && (es == [] || Roomy(s, es[..|es| - 1]))
  }

  /** Nobody requests or locks `b`. */
  predicate LeavesAlone(s: Lru, b: int, es: seq<Event>)
    requires CanPlay(s, es)
    decreases |es|
  {
    es == [] ||
      (LeavesAlone(s, b, es[..|es| - 1]) &&
       match es[|es| - 1]
       case Get(c) => c != b
       case Lock(p) => Play(s, es[..|es| - 1]).v[p] != b)
  }

  lemma {:induction false} PlayKeeps(s: Lru, es: seq<Event>)
    requires NoDuplicates(s.v) && CanPlay(s, es)
    ensures NoDuplicates(Play(s, es).v) && EMPTY !in Since(s, es)
    decreases |es|
  {
    if es != [] {
      var init, e := es[..|es| - 1], es[|es| - 1];
      PlayKeeps(s, init);
      var u := Play(s, init);
      match e
      case Get(c) => TouchKeeps(u.v, u.locked, c);
      case Lock(p) => WithoutKeeps(u.v, p);
    }
  }

  lemma WithoutKeeps(v: seq<int>, p: nat)
    requires NoDuplicates(v) && p < |v|
    ensures NoDuplicates(Without(v, p))
  {
    var r := Without(v, p);
    forall i | 0 <= i < |r| ensures r[i] == v[if i < p then i else i + 1] {
    }
  }

  lemma InFront(v: seq<int>, after: set<int>, p: nat, from: nat)
    requires NoDuplicates(v) && p < from <= |v| && SameMembers(v[from..], after) && EMPTY !in after
    ensures v[p] !in after
  {
    InMembers(v[from..], after, v[p]);
    forall k | 0 <= k < |v[from..]| ensures v[from..][k] != v[p] || v[p] == EMPTY {
      assert v[from..][k] == v[from + k];
    }
  }

  /** An entry other than that of `b` leaves the chain. */
  lemma FollowedWithout(v: seq<int>, b: int, after: set<int>, p: nat)
    requires NoDuplicates(v) && FollowedBy(v, b, after) && p < |v| && v[p] != b && EMPTY !in after
    ensures FollowedBy(Without(v, p), b, after - {v[p]})
  {
    hide SameMembers, NoDuplicates, Without;
    if p > |v| - 1 - |after| {
      WithoutBehind(v, b, after, p);
    } else {
      WithoutFront(v, b, after, p);
    }
  }

  lemma WithoutBehind(v: seq<int>, b: int, after: set<int>, p: nat)
    requires NoDuplicates(v) && FollowedBy(v, b, after) && |v| - |after| <= p < |v| && EMPTY !in after
    ensures FollowedBy(Without(v, p), b, after - {v[p]})
  {
    hide SameMembers, NoDuplicates;
    var q := |v| - 1 - |after|;
    var tail, k := v[q + 1..], p - q - 1;
    TailMember(v, q + 1, p);
    InMembers(tail, after, v[p]);
    TailNoDuplicates(v, q + 1);
    TailWithout(tail, after, k);
    assert Without(v, p)[q + 1..] == Without(tail, k);
  }

  lemma TailNoDuplicates(v: seq<int>, from: nat)
    requires NoDuplicates(v) && from <= |v|
    ensures NoDuplicates(v[from..])
  {
  }

  lemma WithoutFront(v: seq<int>, b: int, after: set<int>, p: nat)
    requires NoDuplicates(v) && FollowedBy(v, b, after) && p < |v| - 1 - |after| && EMPTY !in after
    ensures FollowedBy(Without(v, p), b, after - {v[p]})
  {
    hide SameMembers, NoDuplicates;
    var q := |v| - 1 - |after|;
    InFront(v, after, p, q + 1);
    assert after - {v[p]} == after && Without(v, p)[q..] == v[q + 1..];
  }

  lemma TailWithout(tail: seq<int>, after: set<int>, k: nat)
    requires NoDuplicates(tail) && SameMembers(tail, after) && k < |tail| && EMPTY !in after
    ensures SameMembers(Without(tail, k), after - {tail[k]})
    ensures tail[k] in after ==> |after - {tail[k]}| == |after| - 1
  {
  }

  /**
     A block just requested is still there, with exactly the unlocked blocks requested since
     behind it, as long as at every moment these were fewer than the unlocked entries; and
     not a moment longer.
   */
  lemma {:induction false} ResidencyWithLocks(s: Lru, b: int, es: seq<Event>)
    requires s.v != [] && NoDuplicates(s.v) && s.v[|s.v| - 1] == b && b != EMPTY && b !in s.locked
    requires CanPlay(s, es) && LeavesAlone(s, b, es)
    ensures b in Play(s, es).v <==> Roomy(s, es)
    ensures Roomy(s, es) ==> FollowedBy(Play(s, es).v, b, Since(s, es))
    decreases |es|
  {
    if es == [] {
      assert FollowedBy(s.v, b, {});
    } else {
      var init, e := es[..|es| - 1], es[|es| - 1];
      ResidencyWithLocks(s, b, init);
      PlayKeeps(s, init);
      var u, after := Play(s, init), Since(s, init);
      match e
      case Get(c) =>
        if c !in u.locked {
          if Roomy(s, init) {
            FollowedStep(u.v, u.locked, b, after, c);
            TouchLength(u.v, u.locked, c);
          } else {
            AbsentStays(u.v, u.locked, b, c);
          }
        }
      case Lock(p) =>
        if Roomy(s, init) {
          FollowedWithout(u.v, b, after, p);
        }
      FollowedPresent(Play(s, es).v, b, Since(s, es));
    }
  }

  lemma OnePlace(v: seq<int>, i: nat, j: nat)
    requires NoDuplicates(v) && i < |v| && j < |v| && v[i] == v[j] != EMPTY
    ensures i == j
  {
  }

  /** Where the requested block is on the chain, or that it is nowhere, fixes the new chain. */
  lemma TouchAt(v: seq<int>, locked: set<int>, b: int, p: nat)
    requires NoDuplicates(v) && p < |v| && b != EMPTY && b !in locked
    requires v[p] == b || (b !in v && p == 0)
    ensures Touch(v, locked, b) == v[..p] + v[p + 1..] + [b]
  {
    hide NoDuplicates, Dropped;
    if b in v {
      var k := DroppedAt(v, b);
      OnePlace(v, k, p);
    } else {
      assert v[..0] + v[1..] == v[1..];
    }
  }
}
