/**
 Doubly linked rings threaded through a flat word memory.

 `m[x]` is the 32-bit word stored at byte address `x`; only every fourth address is
 used.  A node is a header of HEADER_SPAN bytes, and `Field(m, a, k)` is the word at
 offset `k` of the node at `a`.  A ring is kept by a forward link at offset `n` and a
 backward link at offset `p` of each node, so one memory can carry several rings over
 the same nodes.
 */
module WordRings {

  const HEADER_SPAN: nat := 32

  type Memory = seq<int>

  // ---------- sequences without repetition

  ghost predicate Distinct(s: seq<int>) {
    forall i, j :: 0 <= i < j < |s| ==> s[i] != s[j]
  }

  function Elements(s: seq<int>): set<int> {
    set a | a in s
  }

  function Inserted(s: seq<int>, i: int, x: int): seq<int>
    requires 0 <= i < |s|
  {
    s[..i + 1] + [x] + s[i + 1..]
  }

  function Without(s: seq<int>, i: int): seq<int>
    requires 0 <= i < |s|
  {
    s[..i] + s[i + 1..]
  }

  function IndexOf(s: seq<int>, x: int): (i: nat)
    requires x in s
    ensures i < |s| && s[i] == x
  {
    if s[0] == x then 0 else 1 + IndexOf(s[1..], x)
  }

  function Removed(s: seq<int>, x: int): seq<int> {
    if x in s then Without(s, IndexOf(s, x)) else s
  }

  lemma WithoutElements(s: seq<int>, k: int)
    requires Distinct(s) && 0 <= k < |s|
    ensures Distinct(Without(s, k))
    ensures Elements(Without(s, k)) == Elements(s) - {s[k]}
  {
    var r := Without(s, k);
    forall a | a in s && a != s[k] ensures a in r {
      var j :| 0 <= j < |s| && s[j] == a;
      assert r[if j < k then j else j - 1] == a;
    }
  }

  // ---------- fields of spaced nodes

  function Field(m: Memory, a: int, k: int): int {
    if 0 <= a + k < |m| then m[a + k] else 0
  }

  /** Two nodes that are equal or share no byte. */
  predicate Apart(a: int, b: int) {
    a == b || a + HEADER_SPAN <= b || b + HEADER_SPAN <= a
  }

  /** The nodes lie inside the memory and do not overlap. */
  ghost predicate Spaced(m: Memory, nodes: set<int>) {
    && (forall a :: a in nodes ==> 0 <= a && a + HEADER_SPAN <= |m|)
    && (forall a, b :: a in nodes && b in nodes ==> Apart(a, b))
  }

  /** Only the listed fields, and no word outside them, may differ between `m` and `m'`. */
  ghost predicate KeptBut(m: Memory, m': Memory, nodes: set<int>, touched: set<(int, nat)>) {
    && |m| == |m'|
    && (forall a, k: nat {:trigger Field(m', a, k)} ::
          a in nodes && k < HEADER_SPAN && (a, k) !in touched ==> Field(m', a, k) == Field(m, a, k))
    && (forall x :: 0 <= x < |m| && m'[x] != m[x] ==> exists t :: t in touched && x == t.0 + t.1)
  }

  lemma StoreField(m: Memory, m1: Memory, nodes: set<int>, touched: set<(int, nat)>, a: int, k: nat, v: int)
    requires Spaced(m, nodes) && a in nodes && k < HEADER_SPAN
    requires KeptBut(m, m1, nodes, touched)
    ensures KeptBut(m, m1[a + k := v], nodes, touched + {(a, k)})
  {
    var m' := m1[a + k := v];
    forall b, j: nat | b in nodes && j < HEADER_SPAN && (b, j) !in touched + {(a, k)}
      ensures Field(m', b, j) == Field(m, b, j)
    {
      assert Apart(a, b);
      assert Field(m1, b, j) == Field(m, b, j);
    }
    forall x | 0 <= x < |m| && m'[x] != m[x] ensures exists t :: t in touched + {(a, k)} && x == t.0 + t.1 {
      if x == a + k {
        assert (a, k) in touched + {(a, k)};
      }
    }
  }

  lemma KeptTwice(m: Memory, m1: Memory, m2: Memory, nodes: set<int>, s: set<(int, nat)>, t: set<(int, nat)>)
    requires KeptBut(m, m1, nodes, s) && KeptBut(m1, m2, nodes, t)
    ensures KeptBut(m, m2, nodes, s + t)
  {
    forall b, j: nat | b in nodes && j < HEADER_SPAN && (b, j) !in s + t ensures Field(m2, b, j) == Field(m, b, j) {
      assert Field(m1, b, j) == Field(m, b, j);
    }
    forall x | 0 <= x < |m| && m2[x] != m[x] ensures exists u :: u in s + t && x == u.0 + u.1 {
      var u :| (u in s || u in t) && x == u.0 + u.1;
      assert u in s + t;
    }
  }

  lemma KeptField(m: Memory, m': Memory, nodes: set<int>, touched: set<(int, nat)>, a: int, k: nat)
    requires KeptBut(m, m', nodes, touched) && a in nodes && k < HEADER_SPAN && (a, k) !in touched
    ensures |m'| == |m| && Field(m', a, k) == Field(m, a, k)
  {
  }

  // ---------- rings

  function Succ(s: seq<int>, i: int): int
    requires 0 <= i < |s|
  {
    if i + 1 < |s| then s[i + 1] else s[0]
  }

  function Pred(s: seq<int>, i: int): int
    requires 0 <= i < |s|
  {
    if i > 0 then s[i - 1] else s[|s| - 1]
  }

  ghost predicate Linked(m: Memory, s: seq<int>, n: nat, p: nat, i: int)
    requires 0 <= i < |s|
  {
    Field(m, s[i], n) == Succ(s, i) && Field(m, s[i], p) == Pred(s, i)
  }

  /** The nodes of `s`, in this order, form one closed ring in `m`. */
  ghost predicate Ring(m: Memory, s: seq<int>, n: nat, p: nat) {
    forall i :: 0 <= i < |s| ==> Linked(m, s, n, p, i)
  }

  /** Four stores splice `x` in behind position `i`. */
  lemma RingInsert(m: Memory, m': Memory, s: seq<int>, n: nat, p: nat, i: int, x: int,
                   nodes: set<int>, touched: set<(int, nat)>)
    requires n < HEADER_SPAN && p < HEADER_SPAN && n != p
    requires Ring(m, s, n, p) && Distinct(s) && 0 <= i < |s| && Elements(s) <= nodes
    requires KeptBut(m, m', nodes, touched)
    requires Field(m', x, n) == Succ(s, i) && Field(m', x, p) == s[i]
    requires Field(m', s[i], n) == x && Field(m', Succ(s, i), p) == x
    requires forall a :: a in s && (a, n) in touched ==> a == s[i]
    requires forall a :: a in s && (a, p) in touched ==> a == Succ(s, i)
    ensures Ring(m', Inserted(s, i, x), n, p)
  {
    var r := Inserted(s, i, x);
    forall j | 0 <= j < |r| ensures Linked(m', r, n, p, j) {
      if j <= i {
        assert r[j] == s[j] && Linked(m, s, n, p, j);
      } else if j > i + 1 {
        assert r[j] == s[j - 1] && Linked(m, s, n, p, j - 1);
      }
    }
  }

  /** Two stores unlink the node at position `k`. */
  lemma RingRemove(m: Memory, m': Memory, s: seq<int>, n: nat, p: nat, k: int,
                   nodes: set<int>, touched: set<(int, nat)>)
    requires n < HEADER_SPAN && p < HEADER_SPAN && n != p
    requires Ring(m, s, n, p) && Distinct(s) && 0 < k < |s| && Elements(s) <= nodes
    requires KeptBut(m, m', nodes, touched)
    requires Field(m', s[k - 1], n) == Succ(s, k) && Field(m', Succ(s, k), p) == s[k - 1]
    requires forall a :: a in s && (a, n) in touched ==> a == s[k - 1]
    requires forall a :: a in s && (a, p) in touched ==> a == Succ(s, k)
    ensures Ring(m', Without(s, k), n, p)
  {
    var r := Without(s, k);
    forall j | 0 <= j < |r| ensures Linked(m', r, n, p, j) {
      if j < k {
        assert r[j] == s[j] && Linked(m, s, n, p, j);
      } else {
        assert r[j] == s[j + 1] && Linked(m, s, n, p, j + 1);
      }
    }
  }

  /** Four stores put `x` in the place of the node at position `k`. */
  lemma RingReplace(m: Memory, m': Memory, s: seq<int>, n: nat, p: nat, k: int, x: int,
                    nodes: set<int>, touched: set<(int, nat)>)
    requires n < HEADER_SPAN && p < HEADER_SPAN && n != p
    requires Ring(m, s, n, p) && Distinct(s) && 0 < k < |s| && Elements(s) <= nodes
    requires KeptBut(m, m', nodes, touched)
    requires Field(m', x, n) == Succ(s, k) && Field(m', x, p) == s[k - 1]
    requires Field(m', s[k - 1], n) == x && Field(m', Succ(s, k), p) == x
    requires forall a :: a in s && (a, n) in touched ==> a == s[k - 1]
    requires forall a :: a in s && (a, p) in touched ==> a == Succ(s, k)
    ensures Ring(m', s[k := x], n, p)
  {
    var r := s[k := x];
    forall j | 0 <= j < |r| ensures Linked(m', r, n, p, j) {
      if j != k {
        assert r[j] == s[j] && Linked(m, s, n, p, j);
      }
    }
  }

  lemma RingKept(m: Memory, m': Memory, s: seq<int>, n: nat, p: nat, nodes: set<int>, touched: set<(int, nat)>)
    requires n < HEADER_SPAN && p < HEADER_SPAN
    requires Ring(m, s, n, p) && Elements(s) <= nodes
    requires KeptBut(m, m', nodes, touched)
    requires forall a :: a in s ==> (a, n) !in touched && (a, p) !in touched
    ensures Ring(m', s, n, p)
  {
    forall i | 0 <= i < |s| ensures Linked(m', s, n, p, i) {
      assert Linked(m, s, n, p, i);
    }
  }
}
