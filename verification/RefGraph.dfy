/**
 Reference counts on a forest of parent links: what `get_inode`, `put_inode` and linking a
 child under its parent do to the counts, seen as operations on a finite map.
 */
module RefGraph {

  import opened Options

  /** One live object: its count, its parent, its distance from the root, and what it is. */
  datatype Rec<K, L> = Rec(refs: int, parent: Option<K>, depth: nat, link: L)

  ghost function Kids<K, L>(g: map<K, Rec<K, L>>, x: K): set<K> {
    set c | c in g && g[c].parent == Some(x)
  }

  ghost predicate ShapeAt<K, L>(g: map<K, Rec<K, L>>, x: K)
    requires x in g
  {
    match g[x].parent
    case None => g[x].depth == 0
    case Some(p) => p in g && g[x].depth == g[p].depth + 1
  }

  /** Parents are live, and closer to a root. */
  ghost predicate Shape<K, L>(g: map<K, Rec<K, L>>) {
    forall x :: x in g ==> ShapeAt(g, x)
  }

  ghost predicate CountedAt<K, L>(g: map<K, Rec<K, L>>, h: multiset<K>, x: K)
    requires x in g
  {
    1 <= g[x].refs == |Kids(g, x)| + h[x]
  }

  /** Every count is the number of live children plus the number of holders; nothing live has count zero. */
  ghost predicate Counted<K, L>(g: map<K, Rec<K, L>>, h: multiset<K>) {
    (forall x :: x in g ==> CountedAt(g, h, x)) && (forall x :: x in h ==> x in g)
  }

  ghost predicate Sound<K, L>(g: map<K, Rec<K, L>>, h: multiset<K>) {
    Shape(g) && Counted(g, h)
  }

  // ---------- operations

  function Get<K, L>(g: map<K, Rec<K, L>>, x: K): map<K, Rec<K, L>>
    requires x in g
  {
    g[x := g[x].(refs := g[x].refs + 1)]
  }

  /** A new object `c` under `p`, which takes over a reference to `p`. */
  function Attach<K, L>(g: map<K, Rec<K, L>>, c: K, p: K, link: L): map<K, Rec<K, L>>
    requires p in g
  {
    g[c := Rec(1, Some(p), g[p].depth + 1, link)]
  }

  /** Objects live on both sides have the same parent, depth and link. */
  ghost predicate Compatible<K, L>(g: map<K, Rec<K, L>>, g2: map<K, Rec<K, L>>) {
    forall x :: x in g && x in g2 ==> SameAt(g, g2, x)
  }

  ghost predicate SameAt<K, L>(g: map<K, Rec<K, L>>, g2: map<K, Rec<K, L>>, x: K)
    requires x in g && x in g2
  {
    g[x].parent == g2[x].parent && g[x].depth == g2[x].depth && g[x].link == g2[x].link
  }

  // ---------- the number of children

  lemma KidsSame<K, L>(g: map<K, Rec<K, L>>, x: K, r: Rec<K, L>, y: K)
    requires x in g && r.parent == g[x].parent
    ensures Kids(g[x := r], y) == Kids(g, y)
  {
  }

  lemma KidsWith<K, L>(g: map<K, Rec<K, L>>, c: K, p: K, link: L, y: K)
    requires p in g && c !in g
    ensures |Kids(Attach(g, c, p, link), y)| == |Kids(g, y)| + if y == p then 1 else 0
  {
    var g2 := Attach(g, c, p, link);
    assert c !in Kids(g, y);
    assert Kids(g2, y) == if y == p then Kids(g, y) + {c} else Kids(g, y);
  }

  lemma KidsWithout<K, L>(g: map<K, Rec<K, L>>, x: K, y: K)
    requires x in g
    ensures |Kids(g - {x}, y)| == |Kids(g, y)| - if g[x].parent == Some(y) then 1 else 0
  {
    if g[x].parent == Some(y) {
      assert x in Kids(g, y);
      assert Kids(g - {x}, y) == Kids(g, y) - {x};
    } else {
      assert Kids(g - {x}, y) == Kids(g, y);
    }
  }

  lemma NoKids<K, L>(g: map<K, Rec<K, L>>, x: K, y: K)
    requires y in g && |Kids(g, x)| == 0
    ensures g[y].parent != Some(x)
  {
    assert y in Kids(g, x) <==> g[y].parent == Some(x);
  }

  lemma NoStrangers<K, L>(g: map<K, Rec<K, L>>, c: K)
    requires Shape(g) && c !in g
    ensures |Kids(g, c)| == 0
  {
    forall y | y in g ensures g[y].parent != Some(c) {
      assert ShapeAt(g, y);
    }
    assert Kids(g, c) == {};
  }

  // ---------- what the operations keep

  lemma GetSound<K, L>(g: map<K, Rec<K, L>>, h: multiset<K>, x: K)
    requires Sound(g, h) && x in g
    ensures Sound(Get(g, x), h + multiset{x}) && Compatible(g, Get(g, x))
  {
    hide Kids;
    var g2 := Get(g, x);
    forall y | y in g2 ensures ShapeAt(g2, y) && CountedAt(g2, h + multiset{x}, y) {
      KidsSame(g, x, g2[x], y);
      assert ShapeAt(g, y) && CountedAt(g, h, y);
    }
  }

  lemma AttachSound<K, L>(g: map<K, Rec<K, L>>, h: multiset<K>, c: K, p: K, link: L)
    requires Sound(g, h) && p in h && c !in g
    ensures p in g && Sound(Attach(g, c, p, link), h - multiset{p} + multiset{c})
    ensures Compatible(g, Attach(g, c, p, link))
  {
    hide Kids;
    var g2, h2 := Attach(g, c, p, link), h - multiset{p} + multiset{c};
    NoStrangers(g, c);
    assert c !in h;
    forall y | y in g2 ensures ShapeAt(g2, y) && CountedAt(g2, h2, y) {
      KidsWith(g, c, p, link, y);
      assert y != c ==> ShapeAt(g, y) && CountedAt(g, h, y);
    }
  }

  /** Dropping a reference that is not the last. */
  lemma LowerSound<K, L>(g: map<K, Rec<K, L>>, h: multiset<K>, x: K)
    requires Sound(g, h) && x in h && x in g && g[x].refs != 1
    ensures Sound(Lower(g, x), h - multiset{x})
  {
    hide Kids;
    var g2, h2 := Lower(g, x), h - multiset{x};
    forall y | y in g2 ensures ShapeAt(g2, y) && CountedAt(g2, h2, y) {
      KidsSame(g, x, g2[x], y);
      assert ShapeAt(g, y) && CountedAt(g, h, y);
    }
  }

  /** Removing an object whose last reference goes: its reference to the parent is left over. */
  lemma RemoveSound<K, L>(g: map<K, Rec<K, L>>, h: multiset<K>, x: K)
    requires Sound(g, h) && x in h && x in g && g[x].refs == 1
    ensures Sound(g - {x}, Remaining(g, h, x))
    ensures g[x].parent.Some? ==> g[x].parent.value in g - {x} && g[x].depth == g[g[x].parent.value].depth + 1
  {
    hide Kids;
    var g2, h2 := g - {x}, Remaining(g, h, x);
    assert CountedAt(g, h, x) && ShapeAt(g, x);
    forall y | y in g2 ensures ShapeAt(g2, y) && CountedAt(g2, h2, y) {
      NoKids(g, x, y);
      KidsWithout(g, x, y);
      assert ShapeAt(g, y) && CountedAt(g, h, y);
    }
    forall y | y in h2 ensures y in g2 {
      assert y != x;
    }
  }

  /** The holders when `x` has gone and its reference to the parent is still to be dropped. */
  function Remaining<K, L>(g: map<K, Rec<K, L>>, h: multiset<K>, x: K): multiset<K>
    requires x in g
  {
    if g[x].parent.Some? then h - multiset{x} + multiset{g[x].parent.value} else h - multiset{x}
  }

  /** Dropping one reference to `x`; an object whose count reaches zero goes, and with it its reference to its parent. */
  ghost function Put<K, L>(g: map<K, Rec<K, L>>, h: multiset<K>, x: K): map<K, Rec<K, L>>
    requires Sound(g, h) && x in h && x in g
    decreases g[x].depth
  {
    if g[x].refs != 1 then Lower(g, x)
    else
      RemoveSound(g, h, x);
      match g[x].parent
      case None => g - {x}
      case Some(p) => Put(g - {x}, h - multiset{x} + multiset{p}, p)
  }

  function Lower<K, L>(g: map<K, Rec<K, L>>, x: K): map<K, Rec<K, L>>
    requires x in g
  {
    g[x := g[x].(refs := g[x].refs - 1)]
  }

  /** `put_inode` conserves: the counts are right again for one holder less. */
  lemma {:induction false} PutSound<K, L>(g: map<K, Rec<K, L>>, h: multiset<K>, x: K)
    requires Sound(g, h) && x in h && x in g
    ensures Sound(Put(g, h, x), h - multiset{x})
    ensures Put(g, h, x).Keys <= g.Keys && Compatible(g, Put(g, h, x))
    decreases g[x].depth
  {
    hide Kids, Counted, Shape, Sound;
    if g[x].refs != 1 {
      LowerSound(g, h, x);
    } else {
      RemoveSound(g, h, x);
      match g[x].parent {
        case None =>
        case Some(p) =>
          var h2 := h - multiset{x} + multiset{p};
          PutSound(g - {x}, h2, p);
          assert h2 - multiset{p} == h - multiset{x};
          CompatibleVia(g, g - {x}, Put(g - {x}, h2, p));
      }
    }
  }

  lemma CompatibleVia<K, L>(g: map<K, Rec<K, L>>, g1: map<K, Rec<K, L>>, g2: map<K, Rec<K, L>>)
    requires Compatible(g, g1) && Compatible(g1, g2)
    requires forall x :: x in g && x in g2 ==> x in g1
    ensures Compatible(g, g2)
  {
    forall x | x in g && x in g2 ensures SameAt(g, g2, x) {
      assert SameAt(g, g1, x) && SameAt(g1, g2, x);
    }
  }

  // ---------- what is live

  /** `x` is `y` or lies above it. */
  ghost predicate Above<K, L>(g: map<K, Rec<K, L>>, x: K, y: K)
    requires Shape(g) && y in g
    decreases g[y].depth
  {
    assert ShapeAt(g, y);
    x == y || (g[y].parent.Some? && Above(g, x, g[y].parent.value))
  }

  ghost predicate HeldAbove<K, L>(g: map<K, Rec<K, L>>, h: multiset<K>, x: K)
    requires Shape(g)
  {
    exists y :: y in h && y in g && Above(g, x, y)
  }

  ghost function Deeper<K, L>(g: map<K, Rec<K, L>>, x: K): set<K>
    requires x in g
  {
    set y | y in g && g[y].depth > g[x].depth
  }

  /** No leaks: everything live lies on the way up from some holder. */
  lemma {:induction false} LiveIsHeld<K, L>(g: map<K, Rec<K, L>>, h: multiset<K>, x: K)
    requires Sound(g, h) && x in g
    ensures HeldAbove(g, h, x)
    decreases |Deeper(g, x)|
  {
    assert CountedAt(g, h, x);
    if h[x] > 0 {
      assert Above(g, x, x);
    } else {
      assert |Kids(g, x)| > 0;
      var c :| c in Kids(g, x);
      assert ShapeAt(g, c);
      assert Deeper(g, c) < Deeper(g, x) by { assert c in Deeper(g, x) && c !in Deeper(g, c); }
      SmallerSet(Deeper(g, c), Deeper(g, x));
      LiveIsHeld(g, h, c);
      var y :| y in h && y in g && Above(g, c, y);
      AboveParent(g, x, c, y);
    }
  }

  lemma SmallerSet<K>(a: set<K>, b: set<K>)
    requires a < b
    ensures |a| < |b|
  {
    assert |b - a| > 0;
    assert b == a + (b - a);
  }

  lemma {:induction false} AboveParent<K, L>(g: map<K, Rec<K, L>>, x: K, c: K, y: K)
    requires Shape(g) && c in g && y in g && g[c].parent == Some(x) && Above(g, c, y)
    ensures Above(g, x, y)
    decreases g[y].depth
  {
    assert ShapeAt(g, y);
    if c == y {
      assert Above(g, x, x);
    } else {
      AboveParent(g, x, c, g[y].parent.value);
    }
  }

  lemma {:induction false} AboveLive<K, L>(g: map<K, Rec<K, L>>, g2: map<K, Rec<K, L>>, x: K, y: K)
    requires Shape(g) && Shape(g2) && Compatible(g, g2) && y in g && y in g2 && Above(g, x, y)
    ensures x in g2
    decreases g[y].depth
  {
    if x != y {
      assert ShapeAt(g, y) && ShapeAt(g2, y) && SameAt(g, g2, y);
      AboveLive(g, g2, x, g[y].parent.value);
    }
  }

  /** The holders determine everything: which objects are live, and all their counts. */
  lemma HoldersDetermine<K, L>(g: map<K, Rec<K, L>>, g2: map<K, Rec<K, L>>, h: multiset<K>)
    requires Sound(g, h) && Sound(g2, h) && Compatible(g, g2)
    ensures g == g2
  {
    KeysIn(g, h, g2, h);
    KeysIn(g2, h, g, h);
    forall x | x in g ensures g[x] == g2[x] {
      assert Kids(g, x) == Kids(g2, x) by {
        forall c | c in g ensures g[c].parent == g2[c].parent { assert SameAt(g, g2, c); }
      }
      assert CountedAt(g, h, x) && CountedAt(g2, h, x) && SameAt(g, g2, x);
    }
  }

  /** What was live stays live while its holders do. */
  lemma KeysIn<K, L>(g: map<K, Rec<K, L>>, h: multiset<K>, g2: map<K, Rec<K, L>>, h2: multiset<K>)
    requires Sound(g, h) && Sound(g2, h2) && Compatible(g, g2) && forall y :: y in h ==> y in h2
    ensures g.Keys <= g2.Keys && Compatible(g2, g)
  {
    forall x | x in g ensures x in g2 {
      LiveIsHeld(g, h, x);
      var y :| y in h && y in g && Above(g, x, y);
      AboveLive(g, g2, x, y);
    }
    forall x | x in g2 && x in g ensures SameAt(g2, g, x) {
      assert SameAt(g, g2, x);
    }
  }

  // ---------- chains

  /** The labels on the way from the root down to `x`; the root itself contributes none. */
  ghost function Labels<K, L>(g: map<K, Rec<K, L>>, x: K): (s: seq<L>)
    requires Shape(g) && x in g
    ensures |s| == g[x].depth
    decreases g[x].depth
  {
    assert ShapeAt(g, x);
    match g[x].parent
    case None => []
    case Some(p) => Labels(g, p) + [g[x].link]
  }

  lemma {:induction false} LabelsSame<K, L>(g: map<K, Rec<K, L>>, g2: map<K, Rec<K, L>>, x: K)
    requires Shape(g) && Shape(g2) && Compatible(g, g2) && x in g && x in g2
    ensures Labels(g, x) == Labels(g2, x)
    decreases g[x].depth
  {
    assert ShapeAt(g, x) && ShapeAt(g2, x) && SameAt(g, g2, x);
    match g[x].parent {
      case None =>
      case Some(p) => LabelsSame(g, g2, p);
    }
  }
}
