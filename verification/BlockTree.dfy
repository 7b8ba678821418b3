/**
 The direct/indirect block map of ext2 (bmap.c:82-179): a tree of blocks full of block
 numbers, in which a zero stands for a whole missing subtree.
 */
module BlockTree {
  import opened FileData
  import opened Shift
  import opened LittleEndian
  import C = Cache

  /** `n` numbers per block; `read` yields the numbers of a block. */
  datatype Store = Store(n: nat, read: int -> seq<int>)

  ghost predicate GoodStore(st: Store) {
    && 1 < st.n <= 1024
    && (forall b :: |st.read(b)| == st.n)
    && (forall b, i :: 0 <= i < st.n ==> GoodNumber(st.read(b)[i]))
  }

  /** Block numbers stay clear of the largest 32-bit value. */
  predicate GoodNumber(x: int) { 0 <= x < WORD - 1 }

  /** A block as 32-bit numbers. */
  function Words(d: seq<int>): seq<int> {
    seq(|d| / 4, i requires 0 <= i => U32(d, 4 * i))
  }

  /** Numbers as they are written into a block. */
  function WordBytes(ns: seq<nat>): seq<int> {
    if ns == [] then [] else Le(ns[0], 4) + WordBytes(ns[1..])
  }

  lemma {:induction false} WordHeld(ns: seq<nat>, d: seq<int>, at: nat, i: nat)
    requires i < |ns| && Holds(d, at, WordBytes(ns))
    ensures Holds(d, at + 4 * i, Le(ns[i], 4))
    decreases i
  {
    HoldsSplit(d, at, Le(ns[0], 4), WordBytes(ns[1..]));
    if i > 0 {
      WordHeld(ns[1..], d, at + 4, i - 1);
      assert ns[1..][i - 1] == ns[i];
    }
  }

  lemma {:induction false} WordsLength(ns: seq<nat>)
    ensures |WordBytes(ns)| == 4 * |ns|
  {
    if ns != [] {
      WordsLength(ns[1..]);
    }
  }

  /** A table of numbers that was written is the one that is read. */
  lemma WordsRead(ns: seq<nat>)
    requires forall i :: 0 <= i < |ns| ==> ns[i] < WORD
    ensures Words(WordBytes(ns)) == ns
  {
    hide U32, Holds, WordBytes, Le;
    var d := WordBytes(ns);
    WordsLength(ns);
    HoldsItself(d);
    forall i | 0 <= i < |ns| ensures Words(d)[i] == ns[i] {
      WordHeld(ns, d, 0, i);
      ReadsU32(d, 4 * i, ns[i]);
    }
  }

  lemma HoldsItself(d: seq<int>)
    ensures Holds(d, 0, d)
  {
  }

  predicate GoodTable(st: Store, tbl: seq<int>) {
    |tbl| == st.n && forall i :: 0 <= i < |tbl| ==> GoodNumber(tbl[i])
  }

  /** The tables are what the disk holds, as long as their numbers are good. */
  ghost predicate OnDisk(st: Store, dev: C.Device) {
    forall b: nat :: GoodTable(st, Words(dev.disk(b))) ==> st.read(b) == Words(dev.disk(b))
  }

  /** A table of block numbers, through the cache. */
  method ReadTable(st: Store, dev: C.Device, b: nat) returns (tbl: seq<int>)
    requires dev.Ready() && OnDisk(st, dev)
    modifies dev.Repr()
    ensures dev.Ready() && tbl == st.read(b)
    ensures forall ns: seq<nat> :: GoodTable(st, ns) && dev.disk(b) == WordBytes(ns) ==> tbl == ns
  {
    hide C.Device.Valid, Words, WordBytes;
    var data := dev.GetCache(b);
    tbl := Words(data);
    forall ns: seq<nat> | GoodTable(st, ns) && data == WordBytes(ns) ensures tbl == ns {
      WordsRead(ns);
    }
    if !GoodTable(st, tbl) {
      tbl := st.read(b);
    }
  }

  /** Number of data blocks under a tree of `levels` levels. */
  function Size(st: Store, levels: nat): (p: nat)
    requires st.n > 0
    ensures p > 0
  {
    if levels == 0 then 1
    else
      MulMono(1, Size(st, levels - 1), st.n);
      st.n * Size(st, levels - 1)
  }

  // ---------- reference: the tree flattened

  /** All data block numbers under `root`, left to right. */
  function Flatten(st: Store, root: int, levels: nat): seq<int>
    requires st.n > 0
    decreases levels, 0
  {
    if levels == 0 then [root]
    else if root == 0 then Zeros(Size(st, levels))
    else FlattenAll(st, st.read(root), levels - 1)
  }

  function FlattenAll(st: Store, roots: seq<int>, levels: nat): seq<int>
    requires st.n > 0
    decreases levels, 1 + |roots|
  {
    if roots == [] then []
    else Flatten(st, roots[0], levels) + FlattenAll(st, roots[1..], levels)
  }

  // ---------- walking the tree

  /** The data block at offset `off` under `root`. */
  function Look(st: Store, root: int, levels: nat, off: nat): int
    requires GoodStore(st) && off < Size(st, levels)
    decreases levels
  {
    if levels == 0 then root
    else if root == 0 then 0
    else
      Inside(st, levels, off);
      Look(st, st.read(root)[off / Size(st, levels - 1)], levels - 1, off % Size(st, levels - 1))
  }

  lemma Inside(st: Store, levels: nat, off: nat)
    requires st.n > 0 && levels > 0 && off < Size(st, levels)
    ensures var p := Size(st, levels - 1);
            0 <= off / p < st.n && 0 <= off % p < p && off == off / p * p + off % p
  {
    var p := Size(st, levels - 1);
    Quotient(off, p);
    DivNonneg(off, p);
    if off / p >= st.n { MulMono(st.n, off / p, p); }
  }

  /** How many numbers from `tbl[i]` on continue it: consecutive, or zero like it. */
  function RunFrom(tbl: seq<int>, i: nat, k: nat): (r: nat)
    requires i < |tbl| && 1 <= k <= |tbl| - i
    ensures k <= r <= |tbl| - i
    ensures forall j :: k <= j < r ==> tbl[i + j] == Continued(tbl[i], j)
    ensures i + r < |tbl| ==> tbl[i + r] != Continued(tbl[i], r)
    decreases |tbl| - i - k
  {
    if i + k < |tbl| && tbl[i + k] == Continued(tbl[i], k) then RunFrom(tbl, i, k + 1) else k
  }

  function Continued(x: int, k: int): int {
    if x == 0 then 0 else x + k
  }

  /** The block count reported at offset `off`: a run inside one leaf, or a missing subtree's size. */
  function Reported(st: Store, root: int, levels: nat, off: nat): (r: nat)
    requires GoodStore(st) && levels > 0 && off < Size(st, levels)
    ensures r > 0
    decreases levels
  {
    if root == 0 then Size(st, levels)
    else
      Inside(st, levels, off);
      if levels == 1 then RunFrom(st.read(root), off / Size(st, 0), 1)
      else Reported(st, st.read(root)[off / Size(st, levels - 1)], levels - 1, off % Size(st, levels - 1))
  }

  /** The walk to `off` meets no missing subtree, or meets it at that subtree's first block. */
  predicate AtEntry(st: Store, root: int, levels: nat, off: nat)
    requires GoodStore(st) && levels > 0 && off < Size(st, levels)
    decreases levels
  {
    if root == 0 then off == 0
    else if levels == 1 then true
    else
      Inside(st, levels, off);
      AtEntry(st, st.read(root)[off / Size(st, levels - 1)], levels - 1, off % Size(st, levels - 1))
  }

  /** Blocks from `off` to the end of the leaf or missing subtree it lies in. */
  function Room(st: Store, root: int, levels: nat, off: nat): (r: nat)
    requires GoodStore(st) && levels > 0 && off < Size(st, levels)
    ensures 0 < r <= Size(st, levels) - off
    decreases levels
  {
    if root == 0 then Size(st, levels) - off
    else if levels == 1 then Size(st, 1) - off
    else
      Inside(st, levels, off);
      var p := Size(st, levels - 1);
      RoomFits(st.n, off / p, p);
      Room(st, st.read(root)[off / p], levels - 1, off % p)
  }

  lemma RoomFits(n: nat, q: nat, p: nat)
    requires q < n
    ensures q * p + p <= n * p
  {
    MulMono(q + 1, n, p);
  }

  // ---------- what the walk says about the tree

  lemma {:induction false} RunFromRuns(tbl: seq<int>, i: nat, k: nat)
    requires i < |tbl| && 1 <= k <= |tbl| - i
    requires forall j :: 0 <= j < k ==> tbl[i + j] == Continued(tbl[i], j)
    ensures forall j :: 0 <= j < RunFrom(tbl, i, k) ==> tbl[i + j] == Continued(tbl[i], j)
    ensures var r := RunFrom(tbl, i, k); i + r == |tbl| || tbl[i + r] != Continued(tbl[i], r)
    decreases |tbl| - i - k
  {
    if i + k < |tbl| && tbl[i + k] == Continued(tbl[i], k) {
      RunFromRuns(tbl, i, k + 1);
    }
  }

  /** Offsets up to the end of the child that `off` lies in belong to the same child. */
  lemma SameChild(st: Store, levels: nat, off: nat, j: nat)
    requires st.n > 0 && levels > 0 && off < Size(st, levels)
    requires off % Size(st, levels - 1) + j < Size(st, levels - 1)
    ensures var p := Size(st, levels - 1);
            (off + j) / p == off / p && (off + j) % p == off % p + j && off + j < Size(st, levels)
  {
    var p := Size(st, levels - 1);
    Inside(st, levels, off);
    DivUnique(off + j, p, off / p, off % p + j);
    RoomFits(st.n, off / p, p);
  }

  /** At an entry, the reported count is a sound run that stays inside the tree. */
  lemma {:induction false} ReportedSound(st: Store, root: int, levels: nat, off: nat)
    requires GoodStore(st) && levels > 0 && off < Size(st, levels) && AtEntry(st, root, levels, off)
    ensures off + Reported(st, root, levels, off) <= Size(st, levels)
    ensures forall j :: 0 <= j < Reported(st, root, levels, off) ==>
              Look(st, root, levels, off + j) == Continued(Look(st, root, levels, off), j)
    decreases levels
  {
    var r := Reported(st, root, levels, off);
    if root != 0 {
      Inside(st, levels, off);
      var p := Size(st, levels - 1);
      var q := off / p;
      if levels == 1 {
        RunFromRuns(st.read(root), q, 1);
        forall j | 0 <= j < r ensures Look(st, root, 1, off + j) == Continued(Look(st, root, 1, off), j) {
          DivUnique(off + j, 1, off + j, 0);
          DivUnique(off, 1, off, 0);
        }
      } else {
        ReportedSound(st, st.read(root)[q], levels - 1, off % p);
        forall j | 0 <= j < r ensures off + j < Size(st, levels)
                                   && Look(st, root, levels, off + j) == Continued(Look(st, root, levels, off), j) {
          SameChild(st, levels, off, j);
        }
        RoomFits(st.n, q, p);
      }
    }
  }

  /** The first block of a tree is an entry. */
  lemma {:induction false} EntryZero(st: Store, root: int, levels: nat)
    requires GoodStore(st) && levels > 0
    ensures AtEntry(st, root, levels, 0)
    decreases levels
  {
    if root != 0 && levels > 1 {
      DivUnique(0, Size(st, levels - 1), 0, 0);
      EntryZero(st, st.read(root)[0], levels - 1);
    }
  }

  /** Walking from report to report never leaves the entries. */
  lemma {:induction false} EntryNext(st: Store, root: int, levels: nat, off: nat)
    requires GoodStore(st) && levels > 0 && off < Size(st, levels) && AtEntry(st, root, levels, off)
    requires off + Reported(st, root, levels, off) < Size(st, levels)
    ensures AtEntry(st, root, levels, off + Reported(st, root, levels, off))
    decreases levels
  {
    if root != 0 && levels > 1 {
      Inside(st, levels, off);
      var p := Size(st, levels - 1);
      var q, o := off / p, off % p;
      var child := st.read(root)[q];
      var r := Reported(st, child, levels - 1, o);
      ReportedSound(st, child, levels - 1, o);
      if o + r < p {
        SameChild(st, levels, off, r);
        EntryNext(st, child, levels - 1, o);
      } else {
        NextChild(q, p, off, r);
        Inside(st, levels, off + r);
        EntryZero(st, st.read(root)[q + 1], levels - 1);
      }
    }
  }

  lemma NextChild(q: nat, p: nat, off: nat, r: nat)
    requires p > 0 && off == q * p + (p - r) && r <= p
    ensures (off + r) / p == q + 1 && (off + r) % p == 0
  {
    Distribute(q, 1, p);
    DivUnique(off + r, p, q + 1, 0);
  }

  /** The count overshoots the missing subtree exactly when the walk enters it in its middle. */
  lemma {:induction false} OvershootExact(st: Store, root: int, levels: nat, off: nat)
    requires GoodStore(st) && levels > 0 && off < Size(st, levels)
    ensures Reported(st, root, levels, off) <= Room(st, root, levels, off) <==> AtEntry(st, root, levels, off)
    decreases levels
  {
    if root != 0 {
      Inside(st, levels, off);
      if levels > 1 {
        OvershootExact(st, st.read(root)[off / Size(st, levels - 1)], levels - 1, off % Size(st, levels - 1));
      } else {
        DivUnique(off, 1, off, 0);
      }
    }
  }

  /** Looking a block up by its offset is reading the flattened tree. */
  lemma {:induction false} LookFlattened(st: Store, root: int, levels: nat, off: nat)
    requires GoodStore(st) && off < Size(st, levels)
    ensures |Flatten(st, root, levels)| == Size(st, levels)
    ensures Flatten(st, root, levels)[off] == Look(st, root, levels, off)
    decreases levels, 0
  {
    if levels > 0 && root != 0 {
      Inside(st, levels, off);
      LookFlattenedAll(st, st.read(root), levels - 1, off / Size(st, levels - 1), off % Size(st, levels - 1));
    }
  }

  lemma {:induction false} LookFlattenedAll(st: Store, roots: seq<int>, levels: nat, i: nat, off: nat)
    requires GoodStore(st) && i < |roots| && off < Size(st, levels)
    ensures var p := Size(st, levels);
            && |FlattenAll(st, roots, levels)| == |roots| * p
            && i * p + off < |roots| * p
            && FlattenAll(st, roots, levels)[i * p + off] == Look(st, roots[i], levels, off)
    decreases levels, 1 + |roots|
  {
    hide Look, Size, Flatten;
    var p := Size(st, levels);
    LookFlattened(st, roots[0], levels, off);
    RoomFits(|roots|, i, p);
    if |roots| > 1 {
      var j := if i > 0 then i - 1 else 0;
      LookFlattenedAll(st, roots[1..], levels, j, off);
      assert i > 0 ==> roots[1..][i - 1] == roots[i];
      Behind(Flatten(st, roots[0], levels), FlattenAll(st, roots[1..], levels), |roots| - 1, p, i, off);
    } else {
      assert FlattenAll(st, roots[1..], levels) == [];
      assert i == 0;
    }
  }

  /** Piece `i` of a row of equal pieces, of which `x` is the first and `y` the `n` others. */
  lemma Behind(x: seq<int>, y: seq<int>, n: nat, p: nat, i: nat, off: nat)
    requires |x| == p && |y| == n * p && off < p && i <= n
    ensures |x + y| == (n + 1) * p && 0 <= i * p + off < |x + y|
    ensures i == 0 ==> (x + y)[i * p + off] == x[off]
    ensures i > 0 ==> 0 <= (i - 1) * p + off < |y| && (x + y)[i * p + off] == y[(i - 1) * p + off]
  {
    Distribute(n, 1, p);
    if i > 0 {
      Distribute(i - 1, 1, p);
      MulMono(i, n, p);
      MulMono(1, i, p);
    }
  }

  // ---------- the code

  /** `scan_set_nblocks`, bmap.c:86-110: the value at `i`, and how far the table continues it. */
  method ScanSetNblocks(tbl: seq<int>, i: nat) returns (blk: int, nblocks: nat)
    requires i < |tbl| && forall k :: 0 <= k < |tbl| ==> GoodNumber(tbl[k])
    requires |tbl| < 1025
    ensures blk == tbl[i] && nblocks == RunFrom(tbl, i, 1)
  {
    blk := tbl[i];
    var skip := if blk != 0 then 1 else 0;
    var next := (blk + skip) % WORD;
    nblocks := 1;
    while i + nblocks < |tbl|
      invariant i + nblocks <= |tbl| && nblocks >= 1
      invariant RunFrom(tbl, i, 1) == RunFrom(tbl, i, nblocks)
      invariant next == Continued(blk, nblocks) % WORD
      invariant tbl[i + nblocks - 1] == Continued(blk, nblocks - 1)
    {
      assert GoodNumber(tbl[i + nblocks - 1]);
      if tbl[i + nblocks] == next {
        nblocks := nblocks + 1;
        next := (next + skip) % WORD;
      } else {
        break;
      }
    }
  }

  lemma Descend(block: nat, n: nat, p: nat)
    requires n > 0 && p > 0
    ensures n * p > 0
    ensures 0 <= block / p && 0 <= block % (n * p)
    ensures block / p % n == block % (n * p) / p && block % p == block % (n * p) % p
  {
    MulMono(1, p, n);
    var m := n * p;
    var off := block % m;
    DivNonneg(block, p);
    DivNonneg(off, p);
    Quotient(block, m);
    Quotient(off, p);
    assert off / p < n by { if off / p >= n { MulMono(n, off / p, p); } }
    Distribute(block / m * n, off / p, p);
    assert block / m * m == block / m * n * p;
    DivUnique(block, p, block / m * n + off / p, off % p);
    DivUnique(block / p, n, block / m, off / p);
  }

  /** One level down, nothing changes for the block that is looked up. */
  lemma WalkStep(st: Store, start: int, left: nat, off: nat, block: nat)
    requires GoodStore(st) && start != 0 && left > 0 && off < Size(st, left) && off == block % Size(st, left)
    ensures var p := Size(st, left - 1);
            p > 0 && 0 <= block / p && 0 <= block % p && 0 <= off % p < p && off % p == block % p &&
            var tbl, index := st.read(start), block / p % st.n;
            && 0 <= index < st.n == |tbl|
            && Look(st, start, left, off) == Look(st, tbl[index], left - 1, off % p)
            && Reported(st, start, left, off)
               == if left == 1 then RunFrom(tbl, index, 1) else Reported(st, tbl[index], left - 1, off % p)
  {
    Inside(st, left, off);
    Descend(block, st.n, Size(st, left - 1));
  }

  /** Where a block lies under a tree of `levels` levels. */
  ghost predicate Offset(st: Store, levels: nat, block: nat, off: nat)
    requires st.n > 0
  {
    off < Size(st, levels) && off == block % Size(st, levels)
  }

  /** Lines 129-131: read the table at `start` and pick the entry for the block. */
  method StepDown(st: Store, dev: C.Device, start: nat, left: nat, ghost off: nat, block: nat)
    returns (tbl: seq<int>, index: nat, next: nat, ghost off': nat)
    requires dev.Ready() && OnDisk(st, dev) && GoodStore(st) && start != 0
    requires Offset(st, left + 1, block, off)
    modifies dev.Repr()
    ensures dev.Ready() && GoodTable(st, tbl) && index < st.n && next == tbl[index] && GoodNumber(next)
    ensures Offset(st, left, block, off')
    ensures Look(st, start, left + 1, off) == Look(st, next, left, off')
    ensures Reported(st, start, left + 1, off) == if left == 0 then RunFrom(tbl, index, 1) else Reported(st, next, left, off')
  {
    hide Look, Reported, Size, C.Device.Ready, OnDisk, RunFrom;
    tbl := ReadTable(st, dev, start);
    WalkStep(st, start, left + 1, off, block);
    index := block / Size(st, left) % st.n;
    next := tbl[index];
    off' := off % Size(st, left);
  }

  /** `bmap_indirect`, bmap.c:116-137. */
  method BmapIndirect(st: Store, dev: C.Device, root: int, block: nat, levels: nat) returns (blk: int, nblocks: nat)
    requires dev.Ready() && OnDisk(st, dev)
    requires GoodStore(st) && GoodNumber(root) && levels > 0 && block < Size(st, levels)
    modifies dev.Repr()
    ensures dev.Ready()
    ensures blk == Look(st, root, levels, block) && nblocks == Reported(st, root, levels, block)
  {
    hide Look, Reported, Size, GoodStore, C.Device.Ready, OnDisk, RunFrom;
    StoreSmall(st);
    var start: nat, left := root, levels;
    DivUnique(block, Size(st, levels), 0, block);
    ghost var off: nat := block;
    var tbl: seq<int> := [];
    var index: nat := 0;
    while left > 0
      invariant left <= levels && dev.Ready() && GoodNumber(start)
      invariant off < Size(st, left) && off == block % Size(st, left)
      invariant Look(st, start, left, off) == Look(st, root, levels, block)
      invariant left > 0 ==> Reported(st, start, left, off) == Reported(st, root, levels, block)
      invariant left == 0 ==> (
                  && index < st.n <= 1024 && GoodTable(st, tbl) && start == tbl[index]
                  && RunFrom(tbl, index, 1) == Reported(st, root, levels, block))
      decreases left
    {
      left := left - 1;
      if start == 0 {
        MissingAt(st, left + 1, off);
        return 0, Size(st, left + 1);
      }
      tbl, index, start, off := StepDown(st, dev, start, left, off, block);
    }
    LeafAt(st, start);
    blk, nblocks := ScanSetNblocks(tbl, index);
  }

  lemma StoreSmall(st: Store)
    requires GoodStore(st)
    ensures 1 < st.n <= 1024
  {
  }

  lemma MissingAt(st: Store, levels: nat, off: nat)
    requires GoodStore(st) && levels > 0 && off < Size(st, levels)
    ensures Look(st, 0, levels, off) == 0 && Reported(st, 0, levels, off) == Size(st, levels)
  {
  }

  lemma LeafAt(st: Store, root: int)
    requires GoodStore(st)
    ensures Size(st, 0) == 1 && Look(st, root, 0, 0) == root
  {
  }
}
