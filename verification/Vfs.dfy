/**
 Reference-counted inodes, open files and the path walk (fs.c, chdir.c).
 */
module Vfs {
  import opened Options
  import opened PathModel
  import opened PathNames
  import opened RefGraph

  const MAX_OPEN: nat := 32
  const CURRENTDIR_MAX: nat := 256

  /** An in-memory inode (fs.h:95-114), as far as the path walk uses it. */
  class Inode {
    const node: Node
    var refcnt: int
    var parent: Inode?
    var name: Option<string>

    /** `alloc_inode`, fs.c:21-30. */
    constructor (node: Node)
      ensures this.node == node && refcnt == 1 && parent == null && name == None
    {
      this.node, refcnt, parent, name := node, 1, null, None;
    }
  }

  /** An entry of the table of open files. */
  datatype Slot = Slot(used: bool, inode: Inode?, offset: int)

  const FREE: Slot := Slot(false, null, 0)

  function Holds(s: Slot): multiset<Inode> {
    if s.inode == null then multiset{} else multiset{s.inode}
  }

  function SlotHolders(s: seq<Slot>): multiset<Inode> {
    if s == [] then multiset{} else Holds(s[0]) + SlotHolders(s[1..])
  }

  lemma {:induction false} SlotChanged(s: seq<Slot>, i: nat, v: Slot)
    requires i < |s|
    ensures SlotHolders(s[i := v]) + Holds(s[i]) == SlotHolders(s) + Holds(v)
    decreases |s|
  {
    hide Holds;
    if i > 0 {
      assert s[i := v][1..] == s[1..][i - 1 := v];
      SlotChanged(s[1..], i - 1, v);
      Regroup(Holds(s[0]), SlotHolders(s[1..][i - 1 := v]), SlotHolders(s[1..]), Holds(s[i]), Holds(v));
    } else {
      assert s[i := v][1..] == s[1..];
      Regroup(SlotHolders(s[1..]), Holds(v), Holds(s[0]), Holds(s[0]), Holds(v));
    }
  }

  lemma Regroup(a: multiset<Inode>, b: multiset<Inode>, c: multiset<Inode>, x: multiset<Inode>, y: multiset<Inode>)
    requires b + x == c + y
    ensures a + b + x == a + c + y && b + a + x == c + a + y
  {
    assert a + b + x == a + (b + x);
    assert a + c + y == a + (c + y);
    assert b + a == a + b && c + a == a + c;
  }

  lemma {:induction false} NoHolders(s: seq<Slot>)
    requires forall i :: 0 <= i < |s| ==> s[i].inode == null
    ensures SlotHolders(s) == multiset{}
  {
    if s != [] {
      NoHolders(s[1..]);
    }
  }

  type Graph = map<Inode, Rec<Inode, Link>>

  class FileSystem {
    const fs: Fs
    const mem: nat -> bool      // does the n-th request for memory, for a path or a name, succeed?
    var allocs: nat
    var cwdName: string
    var root: Inode
    var cwd: Inode
    const files: array<Slot>
    ghost var g: Graph
    ghost var held: multiset<Inode>

    ghost predicate MemoryOk() { forall i :: mem(i) }

    ghost function Holders(): multiset<Inode>
      reads this`root, this`cwd, this`held, files
    {
      multiset{root, cwd} + SlotHolders(files[..]) + held
    }

    /** The object carries what the graph records about it. */
    ghost predicate Mirrors(x: Inode, r: Rec<Inode, Link>)
      reads x
    {
      && x.refcnt == r.refs
      && x.parent == (if r.parent.Some? then r.parent.value else null)
      && x.node == r.link.node
      && (if x.parent != null then NameOk(x.name, r.link.name) else x.node == fs.root)
    }

    /** An inode has its name, unless there was no memory for it (fs.c:316 does not look). */
    ghost predicate NameOk(name: Option<string>, recorded: string) {
      name == Some(recorded) || (name == None && !MemoryOk())
    }

    ghost predicate MirrorsAll(g: Graph)
      reads g.Keys
    {
      forall x :: x in g ==> Mirrors(x, g[x])
    }

    ghost predicate TableOk(s: seq<Slot>) {
      |s| == MAX_OPEN && forall i :: 0 <= i < MAX_OPEN && !s[i].used ==> s[i] == FREE
    }

    /** Paths are looked up from a directory that is linked from the root. */
    ghost predicate CwdOk(g: Graph, cwd: Inode) {
      Shape(g) && cwd in g && Linked(fs, Labels(g, cwd)) && DirTop(Labels(g, cwd))
    }

    ghost predicate RootOk(g: Graph, root: Inode) {
      root in g && g[root].parent == None
    }

    ghost predicate Valid()
      reads this`root, this`cwd, this`g, this`held, files, g.Keys
    {
      && TableOk(files[..]) && Sound(g, Holders()) && MirrorsAll(g)
      && RootOk(g, root) && CwdOk(g, cwd)
    }

    lemma Parts()
      requires Valid()
      ensures TableOk(files[..]) && Sound(g, Holders()) && MirrorsAll(g) && RootOk(g, root) && CwdOk(g, cwd)
    {
    }

    lemma Whole()
      requires TableOk(files[..]) && Sound(g, Holders()) && MirrorsAll(g) && RootOk(g, root) && CwdOk(g, cwd)
      ensures Valid()
    {
    }

    /** The end of `fs_init`: root and working directory are the same inode (fs.c:528-533). */
    constructor (fs: Fs, mem: nat -> bool)
      ensures Valid() && held == multiset{} && cwd == root && this.fs == fs && this.mem == mem
      ensures forall i :: 0 <= i < MAX_OPEN ==> files[i] == FREE
    {
      hide Sound, FileSystem.CwdOk, SlotHolders, Shape, Linked, DirTop, Labels, FileSystem.MemoryOk, Compatible, Counted;
      var r := new Inode(fs.root);
      var table := new Slot[MAX_OPEN](i => FREE);
      this.fs, this.mem, allocs, cwdName, files := fs, mem, 0, "/", table;
      root, cwd, held := r, r, multiset{};
      g := map[r := Rec(2, None, 0, Link("", fs.root))];
      new;
      root.refcnt := root.refcnt + 1;
      NoHolders(files[..]);
      assert Holders() == multiset{r, r};
      RootOnly(g, r, g[r].link);
      AtRoot();
    }

    lemma AtRoot()
      requires Shape(g) && cwd in g && Labels(g, cwd) == []
      ensures CwdOk(g, cwd)
    {
    }

    /** `get_inode`, fs.h:155-159. */
    method GetInode(x: Inode)
      requires Valid() && x in g
      modifies this`g, this`held, x`refcnt
      ensures Valid() && g == Get(old(g), x) && held == old(held) + multiset{x}
      ensures Compatible(old(g), g) && g.Keys == old(g.Keys)
    {
      hide Sound, Compatible, SlotHolders, FileSystem.Valid, FileSystem.TableOk, FileSystem.CwdOk, FileSystem.RootOk, FileSystem.MirrorsAll;
      Parts();
      ghost var g0, h := g, Holders();
      GetSound(g, h, x);
      Lift(x);
      held := held + multiset{x};
      assert Holders() == h + multiset{x};
      CwdKept(g0, g, Holders());
      RootKept(g0, g, Holders());
      Whole();
    }

    /** The working directory stays valid as long as it stays live. */
    lemma CwdKept(g0: Graph, g1: Graph, h: multiset<Inode>)
      requires CwdOk(g0, cwd) && Sound(g1, h) && cwd in h && Compatible(g0, g1)
      ensures CwdOk(g1, cwd)
    {
      LabelsSame(g0, g1, cwd);
    }

    lemma RootKept(g0: Graph, g1: Graph, h: multiset<Inode>)
      requires RootOk(g0, root) && Sound(g1, h) && root in h && Compatible(g0, g1)
      ensures RootOk(g1, root)
    {
      assert SameAt(g0, g1, root);
    }

    /** `put_inode`, fs.c:35-44. */
    method PutInode(x: Inode)
      requires Valid() && x in held
      modifies this`g, this`held, g.Keys
      ensures Valid() && held == old(held) - multiset{x}
      ensures x in old(g) && x in old(Holders()) && g == Put(old(g), old(Holders()), x)
      ensures Compatible(old(g), g) && g.Keys <= old(g.Keys)
    {
      hide Compatible, SlotHolders, FileSystem.Valid, FileSystem.TableOk, FileSystem.CwdOk, FileSystem.RootOk, FileSystem.MirrorsAll, Sound, Put, With;
      Parts();
      HolderOut(root, cwd, SlotHolders(files[..]), held, x);
      held := held - multiset{x};
      ghost var rest := Holders();
      DropHolder(x, rest);
      Whole();
    }

    /** The same for any holder but the root and the working directory. */
    method DropHolder(x: Inode, ghost rest: multiset<Inode>)
      requires Sound(g, With(rest, x)) && MirrorsAll(g) && RootOk(g, root) && CwdOk(g, cwd)
      requires root in rest && cwd in rest
      modifies this`g, g.Keys
      ensures Sound(g, rest) && MirrorsAll(g) && RootOk(g, root) && CwdOk(g, cwd)
      ensures Compatible(old(g), g) && g.Keys <= old(g.Keys)
      ensures x in old(g) && g == Put(old(g), With(rest, x), x)
    {
      hide Compatible, FileSystem.CwdOk, FileSystem.RootOk, FileSystem.MirrorsAll, Sound, Put, With;
      SoundFacts(g, With(rest, x), x);
      PutSound(g, With(rest, x), x);
      DropLoop(x, rest);
      CwdKept(old(g), g, rest);
      RootKept(old(g), g, rest);
    }

    method DropLoop(x: Inode, ghost rest: multiset<Inode>)
      requires Sound(g, With(rest, x)) && x in g && MirrorsAll(g)
      modifies this`g, g.Keys
      ensures g == Put(old(g), With(rest, x), x) && MirrorsAll(g) && Sound(g, rest)
    {
      hide Counted, Shape, Linked, DirTop, Labels, Compatible, SlotHolders, Sound, Put, Lower, With;
      ghost var g0, target := g, Put(g, With(rest, x), x);
      var inode: Inode? := x;
      while inode != null
        invariant g.Keys <= g0.Keys && MirrorsAll(g) && Sound(g, With(rest, inode))
        invariant inode != null ==> inode in g && Put(g, With(rest, inode), inode) == target
        invariant inode == null ==> g == target
        decreases |g|, inode != null
      {
        PutStep(g, rest, inode);
        inode := DropOne(inode);
      }
    }

    /** One turn of the loop: one reference less, and the object freed if it was the last. */
    method DropOne(x: Inode) returns (next: Inode?)
      requires x in g && MirrorsAll(g)
      modifies this`g, x`refcnt
      ensures g == Dropped(old(g), x) && next == Pending(old(g), x) && MirrorsAll(g)
    {
      x.refcnt := x.refcnt - 1;
      next := null;
      if x.refcnt != 0 {
        g := Lower(g, x);
      } else {
        next := x.parent;
        g := g - {x};
      }
      assert forall y :: y in g && y != x ==> old(Mirrors(y, g[y]));
    }

    // ---------- steps of the path walk

    /** What every step keeps: parents, depths and names of the inodes that stay live. */
    twostate predicate Kept()
      reads this`g
    {
      Compatible(old(g), g) && forall x :: x in g && x !in old(g) ==> fresh(x)
    }

    lemma TopIs(x: Inode)
      requires Valid() && x in g
      ensures Shape(g) && Top(fs, Labels(g, x)) == x.node
      ensures x.parent == null ==> Labels(g, x) == []
      ensures x.parent != null ==> Labels(g, x) != [] && g[x].parent.Some? && g[x].parent.value == x.parent && x.parent in g
    {
      assert Mirrors(x, g[x]) && ShapeAt(g, x);
    }

    /** Lines 289-294 and 357-363: go over to the parent and release the child. */
    method ToParent(x: Inode) returns (parent: Inode)
      requires Valid() && held == multiset{x} && x in g && x.parent != null
      modifies this`g, this`held, g.Keys
      ensures Valid() && held == multiset{parent} && parent in g && Kept()
      ensures old(Shape(g)) && Labels(g, parent) == Up(old(Labels(g, x)))
    {
      hide Shape, Labels, Compatible, Put, FileSystem.Valid, FileSystem.MirrorsAll, FileSystem.Holders;
      TopIs(x);
      parent := x.parent;
      ParentLabels(g, x, parent);
      GetInode(parent);
      ghost var g1 := g;
      PutInode(x);
      assert held == multiset{parent};
      InHolders(parent);
      CompatibleVia(old(g), g1, g);
      LabelsSame(old(g), g, parent);
    }

    /** Lines 272-274: release the chain and start again at the root. */
    method ToRoot(x: Inode) returns (r: Inode)
      requires Valid() && held == multiset{x}
      modifies this`g, this`held, g.Keys
      ensures Valid() && held == multiset{r} && r in g && Kept()
      ensures Shape(g) && Labels(g, r) == []
    {
      hide Shape, Labels, Compatible, Put, FileSystem.Valid, FileSystem.MirrorsAll, FileSystem.Holders;
      PutInode(x);
      RootLive();
      r := root;
      ghost var g1 := g;
      GetInode(r);
      assert held == multiset{r};
      RootLive();
      CompatibleVia(old(g), g1, g);
    }

    lemma RootLive()
      requires Valid()
      ensures root in g && Shape(g) && Labels(g, root) == []
    {
    }

    /** Line 300 with `iget` (a fresh inode without parent, or nothing) and lines 315-316. */
    method Child(x: Inode, name: string) returns (child: Inode?)
      requires Valid() && held == multiset{x} && x in g && name != ""
      modifies this`g, this`held, this`allocs
      ensures Valid() && Kept()
      ensures old(Shape(g)) && Shape(g)
      ensures match fs.iget(x.node, name)
              case None => child == null && g == old(g) && held == old(held)
              case Some(node) =>
                && child != null && held == multiset{child} && child in g && child.node == node && child.parent == x
                && Labels(g, child) == old(Labels(g, x)) + [Link(name, node)]
    {
      hide Shape, Labels, Compatible, Sound, Linked, FileSystem.Holders, FileSystem.TableOk, FileSystem.CwdOk, FileSystem.RootOk, FileSystem.MemoryOk;
      InHolders(x);
      CompatibleSelf(g);
      var entry := fs.iget(x.node, name);
      match entry {
        case None => child := null;
        case Some(node) =>
          child := new Inode(node);
          child.parent := x;
          var copied := mem(allocs);
          allocs := allocs + 1;
          child.name := if copied then Some(name) else None;
          if !copied {
            NoMemory(allocs - 1);
          }
          Adopt(child, x, Link(name, node));
      }
    }

    ghost method Adopt(child: Inode, x: Inode, link: Link)
      requires Valid() && held == multiset{x} && x in g && child !in g
      requires child.refcnt == 1 && child.parent == x && NameOk(child.name, link.name) && child.node == link.node
      modifies this`g, this`held
      ensures Valid() && held == multiset{child} && g.Keys == old(g.Keys) + {child} && Compatible(old(g), g)
      ensures old(Shape(g)) && Shape(g) && Labels(g, child) == old(Labels(g, x)) + [link]
    {
      hide Counted, Shape, Linked, DirTop, Labels, Compatible, SlotHolders, FileSystem.TableOk, FileSystem.CwdOk, FileSystem.RootOk;
      ghost var g0, h := g, Holders();
      AttachSound(g, h, child, x, link);
      g := Attach(g, child, x, link);
      held := multiset{child};
      assert Holders() == h - multiset{x} + multiset{child};
      CwdKept(g0, g, Holders());
      RootKept(g0, g, Holders());
      AttachLabels(g0, g, child, x, link);
      assert MirrorsAll(g);
    }

    /** A failed walk releases the chain (lines 301-305, 369-371, 377-379). */
    method Release(x: Inode)
      requires Valid() && held == multiset{x}
      modifies this`g, this`held, g.Keys
      ensures Valid() && held == multiset{} && Kept()
    {
      hide Shape, Labels, Compatible, Put, FileSystem.Valid, FileSystem.MirrorsAll, FileSystem.Holders;
      PutInode(x);
    }

    ghost function Outcome(path: Option<string>, x: Inode, budget: nat): Option<seq<Link>>
      requires path != Some("") && Shape(g) && x in g
      reads this`g
    {
      Resolve(fs, path, Labels(g, x), budget, MAX_SYMLINK_BUF)
    }

    /** Symlink handling, lines 319-371; `child` is the symlink's inode. */
    method Follow(child: Inode, rest: Option<string>, budget: nat)
      returns (inode: Inode?, path: Option<string>, left: nat)
      requires Valid() && held == multiset{child} && child in g && child.parent != null && budget >= 1
      modifies this`g, this`held, this`allocs, g.Keys
      ensures Valid() && Kept() && Shape(g) && old(Shape(g)) && path != Some("")
      ensures inode == null ==>
                held == multiset{} && (MemoryOk() ==> Refused(fs, child.node, rest, budget, MAX_SYMLINK_BUF))
      ensures inode != null ==>
                && !Refused(fs, child.node, rest, budget, MAX_SYMLINK_BUF)
                && held == multiset{inode} && inode in g && Labels(g, inode) == Up(old(Labels(g, child)))
                && 1 <= left == budget - 1 && path == Some(Splice(child.node.target, rest))
    {
      hide Shape, Labels, Compatible, FileSystem.Valid, FileSystem.MirrorsAll, FileSystem.Holders, Up;
      ShapeNow();
      inode, path, left := null, None, budget - 1;
      var newLen := child.node.size + 1;
      if rest.Some? {
        newLen := newLen + |rest.value| + 1;
      }
      if !fs.hasReadlink || left == 0 || newLen > MAX_SYMLINK_BUF {
        Release(child);
        ShapeNow();
        return;
      }
      var room := mem(allocs);
      allocs := allocs + 1;
      if !room || child.node.target == "" {
        Release(child);
        ShapeNow();
        return;
      }
      path := Some(Splice(child.node.target, rest));
      inode := ToParent(child);
      ShapeNow();
    }

    /**
     Lines 298-380: look a name up under `x`; follow it if it is a symlink.  `path0` is the
     path that begins with the name.
     */
    method Descend(x: Inode, ghost path0: string, name: string, rest: Option<string>, budget: nat)
      returns (inode: Inode?, path: Option<string>, left: nat)
      requires Valid() && held == multiset{x} && x in g && budget >= 1
      requires path0 != "" && name == First(path0) && rest == After(path0)
      requires name != "/" && name != "." && name != ".."
      modifies this`g, this`held, this`allocs, g.Keys
      ensures Valid() && Kept() && path != Some("") && Shape(g) && old(Shape(g))
      ensures inode == null ==> held == multiset{} && (MemoryOk() ==> old(Outcome(Some(path0), x, budget)) == None)
      ensures inode != null ==>
                && held == multiset{inode} && inode in g && left >= 1
                && Outcome(path, inode, left) == old(Outcome(Some(path0), x, budget))
                && (left < budget || (left == budget && path == rest))
    {
      hide Shape, Labels, Compatible, FileSystem.Valid, FileSystem.MirrorsAll, FileSystem.Holders, First, After, Refused, Resolve, FileSystem.MemoryOk;
      TopIs(x);
      ResolveName(fs, path0, Labels(g, x), budget, MAX_SYMLINK_BUF);
      InHolders(x);
      inode, path, left := null, None, budget;
      var child := Child(x, name);
      ghost var g1 := g;
      CompatibleSelf(g);
      if child == null {
        Release(x);
      } else if child.node.mode == Lnk {
        inode, path, left := Follow(child, rest, budget);
      } else if rest.Some? && child.node.mode != Dir {
        Release(child);
      } else {
        inode := child;
        path := rest;
      }
      ShapeNow();
      CompatibleVia(old(g), g1, g);
    }

    /** One turn of the loop in lines 244-381. */
    method Component(x: Inode, path0: string, budget: nat) returns (inode: Inode?, path: Option<string>, left: nat)
      requires Valid() && held == multiset{x} && x in g && budget >= 1 && path0 != ""
      modifies this`g, this`held, this`allocs, g.Keys
      ensures Valid() && Kept() && path != Some("") && Shape(g) && old(Shape(g))
      ensures inode == null ==> held == multiset{} && (MemoryOk() ==> old(Outcome(Some(path0), x, budget)) == None)
      ensures inode != null ==>
                && held == multiset{inode} && inode in g && left >= 1
                && Outcome(path, inode, left) == old(Outcome(Some(path0), x, budget))
                && (left < budget || (left == budget && (path.Some? ==> |path.value| < |path0|)))
    {
      hide Shape, Labels, Compatible, FileSystem.Valid, FileSystem.MirrorsAll, FileSystem.Holders, First, After, Refused, FileSystem.MemoryOk;
      TopIs(x);
      CompatibleSelf(g);
      var name, rest := NextName(path0);
      inode, path, left := x, rest, budget;
      if name == "/" {
        inode := ToRoot(x);
      } else if name == "." {
      } else if name == ".." {
        if x.parent != null {
          inode := ToParent(x);
          ShapeNow();
        }
      } else {
        inode, path, left := Descend(x, path0, name, rest, budget);
      }
    }

    /** Lines 231-383: resolve `name` from the working directory. */
    method WalkPath(name: string) returns (inode: Inode?)
      requires Valid() && held == multiset{} && name != ""
      modifies this`g, this`held, this`allocs, g.Keys
      ensures Valid() && Kept() && Shape(g) && old(Shape(g) && cwd in g)
      ensures inode == null ==>
                held == multiset{} && (MemoryOk() ==> old(Outcome(Some(name), cwd, MAX_SYMLINK_CNT)) == None)
      ensures inode != null ==>
                && held == multiset{inode} && inode in g
                && old(Outcome(Some(name), cwd, MAX_SYMLINK_CNT)) == Some(Labels(g, inode))
    {
      hide Shape, Labels, Compatible, FileSystem.Valid, FileSystem.MirrorsAll, FileSystem.Holders, FileSystem.MemoryOk, FileSystem.Outcome;
      CwdLive();
      CompatibleSelf(g);
      OutcomeIs(cwd, Some(name));
      inode := null;
      var copied := mem(allocs);
      allocs := allocs + 1;
      if !copied {
        NoMemory(allocs - 1);
        return;
      }
      var cur: Inode? := cwd;
      GetInode(cwd);
      ShapeNow();
      SameOutcome(old(g), cwd, Some(name));
      assert held == multiset{cwd};
      var path: Option<string> := Some(name);
      var budget: nat := MAX_SYMLINK_CNT;
      ghost var goal := Outcome(Some(name), cwd, MAX_SYMLINK_CNT);
      while path.Some? && cur != null
        invariant Valid() && Kept() && path != Some("") && Shape(g)
        invariant cur == null ==> held == multiset{} && (MemoryOk() ==> goal == None)
        invariant cur != null ==> held == multiset{cur} && cur in g && budget >= 1 && Outcome(path, cur, budget) == goal
        decreases cur != null, budget, if path.Some? then |path.value| + 1 else 0
      {
        ghost var g1 := g;
        cur, path, budget := Component(cur, path.value, budget);
        CompatibleVia(old(g), g1, g);
      }
      inode := cur;
      if cur != null {
        OutcomeDone(cur, budget);
      }
    }

    lemma CwdLive()
      requires Valid()
      ensures cwd in g && Shape(g)
      ensures Linked(fs, Labels(g, cwd)) && DirTop(Labels(g, cwd))
    {
    }

    lemma NoMemory(i: nat)
      requires !mem(i)
      ensures !MemoryOk()
    {
    }

    lemma OutcomeIs(x: Inode, path: Option<string>)
      requires path != Some("") && Shape(g) && x in g
      ensures Outcome(path, x, MAX_SYMLINK_CNT) == Resolve(fs, path, Labels(g, x), MAX_SYMLINK_CNT, MAX_SYMLINK_BUF)
    {
    }

    lemma SameOutcome(g0: Graph, x: Inode, path: Option<string>)
      requires path != Some("") && Shape(g0) && Shape(g) && Compatible(g0, g) && x in g0 && x in g
      ensures Outcome(path, x, MAX_SYMLINK_CNT) == Resolve(fs, path, Labels(g0, x), MAX_SYMLINK_CNT, MAX_SYMLINK_BUF)
    {
      LabelsSame(g0, g, x);
    }

    lemma OutcomeDone(x: Inode, budget: nat)
      requires Shape(g) && x in g
      ensures Outcome(None, x, budget) == Some(Labels(g, x))
    {
    }

    // ---------- the table of open files

    /** `alloc_file`, fs.c:49-61. */
    method AllocFile() returns (i: int)
      requires files.Length == MAX_OPEN
      ensures -1 <= i < MAX_OPEN
      ensures i >= 0 ==> !files[i].used
      ensures i == -1 ==> TableFull()
    {
      i := 0;
      while i < MAX_OPEN
        invariant 0 <= i <= MAX_OPEN && forall k :: 0 <= k < i ==> files[k].used
      {
        if !files[i].used {
          return;
        }
        i := i + 1;
      }
      i := -1;
    }

    ghost predicate TableFull()
      requires files.Length == MAX_OPEN
      reads files
    {
      forall k :: 0 <= k < MAX_OPEN ==> files[k].used
    }

    /** Writing a table entry moves its reference between the table and `held`. */
    method SetSlot(i: nat, s: Slot)
      requires Valid() && i < MAX_OPEN && (!s.used ==> s == FREE)
      requires Holds(s) <= held + Holds(files[i])
      modifies this`held, files
      ensures Valid() && files[..] == old(files[..])[i := s]
      ensures held == old(held) + Holds(old(files[i])) - Holds(s)
      ensures Holders() == old(Holders())
    {
      hide Sound, FileSystem.CwdOk, FileSystem.RootOk, FileSystem.MirrorsAll, SlotHolders, Holds;
      ghost var before, x := files[..], Holds(files[i]);
      SlotChanged(before, i, s);
      Balance(held, x, Holds(s), SlotHolders(before), SlotHolders(before[i := s]));
      Associate(multiset{root, cwd}, SlotHolders(before), held, SlotHolders(before[i := s]), held + x - Holds(s));
      held := held + x - Holds(s);
      files[i] := s;
      assert files[..] == before[i := s];
    }

    lemma TableLength()
      requires Valid()
      ensures files.Length == MAX_OPEN
    {
    }

    lemma TableAndCounts()
      requires Valid()
      ensures TableOk(files[..]) && Sound(g, Holders())
    {
    }

    /** Lines 228-396: fill the table entry `i`, or give it back. */
    method OpenAt(i: nat, name: string) returns (found: bool)
      requires Valid() && held == multiset{} && name != "" && i < MAX_OPEN && files[i] == Slot(true, null, 0)
      modifies this`g, this`held, this`allocs, files, g.Keys
      ensures Valid() && held == multiset{} && Kept() && Shape(g) && old(Shape(g) && cwd in g)
      ensures !found ==> g == old(g) && files[..] == old(files[..])[i := FREE]
      ensures !found && MemoryOk() ==> old(Outcome(Some(name), cwd, MAX_SYMLINK_CNT)) == None
      ensures found ==>
                && files[i].inode != null && files[i].inode in g
                && files[..] == old(files[..])[i := Slot(true, files[i].inode, 0)]
                && old(Outcome(Some(name), cwd, MAX_SYMLINK_CNT)) == Some(Labels(g, files[i].inode))
    {
      hide Shape, Labels, Compatible, Sound, SlotHolders, Resolve, FileSystem.Valid, FileSystem.TableOk, FileSystem.MemoryOk, FileSystem.Outcome;
      ghost var h := Holders();
      TableAndCounts();
      TableLength();
      var inode := WalkPath(name);
      if inode == null {
        SetSlot(i, FREE);
        SameAgain(old(g), h);
        found := false;
      } else {
        SetSlot(i, Slot(true, inode, 0));
        assert files[..][i] == Slot(true, inode, 0);
        found := true;
      }
    }

    /** `searchdir` for file systems with `iget`, fs.c:203-399. */
    method Searchdir(name: string) returns (rv: int)
      requires Valid() && held == multiset{} && name != ""
      modifies this`g, this`held, this`allocs, files, g.Keys
      ensures Valid() && held == multiset{} && Kept() && Shape(g) && old(Shape(g) && cwd in g)
      ensures rv == -1 || 1 <= rv <= MAX_OPEN
      ensures rv == -1 ==> g == old(g) && files[..] == old(files[..])
      ensures rv == -1 && MemoryOk() ==> old(TableFull()) || old(Outcome(Some(name), cwd, MAX_SYMLINK_CNT)) == None
      ensures rv != -1 ==>
                && old(!files[rv - 1].used)
                && files[rv - 1].inode != null && files[rv - 1].inode in g
                && files[..] == old(files[..])[rv - 1 := Slot(true, files[rv - 1].inode, 0)]
                && old(Outcome(Some(name), cwd, MAX_SYMLINK_CNT)) == Some(Labels(g, files[rv - 1].inode))
    {
      hide Shape, Labels, Compatible, Sound, SlotHolders, FileSystem.Valid, FileSystem.Holders, FileSystem.MemoryOk, FileSystem.Outcome;
      ghost var before := files[..];
      TableAndCounts();
      CwdLive();
      OutcomeIs(cwd, Some(name));
      CompatibleSelf(g);
      var file := AllocFile();
      if file == -1 {
        return -1;
      }
      SetSlot(file, Slot(true, null, 0));
      OutcomeIs(cwd, Some(name));
      var found := OpenAt(file, name);
      rv := if found then file + 1 else -1;
      assert !found ==> files[..] == before;
    }

    /** With the holders it had, the graph is what it was. */
    lemma SameAgain(g0: Graph, h: multiset<Inode>)
      requires Valid() && Sound(g0, h) && Holders() == h && Compatible(g0, g)
      ensures g == g0
    {
      HoldersDetermine(g0, g, h);
    }

    /** `_close_file` with `generic_close_file`, fs.c:71-76 and lib/close.c. */
    method CloseFile(i: nat)
      requires Valid() && held == multiset{} && i < MAX_OPEN
      modifies this`g, files, g.Keys
      ensures Valid() && files[..] == old(files[..])[i := FREE]
      ensures Compatible(old(g), g) && g.Keys <= old(g.Keys)
    {
      hide Shape, Labels, Compatible, Sound, SlotHolders, Put, FileSystem.Valid, FileSystem.CwdOk, FileSystem.RootOk, FileSystem.MirrorsAll, Holds;
      Parts();
      ghost var before, rest := files[..], multiset{root, cwd} + SlotHolders(files[..][i := FREE]) + held;
      SlotChanged(before, i, FREE);
      HoldsIs(files[i]);
      HoldsIs(FREE);
      TakeOut(multiset{root, cwd}, SlotHolders(before), SlotHolders(before[i := FREE]), held, files[i].inode);
      CompatibleSelf(g);
      if files[i].used && files[i].inode != null {
        var x: Inode := files[i].inode;
        DropHolder(x, rest);
      }
      files[i] := FREE;
      assert files[..] == before[i := FREE];
      Whole();
    }

    // ---------- names of inodes

    /**
     `generic_inode_to_path`, chdir.c:36-55: the length of the inode's absolute path, of
     which as much as fits is in the buffer.  Nothing is written for the root.  An inode
     without a name on the way makes it -1.
     */
    method InodeToPath(x: Inode, dst: array<char>, bufsize: nat) returns (s: int)
      requires Valid() && x in g && 0 < bufsize <= dst.Length
      modifies dst
      ensures Shape(g) && dst[bufsize..] == old(dst[bufsize..])
      ensures s == -1 ==> !MemoryOk()
      ensures s != -1 ==>
                && s == |PathOf(Labels(g, x))| && Fits(dst[..], PathOf(Labels(g, x)), bufsize)
                && (s > 0 ==> Ended(dst[..], s, bufsize))
      decreases if x in g then g[x].depth else 0
    {
      hide Linked, Counted, SlotHolders, FileSystem.CwdOk, FileSystem.RootOk, Fits, Ended, FileSystem.MemoryOk;
      TopIs(x);
      assert Mirrors(x, g[x]) && ShapeAt(g, x);
      s := 0;
      NothingShown(dst[..], bufsize);
      if x.parent != null {
        if x.name == None {
          return -1;
        }
        s := InodeToPath(x.parent, dst, bufsize);
        if s == -1 {
          return;
        }
        s := CopyString(dst, s, bufsize, "/", PathOf(Labels(g, x.parent)));
        s := CopyString(dst, s, bufsize, x.name.value, PathOf(Labels(g, x.parent)) + "/");
        LastLabel(g, x, x.parent);
      }
    }

    /** A file opened and closed again leaves everything as it was. */
    method CloseAgain(i: nat, ghost g0: Graph, ghost h: multiset<Inode>, ghost table: seq<Slot>)
      requires Valid() && held == multiset{} && i < MAX_OPEN
      requires Sound(g0, h) && Compatible(g0, g)
      requires |table| == MAX_OPEN && table[i] == FREE && files[..] == table[i := files[i]]
      requires h == multiset{root, cwd} + SlotHolders(table)
      modifies this`g, files, g.Keys
      ensures Valid() && g == g0 && files[..] == table
    {
      hide Shape, Labels, Compatible, Sound, SlotHolders, FileSystem.Valid;
      ghost var g1, h1 := g, Holders();
      TableAndCounts();
      SlotChanged(table, i, files[i]);
      StillHeld(multiset{root, cwd}, SlotHolders(table), SlotHolders(files[..]), Holds(files[i]));
      KeysIn(g0, h, g1, h1);
      CloseFile(i);
      assert files[..] == table;
      CompatibleVia(g0, g1, g);
      assert Holders() == h;
      SameAgain(g0, h);
    }

    /** `realpath`, chdir.c:57-84. */
    method Realpath(dst: array<char>, src: string, bufsize: nat) returns (s: int)
      requires Valid() && held == multiset{} && src != "" && 0 < bufsize <= dst.Length
      modifies this`g, this`held, this`allocs, files, g.Keys, dst
      ensures Valid() && held == multiset{} && g == old(g) && files[..] == old(files[..])
      ensures old(Shape(g) && cwd in g)
      ensures s == -1 && MemoryOk() ==> old(TableFull()) || old(Outcome(Some(src), cwd, MAX_SYMLINK_CNT)) == None
      ensures s != -1 ==>
                var found := old(Outcome(Some(src), cwd, MAX_SYMLINK_CNT));
                && found.Some? && s == |AbsPath(found.value)|
                && Fits(dst[..], AbsPath(found.value), bufsize) && Ended(dst[..], s, bufsize)
    {
      hide Shape, Labels, Compatible, Sound, SlotHolders, FileSystem.Valid, FileSystem.MemoryOk, FileSystem.Outcome, PathOf, Fits, Ended;
      ghost var g0, h, table := g, Holders(), files[..];
      TableAndCounts();
      var rv := Searchdir(src);
      if rv < 0 {
        return -1;
      }
      var x := files[rv - 1].inode;
      s := InodeToPath(x, dst, bufsize);
      PathEmpty(Labels(g, x));
      if s == 0 {
        NothingShown(dst[..], bufsize);
        s := CopyString(dst, 0, bufsize, "/", "");
      }
      CloseAgain(rv - 1, g0, h, table);
    }

    // ---------- the working directory

    /** Lines 110-111 of chdir.c: let go of the old directory, hold the new one. */
    method MoveCwd(x: Inode)
      requires Valid() && held == multiset{} && x in SlotHolders(files[..])
      requires x in g && Shape(g) && Linked(fs, Labels(g, x)) && DirTop(Labels(g, x))
      modifies this`g, this`cwd, g.Keys
      ensures Valid() && cwd == x && Compatible(old(g), g) && g.Keys <= old(g.Keys)
      ensures x in g && Shape(g) && Labels(g, x) == old(Labels(g, x))
    {
      hide Shape, Labels, Compatible, Sound, SlotHolders, Linked, DirTop, Put, FileSystem.Valid, FileSystem.RootOk, FileSystem.MirrorsAll;
      Parts();
      ghost var g0, rest := g, multiset{root} + SlotHolders(files[..]) + held;
      MoveHolder(root, cwd, SlotHolders(files[..]), held);
      SoundFacts(g, With(rest, cwd), cwd);
      PutSound(g, With(rest, cwd), cwd);
      DropLoop(cwd, rest);
      RootKept(g0, g, rest);
      SoundFacts(g, rest, x);
      ghost var g1 := g;
      GetSound(g1, rest, x);
      cwd := x;
      Lift(x);
      SoundFacts(g, rest + multiset{x}, x);
      CompatibleVia(g0, g1, g);
      LabelsSame(g0, g, x);
      RootKept(g0, g, rest + multiset{x});
      MoveHolder(root, x, SlotHolders(files[..]), held);
      Whole();
    }

    /** The count of `x` goes up by one. */
    method Lift(x: Inode)
      requires x in g && MirrorsAll(g)
      modifies this`g, x`refcnt
      ensures g == Get(old(g), x) && MirrorsAll(g)
    {
      x.refcnt := x.refcnt + 1;
      g := Get(g, x);
      assert forall y :: y in g && y != x ==> old(Mirrors(y, g[y]));
    }

    /**
     Lines 115-125 of chdir.c: the name of the working directory, with a slash at its end.
     The buffer is on the stack and starts out with whatever is there.  `outside` is set at
     the first access outside the buffer, and `unnamed` if that is because the path could not
     be made; nothing is modelled from there on.
     */
    method RecordName(stack: seq<char>) returns (outside: bool, ghost unnamed: bool)
      requires Valid() && |stack| == CURRENTDIR_MAX
      modifies this`cwdName
      ensures Shape(g) && cwd in g
      ensures unnamed ==> outside && !MemoryOk()
      ensures !unnamed ==>
                && (outside <==> Outside(|PathOf(Labels(g, cwd))|, stack[CURRENTDIR_MAX - 1]))
                && (|PathOf(Labels(g, cwd))| < CURRENTDIR_MAX - 1 ==> cwdName == PathOf(Labels(g, cwd)) + "/")
    {
      hide Shape, Labels, Compatible, Sound, SlotHolders, Linked, DirTop, PathOf, FileSystem.Valid;
      CwdLive();
      var cwdBuf := new char[CURRENTDIR_MAX](i requires 0 <= i < CURRENTDIR_MAX => stack[i]);
      var s := InodeToPath(cwd, cwdBuf, CURRENTDIR_MAX - 1);
      if s == -1 {
        return true, true;
      }
      assert cwdBuf[CURRENTDIR_MAX - 1] == cwdBuf[CURRENTDIR_MAX - 1..][0] == stack[CURRENTDIR_MAX - 1];
      ghost var p := PathOf(Labels(g, cwd));
      NoSlashEnd(fs, Labels(g, cwd));
      assert s < CURRENTDIR_MAX - 1 ==> cwdBuf[..s] == p;
      if s > CURRENTDIR_MAX {
        return true, false;
      }
      if s < 1 || cwdBuf[s - 1] != '/' {
        if s >= CURRENTDIR_MAX {
          return true, false;
        }
        cwdBuf[s] := '/';
        s := s + 1;
      }
      if s >= CURRENTDIR_MAX {
        s := CURRENTDIR_MAX - 1;
      }
      cwdBuf[s] := '\0';
      cwdName := cwdBuf[..s];
      outside, unnamed := false, false;
    }

    /** `chdir`, chdir.c:86-131; `outside` as above. */
    method Chdir(src: string, stack: seq<char>) returns (rv: int, outside: bool, ghost unnamed: bool)
      requires Valid() && held == multiset{} && src != "" && |stack| == CURRENTDIR_MAX
      modifies this, files, g.Keys
      ensures old(Shape(g) && cwd in g)
      ensures var found := old(Outcome(Some(src), cwd, MAX_SYMLINK_CNT));
        && (unnamed ==> outside && !MemoryOk())
        && (outside ==> found.Some? && Top(fs, found.value).mode == Dir)
        && (outside && !unnamed ==> Outside(|PathOf(found.value)|, stack[CURRENTDIR_MAX - 1]))
        && (!outside ==>
              && Valid() && held == multiset{} && files[..] == old(files[..]) && Shape(g) && cwd in g && (rv == 0 || rv == -1)
              && (rv == -1 ==> g == old(g) && cwd == old(cwd) && cwdName == old(cwdName))
              && (rv == -1 && MemoryOk() ==> old(TableFull()) || found == None || Top(fs, found.value).mode != Dir)
              && (rv == 0 ==>
                    && found == Some(Labels(g, cwd)) && Top(fs, found.value).mode == Dir
                    && (src == ".." ==> GoneUp(old(Labels(g, cwd)), Labels(g, cwd)))
                    && !Outside(|PathOf(found.value)|, stack[CURRENTDIR_MAX - 1])
                    && (|PathOf(found.value)| < CURRENTDIR_MAX - 1 ==> cwdName == PathOf(found.value) + "/")))
    {
      hide Shape, Labels, Compatible, Sound, SlotHolders, Linked, PathOf, FileSystem.Valid, FileSystem.MemoryOk, FileSystem.Outcome;
      ghost var g0, h, table := g, Holders(), files[..];
      TableAndCounts();
      CwdLive();
      OutcomeIs(cwd, Some(src));
      ghost var c0 := Labels(g, cwd);
      if src == ".." { UpFound(fs, c0, MAX_SYMLINK_CNT, MAX_SYMLINK_BUF); }
      outside, unnamed := false, false;
      rv := Searchdir(src);
      if rv < 0 {
        return;
      }
      var i := rv - 1;
      var x: Inode := files[i].inode;
      TopIs(x);
      if x.node.mode != Dir {
        CloseAgain(i, g0, h, table);
        return -1, false, false;
      }
      ResolveLinked(fs, Some(src), c0, MAX_SYMLINK_CNT, MAX_SYMLINK_BUF);
      outside, unnamed := Enter(i, x, stack);
      assert files[..] == table;
      rv := 0;
    }

    /** The second half of `chdir`: make the directory in table entry `i` the current one. */
    method Enter(i: nat, x: Inode, stack: seq<char>) returns (outside: bool, ghost unnamed: bool)
      requires Valid() && held == multiset{} && i < MAX_OPEN && files[i].inode == x && |stack| == CURRENTDIR_MAX
      requires x in g && Shape(g) && Linked(fs, Labels(g, x)) && DirTop(Labels(g, x))
      modifies this`g, this`cwd, this`cwdName, files, g.Keys
      ensures Valid() && files[..] == old(files[..])[i := FREE] && Shape(g) && cwd in g
      ensures Labels(g, cwd) == old(Labels(g, x))
      ensures unnamed ==> outside && !MemoryOk()
      ensures !unnamed ==>
                && (outside <==> Outside(|PathOf(Labels(g, cwd))|, stack[CURRENTDIR_MAX - 1]))
                && (|PathOf(Labels(g, cwd))| < CURRENTDIR_MAX - 1 ==> cwdName == PathOf(Labels(g, cwd)) + "/")
    {
      hide Shape, Labels, Compatible, Sound, SlotHolders, Linked, DirTop, PathOf, FileSystem.Valid, FileSystem.MemoryOk;
      TableAndCounts();
      InTable(files[..], i);
      MoveCwd(x);
      ghost var g1 := g;
      CloseFile(i);
      CwdLive();
      LabelsSame(g1, g, x);
      outside, unnamed := RecordName(stack);
    }

    lemma ShapeNow()
      requires Valid()
      ensures Shape(g)
    {
    }

    lemma InHolders(x: Inode)
      requires Valid() && x in held
      ensures x in g && Shape(g)
    {
    }
  }

  lemma Balance(held: multiset<Inode>, x: multiset<Inode>, y: multiset<Inode>, a: multiset<Inode>, b: multiset<Inode>)
    requires b + x == a + y && y <= held + x
    ensures b + (held + x - y) == a + held
  {
    var l, r := b + (held + x - y), a + held;
    forall k: Inode ensures l[k] == r[k] {
      assert (b + x)[k] == (a + y)[k];
      assert y[k] <= (held + x)[k];
    }
  }

  // ---------- long working directories

  /** `chdir` reads or writes behind its buffer: a path of `n` characters, `last` being what the buffer's last place held. */
  predicate Outside(n: nat, last: char) {
    n > CURRENTDIR_MAX || (n == CURRENTDIR_MAX && last != '/')
  }

  /** Whatever is on the stack, every access is inside exactly for paths shorter than the buffer. */
  lemma InsideExact(n: nat)
    ensures (forall last: char :: !Outside(n, last)) <==> n < CURRENTDIR_MAX
  {
    assert n >= CURRENTDIR_MAX ==> Outside(n, 'a');
  }

  /** A file system in which every directory has a directory of every name. */
  function Everywhere(): Fs {
    Fs(Node(1, Dir, 0, ""), (_, _) => Some(Node(1, Dir, 0, "")), false)
  }

  function Nested(k: nat): (chain: seq<Link>)
    ensures |chain| == k
  {
    if k == 0 then [] else Nested(k - 1) + [Link("a", Node(1, Dir, 0, ""))]
  }

  /** Changing to `a` again and again gets to a path too long for the buffer, one name at a time. */
  lemma NestedTooLong(k: nat, last: char)
    ensures Resolve(Everywhere(), Some("a"), Nested(k), MAX_SYMLINK_CNT, MAX_SYMLINK_BUF) == Some(Nested(k + 1))
    ensures |PathOf(Nested(k))| == 2 * k
    ensures Outside(|PathOf(Nested(129))|, last)
  {
    NestedLength(k);
    NestedLength(129);
    assert NameEnd("a", 1) == 1 && First("a") == "a" && After("a") == None;
  }

  lemma {:induction false} NestedLength(k: nat)
    ensures |PathOf(Nested(k))| == 2 * k
  {
    if k > 0 {
      NestedLength(k - 1);
      var c := Nested(k - 1);
      assert (c + [Link("a", Node(1, Dir, 0, ""))])[..|c|] == c;
    }
  }

  // ---------- strings in bounded buffers

  /** The buffer holds as much of `p` as it can, one place kept free. */
  ghost predicate Fits(buf: seq<char>, p: string, bufsize: nat) {
    && 0 < bufsize <= |buf|
    && forall k :: 0 <= k < |p| && k + 1 < bufsize ==> buf[k] == p[k]
  }

  /** A string of length `n` is terminated, if there is room for that. */
  ghost predicate Ended(buf: seq<char>, n: nat, bufsize: nat) {
    bufsize <= |buf| && (n < bufsize ==> buf[n] == '\0')
  }

  lemma NothingShown(buf: seq<char>, bufsize: nat)
    requires 0 < bufsize <= |buf|
    ensures Fits(buf, "", bufsize)
  {
  }

  /** `copy_string`, chdir.c:20-34: append to a string of length `ix`. */
  method CopyString(buf: array<char>, ix: nat, bufsize: nat, src: string, ghost before: string) returns (r: nat)
    requires 0 < bufsize <= buf.Length && ix == |before| && Fits(buf[..], before, bufsize)
    modifies buf
    ensures r == |before + src| && Fits(buf[..], before + src, bufsize) && Ended(buf[..], r, bufsize)
    ensures buf[bufsize..] == old(buf[bufsize..])
  {
    r := ix;
    var i := 0;
    while i < |src|
      invariant 0 <= i <= |src| && r == ix + i
      invariant Fits(buf[..], before + src[..i], bufsize) && buf[bufsize..] == old(buf[bufsize..])
    {
      if r + 1 < bufsize {
        buf[r] := src[i];
      }
      r := r + 1;
      i := i + 1;
    }
    assert src[..i] == src;
    if r < bufsize {
      buf[r] := '\0';
    }
  }

  lemma LastLabel(g: Graph, x: Inode, p: Inode)
    requires Shape(g) && x in g && g[x].parent == Some(p)
    ensures p in g && PathOf(Labels(g, x)) == PathOf(Labels(g, p)) + "/" + g[x].link.name
  {
    assert ShapeAt(g, x);
    var l := Labels(g, p);
    assert (l + [g[x].link])[..|l|] == l;
  }

  /** The path of a chain ends in the last name, not in a slash. */
  lemma NoSlashEnd(fs: Fs, chain: seq<Link>)
    requires Linked(fs, chain)
    ensures var p := PathOf(chain); p != "" ==> p[|p| - 1] != '/'
  {
    if chain != [] {
      assert LinkedAt(fs, chain, |chain| - 1);
    }
  }

  lemma PathEmpty(chain: seq<Link>)
    ensures PathOf(chain) == "" <==> chain == []
    ensures "" + "/" == "/"
  {
  }

  lemma HoldsIs(s: Slot)
    ensures Holds(s) == With(multiset{}, s.inode)
  {
  }

  lemma TakeOut(r: multiset<Inode>, a: multiset<Inode>, b: multiset<Inode>, held: multiset<Inode>, x: Inode?)
    requires b + With(multiset{}, x) == a + multiset{}
    ensures r + a + held == With(r + b + held, x)
  {
    assert a == b + With(multiset{}, x);
    if x != null {
      assert r + (b + multiset{x}) + held == r + b + held + multiset{x};
    }
  }

  lemma HolderOut(root: Inode, cwd: Inode, slots: multiset<Inode>, held: multiset<Inode>, x: Inode)
    requires x in held
    ensures var rest := multiset{root, cwd} + slots + (held - multiset{x});
            root in rest && cwd in rest && x in multiset{root, cwd} + slots + held
            && multiset{root, cwd} + slots + held == With(rest, x)
  {
  }

  lemma MoveHolder(r: Inode, x: Inode, a: multiset<Inode>, held: multiset<Inode>)
    ensures multiset{r, x} + a + held == With(multiset{r} + a + held, x)
    ensures With(multiset{r} + a + held, x) == multiset{r} + a + held + multiset{x}
  {
  }

  lemma {:induction false} InTable(s: seq<Slot>, i: nat)
    requires i < |s| && s[i].inode != null
    ensures s[i].inode in SlotHolders(s)
  {
    if i > 0 {
      InTable(s[1..], i - 1);
    }
  }

  lemma StillHeld(r: multiset<Inode>, a: multiset<Inode>, b: multiset<Inode>, x: multiset<Inode>)
    requires b + Holds(FREE) == a + x
    ensures forall y :: y in r + a ==> y in r + b + multiset{}
  {
    forall y | y in r + a ensures y in r + b + multiset{} {
      assert (b + Holds(FREE))[y] == (a + x)[y];
    }
  }

  lemma Associate(r: multiset<Inode>, a: multiset<Inode>, held: multiset<Inode>, b: multiset<Inode>, held1: multiset<Inode>)
    requires b + held1 == a + held
    ensures r + b + held1 == r + a + held
  {
    assert r + b + held1 == r + (b + held1);
    assert r + a + held == r + (a + held);
  }

  lemma CompatibleSelf(g: Graph)
    ensures Compatible(g, g)
  {
  }

  lemma AttachLabels(g: Graph, g1: Graph, c: Inode, p: Inode, link: Link)
    requires Shape(g) && Shape(g1) && p in g && c !in g && g1 == Attach(g, c, p, link) && Compatible(g, g1)
    ensures Labels(g1, c) == Labels(g, p) + [link]
  {
    LabelsSame(g, g1, p);
  }

  lemma RootOnly(g: Graph, r: Inode, link: Link)
    requires g == map[r := Rec(2, None, 0, link)]
    ensures Sound(g, multiset{r, r}) && Labels(g, r) == []
  {
    assert Kids(g, r) == {};
    assert ShapeAt(g, r) && CountedAt(g, multiset{r, r}, r);
  }

  lemma ParentLabels(g: Graph, x: Inode, p: Inode)
    requires Shape(g) && x in g && g[x].parent == Some(p)
    ensures p in g && Labels(g, p) == Up(Labels(g, x))
  {
    assert ShapeAt(g, x);
  }

  function With(rest: multiset<Inode>, x: Inode?): (h: multiset<Inode>)
    ensures x != null ==> x in h
    ensures x == null ==> h == rest
  {
    if x == null then rest else rest + multiset{x}
  }

  function Dropped(g: Graph, x: Inode): Graph
    requires x in g
  {
    if g[x].refs != 1 then Lower(g, x) else g - {x}
  }

  /** The inode whose reference is to be dropped next. */
  function Pending(g: Graph, x: Inode): Inode?
    requires x in g
  {
    if g[x].refs != 1 || g[x].parent.None? then null else g[x].parent.value
  }

  /** One turn of `put_inode` keeps the counts right and gets on with the same task. */
  lemma PutStep(g: Graph, rest: multiset<Inode>, x: Inode)
    requires Sound(g, With(rest, x)) && x in g
    ensures var g1, next := Dropped(g, x), Pending(g, x);
      && Sound(g1, With(rest, next)) && g1.Keys <= g.Keys
      && (next != null ==>
            && next in g1 && |g1| < |g| && x in With(rest, x) && next in With(rest, next)
            && Put(g1, With(rest, next), next) == Put(g, With(rest, x), x))
      && (next == null ==> |g1| <= |g| && x in With(rest, x) && g1 == Put(g, With(rest, x), x))
  {
    hide Sound, Counted;
    var h := With(rest, x);
    if g[x].refs != 1 {
      LowerSound(g, h, x);
      assert h - multiset{x} == rest;
    } else {
      RemoveSound(g, h, x);
      assert Remaining(g, h, x) == With(rest, Pending(g, x));
    }
  }

  lemma SoundFacts(g: Graph, h: multiset<Inode>, x: Inode)
    requires Sound(g, h) && x in h
    ensures x in g && Shape(g)
  {
  }
}
