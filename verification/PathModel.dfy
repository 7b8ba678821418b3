/**
 What a path means: resolution of components over an abstract directory graph, and the
 string-level resolution that `searchdir` performs with its limits.
 */
module PathModel {
  import opened Options
  import opened PathNames

  datatype Mode = Dir | Lnk | Reg | Other

  /** An on-disk inode as `iget` sees it; `target` is what `readlink` yields, empty on failure. */
  datatype Node = Node(ino: int, mode: Mode, size: int, target: string)

  /** A mounted file system: any graph of directories, with or without symlinks. */
  datatype Fs = Fs(root: Node, iget: (Node, string) -> Option<Node>, hasReadlink: bool)

  /** One step of a walk down from the root. */
  datatype Link = Link(name: string, node: Node)

  const MAX_SYMLINK_CNT: nat := 20
  const MAX_SYMLINK_BUF: nat := 4096

  function Top(fs: Fs, chain: seq<Link>): Node {
    if chain == [] then fs.root else chain[|chain| - 1].node
  }

  /** `..`, ignored at the root (fs.c:283-296). */
  function Up(chain: seq<Link>): seq<Link> {
    if chain == [] then [] else chain[..|chain| - 1]
  }

  // ---------- the meaning of a list of components

  /** Walk the components from `chain`; at most `budget - 1` symlinks may be followed. */
  function Walk(fs: Fs, comps: seq<Comp>, chain: seq<Link>, budget: nat): Option<seq<Link>>
    decreases budget, |comps|
  {
    if comps == [] then Some(chain)
    else
      var more := comps[1..];
      match comps[0]
      case RootComp => Walk(fs, more, [], budget)
      case Name(n) =>
        if n == "." then Walk(fs, more, chain, budget)
        else if n == ".." then Walk(fs, more, Up(chain), budget)
        else
          match fs.iget(Top(fs, chain), n)
          case None => None
          case Some(node) =>
            if node.mode == Lnk then
              if !fs.hasReadlink || budget <= 1 || node.target == "" then None
              else Walk(fs, Comps(node.target) + more, chain, budget - 1)
            else if more != [] && node.mode != Dir then None
            else Walk(fs, more, chain + [Link(n, node)], budget)
  }

  // ---------- the string-level resolution

  /** Length of the buffer for a spliced path, as computed in lines 325-330. */
  function SpliceLen(node: Node, rest: Option<string>): int {
    node.size + 1 + if rest.Some? then |rest.value| + 1 else 0
  }

  function Splice(target: string, rest: Option<string>): (p: string)
    requires target != ""
    ensures p != ""
  {
    if rest.Some? then target + "/" + rest.value else target
  }

  /** Reasons not to follow a symlink (lines 332-344). */
  predicate Refused(fs: Fs, node: Node, rest: Option<string>, budget: nat, limit: int) {
    !fs.hasReadlink || budget <= 1 || SpliceLen(node, rest) > limit || node.target == ""
  }

  /** Resolution of a path string, with buffers of at most `limit` bytes for spliced paths. */
  function Resolve(fs: Fs, path: Option<string>, chain: seq<Link>, budget: nat, limit: int): Option<seq<Link>>
    requires path != Some("")
    decreases budget, if path.Some? then |path.value| + 1 else 0
  {
    if path.None? then Some(chain)
    else
      var name, rest := First(path.value), After(path.value);
      if name == "/" then Resolve(fs, rest, [], budget, limit)
      else if name == "." then Resolve(fs, rest, chain, budget, limit)
      else if name == ".." then Resolve(fs, rest, Up(chain), budget, limit)
      else
        match fs.iget(Top(fs, chain), name)
        case None => None
        case Some(node) =>
          if node.mode == Lnk then
            if Refused(fs, node, rest, budget, limit) then None
            else Resolve(fs, Some(Splice(node.target, rest)), chain, budget - 1, limit)
          else if rest.Some? && node.mode != Dir then None
          else Resolve(fs, rest, chain + [Link(name, node)], budget, limit)
  }

  /** The step for a name that is looked up. */
  lemma ResolveName(fs: Fs, path: string, chain: seq<Link>, budget: nat, limit: int)
    requires path != "" && First(path) != "/" && First(path) != "." && First(path) != ".."
    ensures var name, rest := First(path), After(path);
            Resolve(fs, Some(path), chain, budget, limit) ==
            match fs.iget(Top(fs, chain), name)
            case None => None
            case Some(node) =>
              if node.mode == Lnk then
                if Refused(fs, node, rest, budget, limit) then None
                else Resolve(fs, Some(Splice(node.target, rest)), chain, budget - 1, limit)
              else if rest.Some? && node.mode != Dir then None
              else Resolve(fs, rest, chain + [Link(name, node)], budget, limit)
  {
  }

  /** What remains of the path is a component list again. */
  lemma SplicedComps(target: string, rest: Option<string>)
    requires target != "" && (rest.Some? ==> rest.value != "" && rest.value[0] != '/')
    ensures Comps(Splice(target, rest)) == Comps(target) + CompsOf(rest)
  {
    if rest.Some? {
      SpliceComps(target, rest.value);
    } else {
      assert Comps(target) + [] == Comps(target);
    }
  }

  /** There is more to look up exactly when there are components left. */
  lemma MoreComps(rest: Option<string>)
    requires rest.Some? ==> rest.value != ""  && rest.value[0] != '/'
    ensures rest.Some? <==> CompsOf(rest) != []
  {
    if rest.Some? {
      ScannerComps(rest.value);
    }
  }

  /** Whatever `searchdir` finds is what the components of the path mean. */
  lemma {:induction false} ResolveMeans(fs: Fs, path: Option<string>, chain: seq<Link>, budget: nat, limit: int)
    requires path != Some("") && Resolve(fs, path, chain, budget, limit).Some?
    ensures Walk(fs, CompsOf(path), chain, budget) == Resolve(fs, path, chain, budget, limit)
    decreases budget, if path.Some? then |path.value| + 1 else 0
  {
    if path.Some? {
      var name, rest := First(path.value), After(path.value);
      ScannerComps(path.value);
      assert CompsOf(path)[1..] == CompsOf(rest);
      if name == "/" {
        ResolveMeans(fs, rest, [], budget, limit);
      } else if name == "." {
        ResolveMeans(fs, rest, chain, budget, limit);
      } else if name == ".." {
        ResolveMeans(fs, rest, Up(chain), budget, limit);
      } else {
        var node := fs.iget(Top(fs, chain), name).value;
        MoreComps(rest);
        if node.mode == Lnk {
          SplicedComps(node.target, rest);
          ResolveMeans(fs, Some(Splice(node.target, rest)), chain, budget - 1, limit);
        } else {
          ResolveMeans(fs, rest, chain + [Link(name, node)], budget, limit);
        }
      }
    }
  }

  /** Only the length limit stands between the two: with enough room, a meaningful path is found. */
  lemma {:induction false} WalkFound(fs: Fs, path: Option<string>, chain: seq<Link>, budget: nat) returns (limit: int)
    requires path != Some("") && Walk(fs, CompsOf(path), chain, budget).Some?
    ensures forall l :: l >= limit ==>
              Resolve(fs, path, chain, budget, l) == Walk(fs, CompsOf(path), chain, budget)
    decreases budget, if path.Some? then |path.value| + 1 else 0
  {
    limit := 0;
    if path.Some? {
      var name, rest := First(path.value), After(path.value);
      ScannerComps(path.value);
      assert CompsOf(path)[1..] == CompsOf(rest);
      if name == "/" {
        limit := WalkFound(fs, rest, [], budget);
      } else if name == "." {
        limit := WalkFound(fs, rest, chain, budget);
      } else if name == ".." {
        limit := WalkFound(fs, rest, Up(chain), budget);
      } else {
        var node := fs.iget(Top(fs, chain), name).value;
        MoreComps(rest);
        if node.mode == Lnk {
          SplicedComps(node.target, rest);
          limit := WalkFound(fs, Some(Splice(node.target, rest)), chain, budget - 1);
          limit := if SpliceLen(node, rest) > limit then SpliceLen(node, rest) else limit;
        } else {
          limit := WalkFound(fs, rest, chain + [Link(name, node)], budget);
        }
      }
    }
  }

  // ---------- chains and their paths

  /** A name that is looked up: not a slash, a dot or two dots, and without slashes. */
  predicate ProperName(n: string) {
    n != "" && n != "." && n != ".." && forall k :: 0 <= k < |n| ==> n[k] != '/'
  }

  /** Every link is what `iget` finds under the one above it; nothing on the way is a symlink. */
  predicate Linked(fs: Fs, chain: seq<Link>) {
    forall i :: 0 <= i < |chain| ==> LinkedAt(fs, chain, i)
  }

  predicate LinkedAt(fs: Fs, chain: seq<Link>, i: nat)
    requires i < |chain|
  {
    && ProperName(chain[i].name) && chain[i].node.mode != Lnk
    && fs.iget(Top(fs, chain[..i]), chain[i].name) == Some(chain[i].node)
    && (i + 1 < |chain| ==> chain[i].node.mode == Dir)
  }

  /** The absolute path of a chain, as `generic_inode_to_path` writes it. */
  function PathOf(chain: seq<Link>): string {
    if chain == [] then "" else PathOf(chain[..|chain| - 1]) + "/" + chain[|chain| - 1].name
  }

  function AbsPath(chain: seq<Link>): (p: string)
    ensures p != ""
  {
    if chain == [] then "/" else PathOf(chain)
  }

  /** The end of the chain can have entries looked up in it. */
  predicate DirTop(chain: seq<Link>) {
    chain != [] ==> chain[|chain| - 1].node.mode == Dir
  }

  lemma UpLinked(fs: Fs, chain: seq<Link>)
    requires Linked(fs, chain)
    ensures Linked(fs, Up(chain)) && DirTop(Up(chain))
  {
    var up := Up(chain);
    forall i | 0 <= i < |up| ensures LinkedAt(fs, up, i) {
      assert LinkedAt(fs, chain, i);
      assert up[..i] == chain[..i];
    }
    if up != [] {
      assert LinkedAt(fs, chain, |chain| - 2);
    }
  }

  lemma PushLinked(fs: Fs, chain: seq<Link>, l: Link)
    requires Linked(fs, chain) && DirTop(chain) && ProperName(l.name) && l.node.mode != Lnk
    requires fs.iget(Top(fs, chain), l.name) == Some(l.node)
    ensures Linked(fs, chain + [l])
  {
    var c := chain + [l];
    assert c[..|chain|] == chain;
    forall i | 0 <= i < |c| ensures LinkedAt(fs, c, i) {
      if i < |chain| {
        assert LinkedAt(fs, chain, i);
        assert c[..i] == chain[..i];
      }
    }
  }

  /** What is found from a directory is linked from the root without symlinks, dots or slashes. */
  lemma {:induction false} ResolveLinked(fs: Fs, path: Option<string>, chain: seq<Link>, budget: nat, limit: int)
    requires path != Some("") && Linked(fs, chain) && (path.Some? ==> DirTop(chain))
    requires Resolve(fs, path, chain, budget, limit).Some?
    ensures Linked(fs, Resolve(fs, path, chain, budget, limit).value)
    decreases budget, if path.Some? then |path.value| + 1 else 0
  {
    if path.Some? {
      var name, rest := First(path.value), After(path.value);
      if name == "/" {
        ResolveLinked(fs, rest, [], budget, limit);
      } else if name == "." {
        ResolveLinked(fs, rest, chain, budget, limit);
      } else if name == ".." {
        UpLinked(fs, chain);
        ResolveLinked(fs, rest, Up(chain), budget, limit);
      } else {
        var node := fs.iget(Top(fs, chain), name).value;
        if node.mode == Lnk {
          ResolveLinked(fs, Some(Splice(node.target, rest)), chain, budget - 1, limit);
        } else {
          PushLinked(fs, chain, Link(name, node));
          ResolveLinked(fs, rest, chain + [Link(name, node)], budget, limit);
        }
      }
    }
  }

  /** The names from link `i` on, with slashes between them. */
  function Join(chain: seq<Link>, i: nat): (p: string)
    requires i < |chain|
    decreases |chain| - i
  {
    chain[i].name + if i + 1 < |chain| then "/" + Join(chain, i + 1) else ""
  }

  lemma {:induction false} PathJoin(chain: seq<Link>, i: nat)
    requires i < |chain|
    ensures PathOf(chain) == PathOf(chain[..i]) + "/" + Join(chain, i)
    decreases |chain| - i
  {
    assert chain[..i + 1][..i] == chain[..i];
    if i + 1 < |chain| {
      PathJoin(chain, i + 1);
    } else {
      assert chain[..i + 1] == chain;
      assert chain[i].name + "" == chain[i].name;
    }
  }

  lemma ScanJoined(n: string, t: string)
    requires ProperName(n)
    ensures First(n) == n && After(n) == None
    ensures t != "" && t[0] != '/' ==> First(n + "/" + t) == n && After(n + "/" + t) == Some(t)
  {
    NameEndOf(n, 1, |n|);
    var s := n + "/" + t;
    NameEndOf(s, 1, |n|);
    assert s[0] == n[0] && s[..|n|] == n && s[|n| + 1..] == t;
    assert n[..|n|] == n;
  }

  lemma {:induction false} JoinFound(fs: Fs, chain: seq<Link>, i: nat, budget: nat, limit: int)
    requires Linked(fs, chain) && i < |chain|
    ensures Join(chain, i) != "" && Join(chain, i)[0] != '/'
    ensures Resolve(fs, Some(Join(chain, i)), chain[..i], budget, limit) == Some(chain)
    decreases |chain| - i
  {
    assert LinkedAt(fs, chain, i);
    assert chain[..i + 1] == chain[..i] + [Link(chain[i].name, chain[i].node)];
    if i + 1 < |chain| {
      JoinFound(fs, chain, i + 1, budget, limit);
      assert Join(chain, i) == chain[i].name + "/" + Join(chain, i + 1);
      ScanJoined(chain[i].name, Join(chain, i + 1));
    } else {
      assert chain[i].name + "" == chain[i].name;
      ScanJoined(chain[i].name, "");
      assert chain[..i + 1] == chain;
    }
  }

  /** The absolute path of a chain leads to that chain from any directory, following no symlinks. */
  lemma PathFound(fs: Fs, chain: seq<Link>, start: seq<Link>, budget: nat, limit: int)
    requires Linked(fs, chain)
    ensures Resolve(fs, Some(AbsPath(chain)), start, budget, limit) == Some(chain)
  {
    var p := AbsPath(chain);
    if chain == [] {
      assert After(p) == None;
    } else {
      PathJoin(chain, 0);
      JoinFound(fs, chain, 0, budget, limit);
      assert p == "/" + Join(chain, 0);
      assert p[1..] == Join(chain, 0);
      assert chain[..0] == [];
    }
  }

  // ---------- relative paths, dots and two dots

  /** A name in front of a path is looked up, and the rest from there. */
  lemma NameThen(fs: Fs, chain: seq<Link>, l: Link, q: string, budget: nat, limit: int)
    requires ProperName(l.name) && l.node.mode == Dir && fs.iget(Top(fs, chain), l.name) == Some(l.node)
    requires q != "" && q[0] != '/'
    ensures Resolve(fs, Some(l.name + "/" + q), chain, budget, limit) == Resolve(fs, Some(q), chain + [l], budget, limit)
  {
    var p := l.name + "/" + q;
    ScanJoined(l.name, q);
    hide Resolve, First, After;
    ResolveName(fs, p, chain, budget, limit);
    assert Link(l.name, l.node) == l;
  }

  lemma {:induction false} JoinThen(fs: Fs, chain: seq<Link>, i: nat, q: string, budget: nat, limit: int)
    requires Linked(fs, chain) && DirTop(chain) && i < |chain| && q != "" && q[0] != '/'
    ensures Join(chain, i) != "" && Join(chain, i)[0] != '/'
    ensures Resolve(fs, Some(Join(chain, i) + "/" + q), chain[..i], budget, limit) == Resolve(fs, Some(q), chain, budget, limit)
    decreases |chain| - i
  {
    hide Resolve, First, After, Linked;
    assert LinkedAt(fs, chain, i) by { LinkAt(fs, chain, i); }
    assert chain[..i + 1] == chain[..i] + [chain[i]];
    var n := chain[i].name;
    if i + 1 < |chain| {
      JoinThen(fs, chain, i + 1, q, budget, limit);
      var t := Join(chain, i + 1) + "/" + q;
      assert Join(chain, i) + "/" + q == n + "/" + t;
      NameThen(fs, chain[..i], chain[i], t, budget, limit);
    } else {
      assert n + "" == n;
      NameThen(fs, chain[..i], chain[i], q, budget, limit);
      assert chain[..i + 1] == chain;
    }
  }

  lemma LinkAt(fs: Fs, chain: seq<Link>, i: nat)
    requires Linked(fs, chain) && i < |chain|
    ensures LinkedAt(fs, chain, i)
  {
  }

  /** A leading slash starts over at the root. */
  lemma RootThen(fs: Fs, q: string, start: seq<Link>, budget: nat, limit: int)
    requires q != "" && q[0] != '/'
    ensures Resolve(fs, Some("/" + q), start, budget, limit) == Resolve(fs, Some(q), [], budget, limit)
    ensures Resolve(fs, Some("//" + q), start, budget, limit) == Resolve(fs, Some(q), [], budget, limit)
  {
    assert ("/" + q)[1..] == q && SkipSlashes(q) == q;
    assert ("//" + q)[1..] == "/" + q && SkipSlashes("/" + q) == SkipSlashes(q);
  }

  /** A path behind the absolute path of a directory means what it means when asked from there. */
  lemma PathThen(fs: Fs, chain: seq<Link>, q: string, start: seq<Link>, budget: nat, limit: int)
    requires Linked(fs, chain) && DirTop(chain) && q != "" && q[0] != '/'
    ensures Resolve(fs, Some(AbsPath(chain) + "/" + q), start, budget, limit) == Resolve(fs, Some(q), chain, budget, limit)
  {
    hide Resolve, Linked, PathOf, Join;
    if chain == [] {
      assert AbsPath(chain) + "/" + q == "//" + q;
      RootThen(fs, q, start, budget, limit);
    } else {
      PathJoin(chain, 0);
      NoPath(chain[..0]);
      JoinThen(fs, chain, 0, q, budget, limit);
      var t := Join(chain, 0) + "/" + q;
      assert AbsPath(chain) + "/" + q == "/" + t;
      RootThen(fs, t, start, budget, limit);
      assert chain[..0] == [];
    }
  }

  lemma NoPath(chain: seq<Link>)
    requires chain == []
    ensures PathOf(chain) == ""
  {
  }

  /** Two dots lead from a directory to the one it lies in, and one dot to itself. */
  lemma DotsFound(fs: Fs, chain: seq<Link>, l: Link, start: seq<Link>, budget: nat, limit: int)
    requires Linked(fs, chain + [l]) && l.node.mode == Dir
    ensures Resolve(fs, Some(".."), chain + [l], budget, limit) == Some(chain)
    ensures Resolve(fs, Some(AbsPath(chain + [l]) + "/.."), start, budget, limit) == Some(chain)
    ensures Resolve(fs, Some("."), chain + [l], budget, limit) == Some(chain + [l])
    ensures Resolve(fs, Some(AbsPath(chain + [l]) + "/."), start, budget, limit) == Some(chain + [l])
  {
    ScanDots();
    assert Up(chain + [l]) == chain;
    var p := AbsPath(chain + [l]);
    assert p + "/" + ".." == p + "/.." && p + "/" + "." == p + "/.";
    PathThen(fs, chain + [l], "..", start, budget, limit);
    PathThen(fs, chain + [l], ".", start, budget, limit);
  }

  /** At the root both stay there. */
  lemma DotsAtRoot(fs: Fs, start: seq<Link>, budget: nat, limit: int)
    ensures Resolve(fs, Some(".."), [], budget, limit) == Some([]) == Resolve(fs, Some("."), [], budget, limit)
    ensures Resolve(fs, Some("/.."), start, budget, limit) == Some([]) == Resolve(fs, Some("/."), start, budget, limit)
  {
    ScanDots();
    assert "/.."[1..] == ".." && "/."[1..] == ".";
    assert SkipSlashes("..") == ".." && SkipSlashes(".") == ".";
  }

  /** The path of `to` is that of `from` without its last component; the root stays. */
  predicate GoneUp(from: seq<Link>, to: seq<Link>) {
    if from == [] then to == [] else PathOf(from) == PathOf(to) + "/" + from[|from| - 1].name && |to| == |from| - 1
  }

  lemma UpFound(fs: Fs, chain: seq<Link>, budget: nat, limit: int)
    ensures Resolve(fs, Some(".."), chain, budget, limit).Some?
    ensures GoneUp(chain, Resolve(fs, Some(".."), chain, budget, limit).value)
  {
    ScanDots();
  }

  lemma ScanDots()
    ensures First("..") == ".." && After("..") == None && First(".") == "." && After(".") == None
  {
    NameEndOf("..", 1, 2);
    NameEndOf(".", 1, 1);
    assert ".."[..2] == ".." && "."[..1] == ".";
  }

  /** Two dots in front of a path: the rest is asked from one directory up. */
  lemma DotsThen(fs: Fs, chain: seq<Link>, q: string, budget: nat, limit: int)
    requires q != "" && q[0] != '/'
    ensures Resolve(fs, Some("../" + q), chain, budget, limit) == Resolve(fs, Some(q), Up(chain), budget, limit)
  {
    var t := "../" + q;
    NameEndOf(t, 1, 2);
    assert t[..2] == ".." && t[3..] == q && SkipSlashes(q) == q;
  }

  /** Going into a directory and out again changes nothing. */
  lemma ParentCancels(fs: Fs, chain: seq<Link>, n: string, node: Node, q: string, budget: nat, limit: int)
    requires ProperName(n) && fs.iget(Top(fs, chain), n) == Some(node) && node.mode == Dir && q != "" && q[0] != '/'
    ensures Resolve(fs, Some(n + "/../" + q), chain, budget, limit) == Resolve(fs, Some(q), chain, budget, limit)
  {
    hide Resolve, First, After, ProperName;
    var t, l := "../" + q, Link(n, node);
    assert n + "/../" + q == n + "/" + t;
    NameThen(fs, chain, l, t, budget, limit);
    DotsThen(fs, chain + [l], q, budget, limit);
    assert Up(chain + [l]) == chain;
  }

  /** A symlink means its target, asked from the directory it lies in. */
  lemma SymlinkFound(fs: Fs, chain: seq<Link>, n: string, node: Node, budget: nat, limit: int)
    requires ProperName(n) && fs.iget(Top(fs, chain), n) == Some(node) && node.mode == Lnk && node.size == |node.target|
    requires fs.hasReadlink && node.target != "" && budget > 0
    ensures Resolve(fs, Some(n), chain, budget, limit)
         == if budget > 1 && |node.target| + 1 <= limit then Resolve(fs, Some(node.target), chain, budget - 1, limit) else None
  {
    ScanJoined(n, "");
  }

  /** The buffer for a spliced path has room for exactly that path and a final zero. */
  lemma SpliceFits(node: Node, rest: Option<string>)
    requires node.size == |node.target| && node.target != ""
    ensures SpliceLen(node, rest) == |Splice(node.target, rest)| + 1
  {
  }

  // ---------- how many symlinks

  /** A directory in which `n` links, each named by a number of letters, lead one to the next and the last to a file. */
  function Ladder(n: nat): Fs {
    Fs(Node(1, Dir, 0, ""), (d: Node, name: string) => if |name| > n then None else Some(Rung(|name|)), true)
  }

  function Rung(k: nat): Node {
    if k <= 1 then Node(2, Reg, 0, "") else Node(2, Lnk, k - 1, seq(k - 1, _ => 'a'))
  }

  /** A ladder of symlinks is climbed down if and only if fewer links than the budget are on it. */
  lemma {:induction false} LadderExact(n: nat, k: nat, budget: nat, limit: int)
    requires 1 <= k <= n && limit > n && budget > 0
    ensures Resolve(Ladder(n), Some(seq(k, _ => 'a')), [], budget, limit).Some? <==> k - 1 < budget
    decreases k
  {
    var name := seq(k, _ => 'a');
    assert name[0] == 'a' && "."[0] == '.' && ".."[0] == '.';
    ScanJoined(name, "");
    if k > 1 && budget > 1 {
      LadderExact(n, k - 1, budget - 1, limit);
    }
  }

  /** With the limit of 20 a path may lead over 19 symlinks and no more. */
  lemma NineteenSymlinks(k: nat)
    requires 1 <= k < MAX_SYMLINK_BUF
    ensures Resolve(Ladder(k), Some(seq(k, _ => 'a')), [], MAX_SYMLINK_CNT, MAX_SYMLINK_BUF).Some? <==> k - 1 <= 19
  {
    LadderExact(k, k, MAX_SYMLINK_CNT, MAX_SYMLINK_BUF);
  }

  /** `realpath` of a `realpath` is the same path, asked from anywhere. */
  lemma RealpathStable(fs: Fs, path: string, cwd: seq<Link>, elsewhere: seq<Link>)
    requires path != "" && Linked(fs, cwd) && DirTop(cwd)
    requires Resolve(fs, Some(path), cwd, MAX_SYMLINK_CNT, MAX_SYMLINK_BUF).Some?
    ensures var r := Resolve(fs, Some(path), cwd, MAX_SYMLINK_CNT, MAX_SYMLINK_BUF);
            Resolve(fs, Some(AbsPath(r.value)), elsewhere, MAX_SYMLINK_CNT, MAX_SYMLINK_BUF) == r
  {
    ResolveLinked(fs, Some(path), cwd, MAX_SYMLINK_CNT, MAX_SYMLINK_BUF);
    PathFound(fs, Resolve(fs, Some(path), cwd, MAX_SYMLINK_CNT, MAX_SYMLINK_BUF).value, elsewhere, MAX_SYMLINK_CNT, MAX_SYMLINK_BUF);
  }
}
