/**
 Path strings: the pieces between slashes, and one step of the path scanner of `searchdir`.
 */
module PathNames {

  import opened Options

  /** One component of a path: a leading slash, or a name. */
  datatype Comp = RootComp | Name(name: string)

  // ---------- reference: the components of a path

  /** Index of the first slash from `i` on, or the length. */
  function NameEnd(path: string, i: nat): (e: nat)
    requires i <= |path|
    ensures i <= e <= |path| && (e < |path| ==> path[e] == '/')
    ensures forall k :: i <= k < e ==> path[k] != '/'
    decreases |path| - i
  {
    if i < |path| && path[i] != '/' then NameEnd(path, i + 1) else i
  }

  /** The non-empty pieces between slashes. */
  function Pieces(path: string): seq<Comp>
    decreases |path|
  {
    if path == "" then []
    else if path[0] == '/' then Pieces(path[1..])
    else
      var e := NameEnd(path, 0);
      [Name(path[..e])] + Pieces(path[e..])
  }

  function Comps(path: string): seq<Comp> {
    if path != "" && path[0] == '/' then [RootComp] + Pieces(path) else Pieces(path)
  }

  // ---------- the scanner

  function SkipSlashes(path: string): (r: string)
    ensures r == "" || r[0] != '/'
    ensures |r| <= |path|
  {
    if path != "" && path[0] == '/' then SkipSlashes(path[1..]) else path
  }

  /** What is left to look up; never empty and never starting with a slash. */
  function Rest(path: string): (r: Option<string>)
    ensures r.Some? ==> 0 < |r.value| <= |path| && r.value[0] != '/'
  {
    var s := SkipSlashes(path);
    if s == "" then None else Some(s)
  }

  /** The first component as `searchdir` cuts it off: "/" for a leading slash (fs.c:246-265). */
  function First(path: string): (c: string)
    requires path != ""
    ensures c != ""
  {
    if path[0] == '/' then "/" else path[..NameEnd(path, 1)]
  }

  function After(path: string): (r: Option<string>)
    requires path != ""
    ensures r.Some? ==> 0 < |r.value| < |path| && r.value[0] != '/'
  {
    if path[0] == '/' then Rest(path[1..])
    else
      var e := NameEnd(path, 1);
      if e < |path| then Rest(path[e + 1..]) else None
  }

  function CompOf(c: string): Comp {
    if c == "/" then RootComp else Name(c)
  }

  function CompsOf(rest: Option<string>): seq<Comp> {
    if rest.None? then [] else Comps(rest.value)
  }

  lemma {:induction false} PiecesSkip(path: string)
    ensures Pieces(SkipSlashes(path)) == Pieces(path)
    decreases |path|
  {
    if path != "" && path[0] == '/' {
      PiecesSkip(path[1..]);
    }
  }

  lemma {:induction false} NameEndOf(path: string, i: nat, e: nat)
    requires i <= e <= |path| && (e < |path| ==> path[e] == '/')
    requires forall k :: i <= k < e ==> path[k] != '/'
    ensures NameEnd(path, i) == e
    decreases e - i
  {
    if i < e {
      NameEndOf(path, i + 1, e);
    }
  }

  /** The scanner cuts a path into exactly its components. */
  lemma ScannerComps(path: string)
    requires path != ""
    ensures Comps(path) == [CompOf(First(path))] + CompsOf(After(path))
  {
    if path[0] == '/' {
      RestComps(path[1..]);
    } else {
      var e := NameEnd(path, 1);
      NameEndOf(path, 0, e);
      if e < |path| {
        RestComps(path[e + 1..]);
        assert path[e..][0] == '/' && path[e..][1..] == path[e + 1..];
      } else {
        assert path[e..] == "";
      }
      assert path[..e][0] != '/' && path[..e] != "/";
      assert Pieces(path) == [Name(path[..e])] + Pieces(path[e..]);
      assert CompsOf(After(path)) == Pieces(path[e..]);
    }
  }

  lemma RestComps(path: string)
    ensures CompsOf(Rest(path)) == Pieces(path)
  {
    PiecesSkip(path);
  }

  /** A spliced symlink path has the components of the target and then those of the rest. */
  lemma SpliceComps(target: string, rest: string)
    requires target != "" && rest != "" && rest[0] != '/'
    ensures Comps(target + "/" + rest) == Comps(target) + Comps(rest)
  {
    PiecesJoin(target, rest);
    var s := target + "/" + rest;
    assert s != "" && s[0] == target[0];
    assert Comps(rest) == Pieces(rest);
    if target[0] == '/' {
      assert Comps(s) == [RootComp] + (Pieces(target) + Pieces(rest));
    }
  }

  lemma {:induction false} PiecesJoin(a: string, b: string)
    ensures Pieces(a + "/" + b) == Pieces(a) + Pieces(b)
    decreases |a|
  {
    var s := a + "/" + b;
    if a == "" {
      assert s[0] == '/' && s[1..] == b;
    } else if a[0] == '/' {
      assert s[1..] == a[1..] + "/" + b;
      PiecesJoin(a[1..], b);
    } else {
      var e := NameEnd(a, 0);
      NameEndOf(s, 0, e);
      assert s[..e] == a[..e] && s[e..] == a[e..] + "/" + b;
      PiecesJoin(a[e..], b);
    }
  }

  // ---------- the code

  /** Lines 244-265 of fs.c: cut off the first component and find the rest. */
  method NextName(path: string) returns (name: string, rest: Option<string>)
    requires path != ""
    ensures name == First(path) && rest == After(path)
  {
    var next;
    if path[0] == '/' {
      next := 1;
      name := "/";
    } else {
      // strchr(inode_name + 1, '/')
      var e := 1;
      while e < |path| && path[e] != '/'
        invariant 1 <= e <= |path| && NameEnd(path, 1) == NameEnd(path, e)
      {
        e := e + 1;
      }
      name := path[..e];
      if e == |path| {
        return name, None;
      }
      next := e + 1;
    }
    ghost var start := next;
    while next < |path| && path[next] == '/'
      invariant start <= next <= |path| && SkipSlashes(path[start..]) == SkipSlashes(path[next..])
    {
      assert path[next..][1..] == path[next + 1..];
      next := next + 1;
    }
    rest := if next == |path| then None else Some(path[next..]);
  }
}
