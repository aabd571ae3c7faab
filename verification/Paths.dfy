/** Reading and writing below a node, by path. */
module Paths {
  import opened Options
  import opened FileTree

  function Lookup(n: Node, path: seq<string>): Option<Node>
    decreases |path|
  {
    if path == [] then Some(n)
    else if n.Dir? && path[0] in n.entries then Lookup(n.entries[path[0]], path[1..])
    else None
  }

  /** There is a directory above `path`. */
  predicate HasParent(n: Node, path: seq<string>) {
    path != [] ==> Lookup(n, path[..|path| - 1]).Some? && Lookup(n, path[..|path| - 1]).value.Dir?
  }

  /** `n` with `x` put at `path`, whose parent must exist. */
  function Graft(n: Node, path: seq<string>, x: Node): Node
    requires HasParent(n, path)
    decreases |path|
  {
    if path == [] then x
    else
      assert n.Dir? by { if |path| > 1 { assert path[..|path| - 1][0] == path[0]; } }
      if |path| == 1 then Dir(n.entries[path[0] := x])
      else
        assert path[..|path| - 1][1..] == path[1..][..|path[1..]| - 1];
        assert path[..|path| - 1][0] == path[0];
        Dir(n.entries[path[0] := Graft(n.entries[path[0]], path[1..], x)])
  }

  /** A path that leads to a directory has a directory above it. */
  lemma ParentExists(n: Node, path: seq<string>)
    requires path != [] && Lookup(n, path).Some?
    ensures Lookup(n, path[..|path| - 1]).Some? && Lookup(n, path[..|path| - 1]).value.Dir?
    decreases |path|
  {
    if |path| > 1 {
      ParentExists(n.entries[path[0]], path[1..]);
      assert path[..|path| - 1][1..] == path[1..][..|path[1..]| - 1];
      assert path[..|path| - 1][0] == path[0];
    }
  }

  lemma {:induction false} LookupChild(n: Node, path: seq<string>, c: string)
    requires Lookup(n, path).Some? && Lookup(n, path).value.Dir?
    ensures var e := Lookup(n, path).value.entries;
            Lookup(n, path + [c]) == if c in e then Some(e[c]) else None
    decreases |path|
  {
    if path == [] {
      assert (path + [c])[1..] == [];
    } else {
      assert (path + [c])[1..] == path[1..] + [c];
      LookupChild(n.entries[path[0]], path[1..], c);
    }
  }

  lemma {:induction false} LookupGraft(n: Node, path: seq<string>, x: Node)
    requires HasParent(n, path)
    ensures Lookup(Graft(n, path, x), path) == Some(x)
    ensures path != [] ==> Graft(n, path, x).Dir?
    decreases |path|
  {
    if |path| > 1 {
      assert path[..|path| - 1][1..] == path[1..][..|path[1..]| - 1];
      assert path[..|path| - 1][0] == path[0];
      LookupGraft(n.entries[path[0]], path[1..], x);
    }
  }

  /** Grafting a child is grafting its directory with the child put in. */
  lemma {:induction false} GraftChild(n: Node, path: seq<string>, c: string, x: Node)
    requires Lookup(n, path).Some? && Lookup(n, path).value.Dir?
    ensures (path + [c])[..|path + [c]| - 1] == path
    ensures HasParent(n, path)
    ensures Graft(n, path + [c], x) == Graft(n, path, Dir(Lookup(n, path).value.entries[c := x]))
    decreases |path|
  {
    if path != [] {
      ParentExists(n, path);
      assert (path + [c])[1..] == path[1..] + [c];
      assert path[..|path| - 1] != [] ==> path[..|path| - 1][0] == path[0];
      assert |path| > 1 ==> path[..|path| - 1][1..] == path[1..][..|path[1..]| - 1];
      GraftChild(n.entries[path[0]], path[1..], c, x);
    }
  }

  lemma {:induction false} GraftTwice(n: Node, path: seq<string>, x: Node, y: Node)
    requires HasParent(n, path)
    ensures HasParent(Graft(n, path, x), path)
    ensures Graft(Graft(n, path, x), path, y) == Graft(n, path, y)
    decreases |path|
  {
    LookupGraft(n, path, x);
    if path != [] { ParentExists(Graft(n, path, x), path); }
    if |path| > 1 {
      assert path[..|path| - 1][1..] == path[1..][..|path[1..]| - 1];
      assert path[..|path| - 1][0] == path[0];
      GraftTwice(n.entries[path[0]], path[1..], x, y);
      var m := n.entries;
      var g := Graft(n.entries[path[0]], path[1..], x);
      assert m[path[0] := g][path[0] := Graft(g, path[1..], y)] == m[path[0] := Graft(m[path[0]], path[1..], y)];
    } else if |path| == 1 {
      assert n.entries[path[0] := x][path[0] := y] == n.entries[path[0] := y];
    }
  }
}
