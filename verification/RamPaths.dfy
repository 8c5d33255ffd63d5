/**
 The RAM file system's node table, its path parser, and what a path means: a walk over the tree of
 nodes, one component at a time.
 */
module RamPaths {

  const MAX_NODES: nat := 64

  /** Longest name and longest path, without the terminating zero. */
  const NAME_CHARS: nat := 31

  const PATH_CHARS: nat := 127

  const MAX_DEPTH: nat := 8

  const ERR_NOT_FOUND: int := -1

  const ERR_INVALID: int := -4

  datatype Node = Node(used: bool, isDir: bool, name: string, parent: nat)

  ghost predicate Closed(nodes: seq<Node>) {
    |nodes| == MAX_NODES && forall i :: 0 <= i < MAX_NODES ==> nodes[i].parent < MAX_NODES
  }

  // --------------------------------------------------------------------- parsing

  function Clip(s: string, n: nat): (r: string)
    ensures |r| <= n && (|s| <= n ==> r == s)
  {
    if |s| <= n then s else s[..n]
  }

  predicate NoSlash(s: string) {
    forall k :: 0 <= k < |s| ==> s[k] != '/'
  }

  /** Position of the first slash, or the length. */
  function FirstSlash(s: string): (k: nat)
    ensures k <= |s|
  {
    if s == "" || s[0] == '/' then 0 else 1 + FirstSlash(s[1..])
  }

  /** Position of the last slash before n, or -1. */
  function SlashBefore(s: string, n: nat): (k: int)
    requires n <= |s|
    ensures -1 <= k < n && (k >= 0 ==> s[k] == '/') && forall j :: k < j < n ==> s[j] != '/'
  {
    if n == 0 then -1 else if s[n - 1] == '/' then n - 1 else SlashBefore(s, n - 1)
  }

  /** Position of the last slash, or -1. */
  function LastSlash(s: string): (k: int)
    ensures -1 <= k < |s|
  {
    SlashBefore(s, |s|)
  }

  /** What follows the first component. */
  function Rest(s: string): (r: string)
    requires s != ""
    ensures |r| < |s|
  {
    var k := FirstSlash(s);
    if k < |s| then s[k + 1..] else ""
  }

  lemma {:induction false} FirstSlashSplits(s: string)
    ensures var k := FirstSlash(s); NoSlash(s[..k]) && (k < |s| ==> s[k] == '/')
  {
    if s != "" && s[0] != '/' {
      FirstSlashSplits(s[1..]);
      var k := FirstSlash(s[1..]);
      assert s[..k + 1] == [s[0]] + s[1..][..k];
    }
  }

  lemma {:induction false} FirstSlashIs(s: string, k: nat)
    requires k <= |s| && NoSlash(s[..k]) && (k < |s| ==> s[k] == '/')
    ensures FirstSlash(s) == k
  {
    if k > 0 {
      assert s[..k][0] == s[0];
      assert s[1..][..k - 1] == s[..k][1..];
      FirstSlashIs(s[1..], k - 1);
    }
  }

  lemma LastSlashSplits(s: string)
    ensures var k := LastSlash(s); NoSlash(s[k + 1..]) && (k >= 0 ==> s[k] == '/')
  {
  }

  // --------------------------------------------------------------------- walking

  /** The first used node at or after i that lies in directory d under the name, or -1. */
  function FindFrom(nodes: seq<Node>, d: nat, name: string, i: nat): (r: int)
    requires i <= |nodes|
    ensures -1 <= r < |nodes|
    ensures r >= 0 ==> i <= r && nodes[r].used && nodes[r].parent == d && nodes[r].name == name
    ensures r < 0 ==> forall k :: i <= k < |nodes| ==> !(nodes[k].used && nodes[k].parent == d && nodes[k].name == name)
    decreases |nodes| - i
  {
    if i == |nodes| then -1
    else if nodes[i].used && nodes[i].parent == d && nodes[i].name == name then i
    else FindFrom(nodes, d, name, i + 1)
  }

  function FindIn(nodes: seq<Node>, d: nat, name: string): (r: int) {
    FindFrom(nodes, d, name, 0)
  }

  /** One component of the directory part, starting in directory cur. */
  function Step(nodes: seq<Node>, cur: nat, c: string): (r: int)
    requires |nodes| == MAX_NODES && cur < MAX_NODES
  {
    if c == "" || c == "." then cur
    else if c == ".." then (if cur != 0 then nodes[cur].parent else cur)
    else
      var i := FindIn(nodes, cur, c);
      if i < 0 || !nodes[i].isDir then ERR_NOT_FOUND else i
  }

  /** All the components of a directory part; a component is clipped to 31 characters. */
  ghost function Walk(nodes: seq<Node>, cur: int, s: string): (r: int)
    requires Closed(nodes) && -1 <= cur < MAX_NODES
    ensures -1 <= r < MAX_NODES
    decreases |s|
  {
    if cur < 0 then ERR_NOT_FOUND
    else if s == "" then cur
    else Walk(nodes, Step(nodes, cur, Clip(s[..FirstSlash(s)], NAME_CHARS)), Rest(s))
  }

  /** Walking a joined path is walking its parts in turn. */
  lemma {:induction false} WalkJoined(nodes: seq<Node>, cur: int, s: string, t: string)
    requires Closed(nodes) && -1 <= cur < MAX_NODES
    ensures Walk(nodes, cur, s + "/" + t) == Walk(nodes, Walk(nodes, cur, s), t)
    decreases |s|
  {
    var st := s + "/" + t;
    var k := FirstSlash(s);
    FirstSlashSplits(s);
    assert st[..k] == s[..k];
    FirstSlashIs(st, k);
    if k == |s| {
      assert Rest(st) == t;
      if s != "" && cur >= 0 {
        var next := Step(nodes, cur, Clip(s, NAME_CHARS));
        assert s[..k] == s && Rest(s) == "";
        assert Walk(nodes, cur, s) == Walk(nodes, next, "");
      }
    } else if cur >= 0 {
      assert Rest(st) == Rest(s) + "/" + t;
      WalkJoined(nodes, Step(nodes, cur, Clip(s[..k], NAME_CHARS)), Rest(s), t);
    }
  }

  // ------------------------------------------------------------------- resolving

  /** A path taken apart: from the root or not, the directory part and the last name. */
  datatype Parts = Parts(absolute: bool, dir: string, base: string)

  /** The part of a path that fits the path buffer, without a leading slash. */
  function Tail(path: string): string {
    var buf := Clip(path, PATH_CHARS);
    if buf != "" && buf[0] == '/' then buf[1..] else buf
  }

  /** resolve_path on the text: clipped to the path buffer, split at its last slash, the name clipped too. */
  function Parse(path: string): (q: Parts)
    requires path != ""
    ensures |q.base| <= NAME_CHARS
  {
    var p := Tail(path);
    var k := LastSlash(p);
    Parts(path[0] == '/', if k < 0 then "" else p[..k], Clip(p[k + 1..], NAME_CHARS))
  }

  lemma ClipNoSlash(s: string, n: nat)
    requires NoSlash(s)
    ensures NoSlash(Clip(s, n))
  {
  }

  lemma ParsedBase(path: string)
    requires path != ""
    ensures NoSlash(Parse(path).base)
  {
    var p := Tail(path);
    LastSlashSplits(p);
    ClipNoSlash(p[LastSlash(p) + 1..], NAME_CHARS);
  }

  datatype Place = Failed(code: int) | Within(parent: nat, base: string)

  ghost function Locate(nodes: seq<Node>, cwd: nat, q: Parts): (r: Place)
    requires Closed(nodes) && cwd < MAX_NODES
    ensures r.Within? ==> r.parent < MAX_NODES && r.base == q.base
  {
    var dir := Walk(nodes, if q.absolute then 0 else cwd, q.dir);
    if dir < 0 then Failed(ERR_NOT_FOUND) else Within(dir, q.base)
  }

  /** The directory a path lies in, and the name it has there. */
  ghost function ResolvePath(nodes: seq<Node>, cwd: nat, path: string): (r: Place)
    requires Closed(nodes) && cwd < MAX_NODES
    ensures r.Within? ==> path != "" && r.parent < MAX_NODES && r.base == Parse(path).base
  {
    if path == "" then Failed(ERR_INVALID) else Locate(nodes, cwd, Parse(path))
  }

  /** The node a path names, or a negative code. */
  ghost function ResolveFull(nodes: seq<Node>, cwd: nat, path: string): (r: int)
    requires Closed(nodes) && cwd < MAX_NODES
    ensures r < MAX_NODES
  {
    if path == "/" then 0
    else
      match ResolvePath(nodes, cwd, path)
      case Failed(code) => code
      case Within(parent, base) =>
        if base == "" || base == "." then parent
        else if base == ".." then (if parent == 0 then 0 else nodes[parent].parent)
        else FindIn(nodes, parent, base)
  }

  // ----------------------------------------------------------------------- trees

  predicate IsDot(name: string) { name == "." || name == ".." }

  /** A node's name fits and holds no slash. */
  predicate GoodName(name: string) { 0 < |name| <= NAME_CHARS && NoSlash(name) }

  /**
   A used node other than the root lies one deeper than its parent, a used directory that is not named
   "." or "..".
   */
  ghost predicate Placed(nodes: seq<Node>, depth: seq<nat>, i: nat)
    requires Closed(nodes) && |depth| == MAX_NODES && i < MAX_NODES
  {
    var p := nodes[nodes[i].parent];
    GoodName(nodes[i].name) && p.used && p.isDir && !IsDot(p.name) && depth[i] == depth[nodes[i].parent] + 1
  }

  ghost predicate Siblings(nodes: seq<Node>, i: nat, j: nat)
    requires |nodes| == MAX_NODES && i < MAX_NODES && j < MAX_NODES
  {
    nodes[i].parent == nodes[j].parent && nodes[i].name == nodes[j].name
  }

  /** The used nodes are a tree rooted at 0, with unique sibling names. */
  ghost predicate Tree(nodes: seq<Node>, depth: seq<nat>) {
    && Closed(nodes) && |depth| == MAX_NODES
    && nodes[0] == Node(true, true, "/", 0) && depth[0] == 0
    && (forall i {:trigger Placed(nodes, depth, i)} :: 0 < i < MAX_NODES && nodes[i].used ==> Placed(nodes, depth, i))
    && (forall i, j {:trigger Siblings(nodes, i, j)} ::
          0 < i < j < MAX_NODES && nodes[i].used && nodes[j].used ==> !Siblings(nodes, i, j))
  }

  /** A directory that can be walked to. */
  ghost predicate Reachable(nodes: seq<Node>, i: int) {
    |nodes| == MAX_NODES && 0 <= i < MAX_NODES && nodes[i].used && nodes[i].isDir && !IsDot(nodes[i].name)
  }

  /** Sibling names being unique, the search finds exactly the node with that place. */
  lemma FindIsUnique(nodes: seq<Node>, depth: seq<nat>, d: nat, name: string, i: nat)
    requires Tree(nodes, depth) && NoSlash(name) && 0 < i < MAX_NODES && nodes[i].used && nodes[i].parent == d
    requires nodes[i].name == name
    ensures FindIn(nodes, d, name) == i
  {
    var r := FindIn(nodes, d, name);
    assert nodes[0].name[0] == '/';
    assert Siblings(nodes, i, i) && (r > 0 ==> Siblings(nodes, r, i) && Siblings(nodes, i, r));
  }

  lemma StepReachable(nodes: seq<Node>, depth: seq<nat>, cur: nat, c: string)
    requires Tree(nodes, depth) && Reachable(nodes, cur)
    ensures Step(nodes, cur, c) == -1 || Reachable(nodes, Step(nodes, cur, c))
  {
    if cur != 0 { assert Placed(nodes, depth, cur); }
  }

  /** Nodes named "." or ".." are never walked to. */
  lemma {:induction false} WalkReachable(nodes: seq<Node>, depth: seq<nat>, cur: int, s: string)
    requires Tree(nodes, depth) && (cur == -1 || Reachable(nodes, cur))
    ensures Walk(nodes, cur, s) == -1 || Reachable(nodes, Walk(nodes, cur, s))
    decreases |s|
  {
    if cur >= 0 && s != "" {
      StepReachable(nodes, depth, cur, Clip(s[..FirstSlash(s)], NAME_CHARS));
      WalkReachable(nodes, depth, Step(nodes, cur, Clip(s[..FirstSlash(s)], NAME_CHARS)), Rest(s));
    }
  }

  // --------------------------------------------------------- printing the directory

  /** The last n names on the way down to node i, each after a slash. */
  ghost function Trail(nodes: seq<Node>, i: nat, n: nat): string
    requires Closed(nodes) && i < MAX_NODES
    decreases n, |nodes|
  {
    if i == 0 || n == 0 then "" else Trail(nodes, nodes[i].parent, n - 1) + "/" + nodes[i].name
  }

  /** The working directory as fs_change_dir prints it: at most eight names. */
  ghost function Printed(nodes: seq<Node>, i: nat): string
    requires Closed(nodes) && i < MAX_NODES
  {
    if i == 0 then "/" else Trail(nodes, i, MAX_DEPTH)
  }

  lemma TrailStart(nodes: seq<Node>, depth: seq<nat>, i: nat, n: nat)
    requires Tree(nodes, depth) && 0 < i < MAX_NODES && nodes[i].used && n > 0
    ensures Trail(nodes, i, n) != "" && Trail(nodes, i, n)[0] == '/'
    decreases n
  {
    assert Placed(nodes, depth, i);
    var p := nodes[i].parent;
    if p != 0 && n > 1 { TrailStart(nodes, depth, p, n - 1); }
  }

  /** One component that is a plain name goes one level down, to the node of that name if there is one. */
  lemma StepDown(nodes: seq<Node>, depth: seq<nat>, cur: nat, c: string)
    requires Tree(nodes, depth) && Reachable(nodes, cur) && GoodName(c) && !IsDot(c)
    ensures Step(nodes, cur, c) >= 0 ==> depth[Step(nodes, cur, c)] == depth[cur] + 1
    ensures FindIn(nodes, cur, c) >= 0 ==> depth[FindIn(nodes, cur, c)] == depth[cur] + 1
  {
    var i := FindIn(nodes, cur, c);
    assert nodes[0].name[0] == '/';
    if i > 0 { assert Placed(nodes, depth, i); }
  }

  lemma WalkOne(nodes: seq<Node>, cur: nat, c: string)
    requires Closed(nodes) && cur < MAX_NODES && GoodName(c)
    ensures Walk(nodes, cur, c) == Step(nodes, cur, c)
  {
    FirstSlashIs(c, |c|);
    assert c[..|c|] == c;
    assert Walk(nodes, Step(nodes, cur, c), "") == Step(nodes, cur, c);
  }

  /** A trail without its leading slash: the parent's, then one more name. */
  lemma TrailParts(nodes: seq<Node>, depth: seq<nat>, i: nat, n: nat)
    requires Tree(nodes, depth) && 0 < i < MAX_NODES && nodes[i].used && n > 0
    ensures var s := Trail(nodes, nodes[i].parent, n - 1);
            && Trail(nodes, i, n) != "" && (s == "" <==> nodes[i].parent == 0 || n == 1)
            && Trail(nodes, i, n)[1..] == if s == "" then nodes[i].name else s[1..] + "/" + nodes[i].name
  {
    assert Placed(nodes, depth, i);
    var p := nodes[i].parent;
    var s := Trail(nodes, p, n - 1);
    if p != 0 && n > 1 {
      TrailStart(nodes, depth, p, n - 1);
      assert (s + "/" + nodes[i].name)[1..] == s[1..] + "/" + nodes[i].name;
    } else {
      assert ("/" + nodes[i].name)[1..] == nodes[i].name;
    }
  }

  lemma WalkThenStep(nodes: seq<Node>, s: string, c: string)
    requires Closed(nodes) && GoodName(c)
    ensures var q := Walk(nodes, 0, s);
            Walk(nodes, 0, s + "/" + c) == if q < 0 then -1 else Step(nodes, q, c)
  {
    WalkJoined(nodes, 0, s, c);
    var q := Walk(nodes, 0, s);
    if q >= 0 { WalkOne(nodes, q, c); }
  }

  /** Walking n names down from the root ends n levels deep, and at node i when i is that deep. */
  lemma {:induction false} WalkTrail(nodes: seq<Node>, depth: seq<nat>, i: nat, n: nat)
    requires Tree(nodes, depth) && i != 0 && Reachable(nodes, i) && n > 0
    ensures Trail(nodes, i, n) != ""
    ensures var r := Walk(nodes, 0, Trail(nodes, i, n)[1..]);
            && (depth[i] <= n ==> r == i)
            && (depth[i] > n ==> r == -1 || (Reachable(nodes, r) && depth[r] == n))
    decreases n
  {
    TrailParts(nodes, depth, i, n);
    assert Placed(nodes, depth, i);
    var p, c := nodes[i].parent, nodes[i].name;
    var s := Trail(nodes, p, n - 1);
    assert p != 0 ==> Placed(nodes, depth, p);
    if p == 0 || n == 1 {
      WalkOne(nodes, 0, c);
      StepFrom(nodes, depth, 0, c, i);
    } else {
      WalkTrail(nodes, depth, p, n - 1);
      WalkThenStep(nodes, s[1..], c);
      var q := Walk(nodes, 0, s[1..]);
      if q >= 0 { StepFrom(nodes, depth, q, c, i); }
    }
  }

  /** A step by the name of node i, from its parent or from some other directory. */
  lemma StepFrom(nodes: seq<Node>, depth: seq<nat>, cur: nat, c: string, i: nat)
    requires Tree(nodes, depth) && Reachable(nodes, cur) && i != 0 && Reachable(nodes, i) && nodes[i].name == c
    ensures cur == nodes[i].parent ==> Step(nodes, cur, c) == i && FindIn(nodes, cur, c) == i
    ensures var r := Step(nodes, cur, c); r == -1 || (Reachable(nodes, r) && depth[r] == depth[cur] + 1)
  {
    assert Placed(nodes, depth, i);
    StepReachable(nodes, depth, cur, c);
    StepDown(nodes, depth, cur, c);
    if cur == nodes[i].parent { FindIsUnique(nodes, depth, cur, c, i); }
  }

  lemma JoinedParts(s: string, c: string)
    ensures var p := s + "/" + c; |p| == |s| + 1 + |c| && p[|s|] == '/' && p[..|s|] == s && p[|s| + 1..] == c
  {
  }

  lemma LastSlashJoined(s: string, c: string)
    requires NoSlash(c)
    ensures LastSlash(s + "/" + c) == |s|
  {
    var p := s + "/" + c;
    forall j | |s| < j < |p| ensures p[j] != '/' {
      assert p[j] == c[j - |s| - 1];
    }
    assert p[|s|] == '/';
  }

  lemma ParseTop(c: string)
    requires GoodName(c)
    ensures Parse("/" + c) == Parts(true, "", c)
  {
    var path := "/" + c;
    assert path[1..] == c && c[0..] == c;
    assert LastSlash(c) == -1;
  }

  lemma ParseBelow(path: string, s: string, c: string)
    requires 0 < |path| <= PATH_CHARS && path[0] == '/' && path[1..] == s + "/" + c && GoodName(c)
    ensures Parse(path) == Parts(true, s, c)
  {
    JoinedParts(s, c);
    LastSlashJoined(s, c);
  }

  /** A trail of at most n names resolves to its node exactly when the node is at most n levels deep. */
  lemma TrailResolves(nodes: seq<Node>, depth: seq<nat>, i: nat, n: nat, cwd: nat)
    requires Tree(nodes, depth) && Reachable(nodes, i) && i != 0 && n > 0 && cwd < MAX_NODES
    requires |Trail(nodes, i, n)| <= PATH_CHARS
    ensures ResolveFull(nodes, cwd, Trail(nodes, i, n)) == i <==> depth[i] <= n
  {
    TrailParts(nodes, depth, i, n);
    TrailStart(nodes, depth, i, n);
    assert Placed(nodes, depth, i);
    var p, c := nodes[i].parent, nodes[i].name;
    var s := Trail(nodes, p, n - 1);
    assert p != 0 ==> Placed(nodes, depth, p);
    if p == 0 || n == 1 {
      assert Trail(nodes, i, n) == "/" + c;
      ParseTop(c);
      assert Locate(nodes, cwd, Parts(true, "", c)) == Within(0, c);
      StepFrom(nodes, depth, 0, c, i);
      StepDown(nodes, depth, 0, c);
    } else {
      TrailBelow(nodes, depth, i, n, cwd);
    }
  }

  /** How a trail of several names resolves: walk down its directory part, then look for the last name. */
  lemma TrailPath(nodes: seq<Node>, depth: seq<nat>, i: nat, n: nat, cwd: nat)
    requires Tree(nodes, depth) && Reachable(nodes, i) && i != 0 && n > 1 && cwd < MAX_NODES
    requires |Trail(nodes, i, n)| <= PATH_CHARS
    requires nodes[i].parent != 0
    ensures var s := Trail(nodes, nodes[i].parent, n - 1);
            && s != ""
            && ResolveFull(nodes, cwd, Trail(nodes, i, n)) ==
               var q := Walk(nodes, 0, s[1..]); if q < 0 then -1 else FindIn(nodes, q, nodes[i].name)
  {
    assert Placed(nodes, depth, i);
    var path, s := Trail(nodes, i, n), Trail(nodes, nodes[i].parent, n - 1);
    TrailParts(nodes, depth, i, n);
    TrailStart(nodes, depth, i, n);
    ParseBelow(path, s[1..], nodes[i].name);
    ResolvePlain(nodes, cwd, path, s[1..], nodes[i].name);
  }

  lemma ResolvePlain(nodes: seq<Node>, cwd: nat, path: string, s: string, c: string)
    requires Closed(nodes) && cwd < MAX_NODES && path != "" && path != "/" && Parse(path) == Parts(true, s, c)
    requires GoodName(c) && !IsDot(c)
    ensures ResolveFull(nodes, cwd, path) == var q := Walk(nodes, 0, s); if q < 0 then -1 else FindIn(nodes, q, c)
  {
    var q := Walk(nodes, 0, s);
    assert ResolvePath(nodes, cwd, path) == if q < 0 then Failed(-1) else Within(q, c);
  }

  lemma TrailBelow(nodes: seq<Node>, depth: seq<nat>, i: nat, n: nat, cwd: nat)
    requires Tree(nodes, depth) && Reachable(nodes, i) && i != 0 && n > 1 && cwd < MAX_NODES
    requires |Trail(nodes, i, n)| <= PATH_CHARS
    requires nodes[i].parent != 0
    ensures ResolveFull(nodes, cwd, Trail(nodes, i, n)) == i <==> depth[i] <= n
  {
    assert Placed(nodes, depth, i);
    var p, c := nodes[i].parent, nodes[i].name;
    assert Placed(nodes, depth, p);
    TrailPath(nodes, depth, i, n, cwd);
    var s := Trail(nodes, p, n - 1)[1..];
    WalkTrail(nodes, depth, p, n - 1);
    var q := Walk(nodes, 0, s);
    if q >= 0 {
      StepDown(nodes, depth, q, c);
      StepFrom(nodes, depth, q, c, i);
    }
  }

  /**
   While the printed path fits in the path buffer, resolving it gives back the directory it was
   printed for exactly when that directory is at most eight levels deep, whatever the current
   directory and whatever else the tree holds.
   */
  lemma PrintedResolves(nodes: seq<Node>, depth: seq<nat>, i: nat, cwd: nat)
    requires Tree(nodes, depth) && Reachable(nodes, i) && cwd < MAX_NODES && |Printed(nodes, i)| <= PATH_CHARS
    ensures ResolveFull(nodes, cwd, Printed(nodes, i)) == i <==> depth[i] <= MAX_DEPTH
  {
    if i != 0 { TrailResolves(nodes, depth, i, MAX_DEPTH, cwd); }
  }
}
