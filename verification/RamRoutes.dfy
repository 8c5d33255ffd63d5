/**
 What a path means, without a parser or a search: a route through the tree, one stop for each
 component. resolve_full_path finds exactly the node at the end of the route.
 */
module RamRoutes {
  import opened RamPaths
  import opened RamTree

  /** The text between the slashes, each piece clipped to the longest name. */
  function Components(s: string): (cs: seq<string>)
    ensures |cs| > 0
    decreases |s|
  {
    var k := FirstSlash(s);
    [Clip(s[..k], NAME_CHARS)] + if k < |s| then Components(s[k + 1..]) else []
  }

  /** One component leads from directory a to node b: nowhere, one level up, or to the entry of that name. */
  ghost predicate Leads(nodes: seq<Node>, a: nat, c: string, b: nat) {
    && a < |nodes| && b < |nodes|
    && if c == "" || c == "." then b == a
       else if c == ".." then b == nodes[a].parent
       else nodes[b].used && nodes[b].parent == a && nodes[b].name == c
  }

  /** The stops of a route: each component leads to the next stop, and all stops but the last are directories. */
  ghost predicate Route(nodes: seq<Node>, cs: seq<string>, stops: seq<nat>) {
    && |stops| == |cs| + 1 && (forall k :: 0 <= k < |stops| ==> stops[k] < |nodes|)
    && (forall k :: 0 <= k < |cs| ==> Leads(nodes, stops[k], cs[k], stops[k + 1]))
    && forall k :: 0 <= k < |cs| ==> nodes[stops[k]].isDir
  }

  ghost predicate RouteTo(nodes: seq<Node>, a: nat, cs: seq<string>, b: int) {
    exists stops :: Route(nodes, cs, stops) && stops[0] == a && stops[|cs|] == b
  }

  // ------------------------------------------------------------------- components

  /** The last component is what follows the last slash. */
  lemma {:induction false} ComponentsJoined(s: string, c: string)
    ensures Components(s + "/" + c) == Components(s) + Components(c)
    decreases |s|
  {
    var st := s + "/" + c;
    var k := FirstSlash(s);
    FirstSlashSplits(s);
    assert st[..k] == s[..k];
    FirstSlashIs(st, k);
    if k == |s| {
      assert st[k + 1..] == c && s[..k] == s;
    } else {
      assert st[k + 1..] == s[k + 1..] + "/" + c;
      ComponentsJoined(s[k + 1..], c);
    }
  }

  lemma OneComponent(c: string)
    requires NoSlash(c)
    ensures Components(c) == [Clip(c, NAME_CHARS)]
  {
    FirstSlashIs(c, |c|);
    assert c[..|c|] == c;
  }

  ghost predicate EndsWith(cs: seq<string>, front: seq<string>, last: string) {
    cs == front + [last]
  }

  lemma SplitAtLast(p: string, k: int)
    requires k == LastSlash(p) >= 0
    ensures EndsWith(Components(p), Components(p[..k]), Clip(p[k + 1..], NAME_CHARS))
  {
    LastSlashSplits(p);
    OneComponent(p[k + 1..]);
    assert p == p[..k] + "/" + p[k + 1..];
    ComponentsJoined(p[..k], p[k + 1..]);
  }

  lemma NoSplit(p: string)
    requires LastSlash(p) < 0
    ensures EndsWith(Components(p), [], Clip(p, NAME_CHARS))
  {
    LastSlashSplits(p);
    assert p[0..] == p;
    OneComponent(p);
  }

  /** The components of a path. */
  function Names(path: string): seq<string> {
    Components(Tail(path))
  }

  /** The pieces resolve_path works with are those components. */
  lemma PartsAreComponents(path: string)
    requires path != ""
    ensures MakeUp(Parse(path).dir, Parse(path).base, Names(path))
  {
    var p := Tail(path);
    if LastSlash(p) < 0 {
      NoSplit(p);
      assert p[0..] == p;
    } else {
      SplitAtLast(p, LastSlash(p));
    }
  }

  // ----------------------------------------------------------------------- routes

  /** From a directory that can be walked to, a step arrives where the component leads, if that is a directory. */
  lemma StepLeads(nodes: seq<Node>, depth: seq<nat>, a: nat, c: string, b: nat)
    requires Tree(nodes, depth) && Reachable(nodes, a) && NoSlash(c)
    ensures Step(nodes, a, c) == b <==> Leads(nodes, a, c, b) && nodes[b].isDir
  {
    if a != 0 { assert Placed(nodes, depth, a); }
    if c != "" && !IsDot(c) && Leads(nodes, a, c, b) { NamedIsFound(nodes, depth, a, c, b); }
  }

  lemma NamedIsFound(nodes: seq<Node>, depth: seq<nat>, a: nat, c: string, b: nat)
    requires Tree(nodes, depth) && NoSlash(c) && b < MAX_NODES
    requires nodes[b].used && nodes[b].parent == a && nodes[b].name == c
    ensures FindIn(nodes, a, c) == b
  {
    assert nodes[0].name[0] == '/';
    FindIsUnique(nodes, depth, a, c, b);
  }

  /** A walk that arrives takes a route. */
  lemma {:induction false} WalkIsRoute(nodes: seq<Node>, depth: seq<nat>, a: nat, s: string) returns (stops: seq<nat>)
    requires Tree(nodes, depth) && Reachable(nodes, a) && Walk(nodes, a, s) >= 0
    ensures Route(nodes, Components(s), stops) && stops[0] == a && stops[|stops| - 1] == Walk(nodes, a, s)
    decreases |s|
  {
    var k := FirstSlash(s);
    var c := Clip(s[..k], NAME_CHARS);
    FirstSlashSplits(s);
    ClipNoSlash(s[..k], NAME_CHARS);
    if s == "" {
      return [a, a];
    }
    var b := Step(nodes, a, c);
    assert b >= 0;
    StepLeads(nodes, depth, a, c, b);
    StepReachable(nodes, depth, a, c);
    if k == |s| {
      assert Walk(nodes, a, s) == Walk(nodes, b, "");
      return [a, b];
    }
    var more := WalkIsRoute(nodes, depth, b, s[k + 1..]);
    stops := [a] + more;
    RouteCons(nodes, a, c, Components(s[k + 1..]), more);
  }

  lemma RouteCons(nodes: seq<Node>, a: nat, c: string, cs: seq<string>, stops: seq<nat>)
    requires Route(nodes, cs, stops) && a < |nodes| && nodes[a].isDir && Leads(nodes, a, c, stops[0])
    ensures Route(nodes, [c] + cs, [a] + stops)
  {
    var cs', stops' := [c] + cs, [a] + stops;
    forall k | 0 <= k < |cs'| ensures Leads(nodes, stops'[k], cs'[k], stops'[k + 1]) && nodes[stops'[k]].isDir {
      if k > 0 { assert stops'[k] == stops[k - 1] && cs'[k] == cs[k - 1] && stops'[k + 1] == stops[k]; }
    }
  }

  /** A route over directories is the walk. */
  lemma {:induction false} RouteIsWalk(nodes: seq<Node>, depth: seq<nat>, s: string, stops: seq<nat>)
    requires Tree(nodes, depth) && Route(nodes, Components(s), stops)
    requires Reachable(nodes, stops[0]) && nodes[stops[|stops| - 1]].isDir
    ensures Walk(nodes, stops[0], s) == stops[|stops| - 1]
    decreases |s|
  {
    var k := FirstSlash(s);
    var a, b, c := stops[0], stops[1], Clip(s[..k], NAME_CHARS);
    FirstSlashSplits(s);
    ClipNoSlash(s[..k], NAME_CHARS);
    var cs := Components(s);
    assert cs[0] == c && Leads(nodes, a, cs[0], b);
    if k < |s| { assert nodes[stops[1]].isDir; }
    StepLeads(nodes, depth, a, c, b);
    StepReachable(nodes, depth, a, c);
    if k < |s| {
      var rest, more := s[k + 1..], stops[1..];
      assert cs[1..] == Components(rest);
      forall j | 0 <= j < |cs| - 1
        ensures Leads(nodes, more[j], Components(rest)[j], more[j + 1]) && nodes[more[j]].isDir
      {
        assert Leads(nodes, stops[j + 1], cs[j + 1], stops[j + 2]);
      }
      assert Route(nodes, Components(rest), more);
      RouteIsWalk(nodes, depth, rest, more);
      assert Walk(nodes, a, s) == Walk(nodes, b, rest);
    } else if s != "" {
      assert Walk(nodes, a, s) == Walk(nodes, b, "");
    }
  }

  // -------------------------------------------------------------------- resolving

  /** Where the route of a path starts: at the root or in the current directory. */
  function Start(cwd: nat, path: string): nat {
    if path != "" && path[0] == '/' then 0 else cwd
  }

  /** Where a last name leads from directory d, or -1. */
  function LastName(nodes: seq<Node>, d: nat, c: string): int
    requires d < |nodes|
  {
    if c == "" || c == "." then d else if c == ".." then nodes[d].parent else FindIn(nodes, d, c)
  }

  lemma LastLeg(nodes: seq<Node>, depth: seq<nat>, d: nat, c: string, i: nat)
    requires Tree(nodes, depth) && Reachable(nodes, d) && NoSlash(c) && i < MAX_NODES
    ensures Leads(nodes, d, c, i) <==> i == LastName(nodes, d, c)
  {
    if c != "" && !IsDot(c) && Leads(nodes, d, c, i) { NamedIsFound(nodes, depth, d, c, i); }
  }

  /** The node a directory part and a last name lead to from directory a, or -1. */
  ghost function Target(nodes: seq<Node>, a: nat, dir: string, base: string): int
    requires Closed(nodes) && a < MAX_NODES
  {
    var d := Walk(nodes, a, dir);
    if d < 0 then -1 else LastName(nodes, d, base)
  }

  lemma RootByParts(nodes: seq<Node>, cwd: nat)
    requires Closed(nodes) && cwd < MAX_NODES
    ensures ResolveFull(nodes, cwd, "/") == Target(nodes, 0, Parse("/").dir, Parse("/").base)
  {
    assert "/"[1..] == "" && LastSlash("") == -1;
    assert Walk(nodes, 0, "") == 0;
  }

  lemma ResolveByParts(nodes: seq<Node>, cwd: nat, path: string)
    requires Closed(nodes) && cwd < MAX_NODES && path != "" && nodes[0].parent == 0
    ensures ResolveFull(nodes, cwd, path) == Target(nodes, Start(cwd, path), Parse(path).dir, Parse(path).base)
  {
    if path == "/" { RootByParts(nodes, cwd); }
  }

  /** A directory part and a last name, and the components they make up. */
  ghost predicate MakeUp(dir: string, base: string, cs: seq<string>) {
    (dir == "" && EndsWith(cs, [], base)) || EndsWith(cs, Components(dir), base)
  }

  lemma PartsToRoute(nodes: seq<Node>, depth: seq<nat>, a: nat, dir: string, base: string, cs: seq<string>)
    requires Tree(nodes, depth) && Reachable(nodes, a) && NoSlash(base) && MakeUp(dir, base, cs)
    requires 0 <= Target(nodes, a, dir, base) < MAX_NODES
    ensures RouteTo(nodes, a, cs, Target(nodes, a, dir, base))
  {
    var i, d := Target(nodes, a, dir, base), Walk(nodes, a, dir);
    WalkReachable(nodes, depth, a, dir);
    LastLeg(nodes, depth, d, base, i);
    if dir == "" && EndsWith(cs, [], base) {
      assert cs == [base];
      OneLeg(nodes, a, base, i);
    } else {
      var stops := WalkIsRoute(nodes, depth, a, dir);
      RouteMore(nodes, Components(dir), stops, base, i);
    }
  }

  lemma RouteToParts(nodes: seq<Node>, depth: seq<nat>, stops: seq<nat>, dir: string, base: string, cs: seq<string>)
    requires Tree(nodes, depth) && NoSlash(base) && MakeUp(dir, base, cs) && Route(nodes, cs, stops)
    requires Reachable(nodes, stops[0])
    ensures Target(nodes, stops[0], dir, base) == stops[|cs|]
  {
    var a, i, d := stops[0], stops[|cs|], stops[|cs| - 1];
    assert cs[|cs| - 1] == base && Leads(nodes, d, cs[|cs| - 1], i) && nodes[d].isDir;
    if !EndsWith(cs, [], base) {
      RouteStart(nodes, cs, stops);
      assert cs[..|cs| - 1] == Components(dir);
      RouteIsWalk(nodes, depth, dir, stops[..|cs|]);
    }
    assert Walk(nodes, a, dir) == d;
    WalkReachable(nodes, depth, a, dir);
    LastLeg(nodes, depth, d, base, i);
  }

  /** Resolving a path that names something follows a route to it. */
  lemma ResolveIsRoute(nodes: seq<Node>, depth: seq<nat>, cwd: nat, path: string)
    requires Tree(nodes, depth) && Reachable(nodes, cwd) && path != "" && ResolveFull(nodes, cwd, path) >= 0
    ensures RouteTo(nodes, Start(cwd, path), Names(path), ResolveFull(nodes, cwd, path))
  {
    ResolveByParts(nodes, cwd, path);
    PartsAreComponents(path);
    ParsedBase(path);
    PartsToRoute(nodes, depth, Start(cwd, path), Parse(path).dir, Parse(path).base, Names(path));
  }

  lemma OneLeg(nodes: seq<Node>, a: nat, c: string, i: nat)
    requires Leads(nodes, a, c, i) && nodes[a].isDir
    ensures RouteTo(nodes, a, [c], i)
  {
    assert Route(nodes, [c], [a, i]);
  }

  lemma RouteMore(nodes: seq<Node>, cs: seq<string>, stops: seq<nat>, c: string, i: nat)
    requires Route(nodes, cs, stops) && i < |nodes|
    requires nodes[stops[|cs|]].isDir && Leads(nodes, stops[|cs|], c, i)
    ensures Route(nodes, cs + [c], stops + [i]) && RouteTo(nodes, stops[0], cs + [c], i)
  {
    var cs', stops' := cs + [c], stops + [i];
    forall k | 0 <= k < |cs'| ensures Leads(nodes, stops'[k], cs'[k], stops'[k + 1]) && nodes[stops'[k]].isDir {
      if k < |cs| { assert Leads(nodes, stops[k], cs[k], stops[k + 1]); }
    }
  }

  /** And wherever the route of a path ends is what the path resolves to. */
  lemma RouteIsResolve(nodes: seq<Node>, depth: seq<nat>, cwd: nat, path: string, stops: seq<nat>)
    requires Tree(nodes, depth) && Reachable(nodes, cwd) && path != ""
    requires Route(nodes, Names(path), stops) && stops[0] == Start(cwd, path)
    ensures ResolveFull(nodes, cwd, path) == stops[|Names(path)|]
  {
    ResolveByParts(nodes, cwd, path);
    PartsAreComponents(path);
    ParsedBase(path);
    RouteToParts(nodes, depth, stops, Parse(path).dir, Parse(path).base, Names(path));
  }

  lemma RouteStart(nodes: seq<Node>, cs: seq<string>, stops: seq<nat>)
    requires Route(nodes, cs, stops) && cs != []
    ensures Route(nodes, cs[..|cs| - 1], stops[..|cs|])
  {
    forall k | 0 <= k < |cs| - 1 ensures Leads(nodes, stops[k], cs[k], stops[k + 1]) && nodes[stops[k]].isDir {
    }
  }

  /**
   resolve_full_path: a path resolves to node i if and only if its route, from the root or from the
   current directory, ends at i.
   */
  lemma ResolvesExactly(nodes: seq<Node>, depth: seq<nat>, cwd: nat, path: string, i: nat)
    requires Tree(nodes, depth) && Reachable(nodes, cwd) && path != ""
    ensures ResolveFull(nodes, cwd, path) == i <==> RouteTo(nodes, Start(cwd, path), Names(path), i)
  {
    if ResolveFull(nodes, cwd, path) == i { ResolveIsRoute(nodes, depth, cwd, path); }
    if RouteTo(nodes, Start(cwd, path), Names(path), i) {
      var stops :| Route(nodes, Names(path), stops) && stops[0] == Start(cwd, path) && stops[|Names(path)|] == i;
      RouteIsResolve(nodes, depth, cwd, path, stops);
    }
  }

  /** A walk arrives at a directory if and only if the route does. */
  lemma WalkExactly(nodes: seq<Node>, depth: seq<nat>, a: nat, s: string, d: nat)
    requires Tree(nodes, depth) && Reachable(nodes, a) && d < MAX_NODES
    ensures Walk(nodes, a, s) == d <==> RouteTo(nodes, a, Components(s), d) && nodes[d].isDir
  {
    WalkReachable(nodes, depth, a, s);
    if Walk(nodes, a, s) == d {
      var stops := WalkIsRoute(nodes, depth, a, s);
    }
    if RouteTo(nodes, a, Components(s), d) && nodes[d].isDir {
      var stops :| Route(nodes, Components(s), stops) && stops[0] == a && stops[|Components(s)|] == d;
      RouteIsWalk(nodes, depth, s, stops);
    }
  }

  lemma NoRoute(nodes: seq<Node>, a: nat, d: nat)
    requires a < |nodes|
    ensures RouteTo(nodes, a, [], d) <==> a == d
  {
    assert Route(nodes, [], [a]);
  }

  lemma FrontWalk(nodes: seq<Node>, depth: seq<nat>, a: nat, dir: string, base: string, cs: seq<string>, d: nat)
    requires Tree(nodes, depth) && Reachable(nodes, a) && MakeUp(dir, base, cs) && d < MAX_NODES
    ensures cs != [] && cs[|cs| - 1] == base
    ensures Walk(nodes, a, dir) == d <==> RouteTo(nodes, a, cs[..|cs| - 1], d) && nodes[d].isDir
  {
    if dir == "" && EndsWith(cs, [], base) {
      assert cs[..|cs| - 1] == [];
      NoRoute(nodes, a, d);
    } else {
      assert cs[..|cs| - 1] == Components(dir);
      WalkExactly(nodes, depth, a, dir, d);
    }
  }

  /**
   resolve_path, which also serves paths that name nothing yet: the parent is the directory at the end
   of the route of all components but the last, and the last is the name.
   */
  lemma PlacedExactly(nodes: seq<Node>, depth: seq<nat>, cwd: nat, path: string, d: nat)
    requires Tree(nodes, depth) && Reachable(nodes, cwd) && path != "" && d < MAX_NODES
    ensures var cs := Names(path);
            ResolvePath(nodes, cwd, path) == Within(d, cs[|cs| - 1]) <==>
            RouteTo(nodes, Start(cwd, path), cs[..|cs| - 1], d) && nodes[d].isDir
  {
    PartsAreComponents(path);
    var q, a := Parse(path), Start(cwd, path);
    assert Reachable(nodes, a);
    FrontWalk(nodes, depth, a, q.dir, q.base, Names(path), d);
    assert ResolvePath(nodes, cwd, path) ==
        if Walk(nodes, a, q.dir) < 0 then Failed(ERR_NOT_FOUND) else Within(Walk(nodes, a, q.dir), q.base);
  }

  // -------------------------------------------------------------------- going up

  /** ".." is the directory the current one lies in, one level up; at the root it is the root. */
  lemma DotDotIsParent(nodes: seq<Node>, depth: seq<nat>, i: nat)
    requires Tree(nodes, depth) && Reachable(nodes, i)
    ensures ResolveFull(nodes, i, "..") == nodes[i].parent
    ensures if i == 0 then nodes[i].parent == 0 else depth[i] == depth[nodes[i].parent] + 1
  {
    if i != 0 { assert Placed(nodes, depth, i); }
    var up := "..";
    NamesOfName(up);
    var stops: seq<nat> := [i, nodes[i].parent];
    assert Leads(nodes, i, up, nodes[i].parent);
    assert Route(nodes, [up], stops);
    RouteIsResolve(nodes, depth, i, up, stops);
  }

  /** A path that is one name, from the current directory. */
  lemma NamesOfName(c: string)
    requires GoodName(c)
    ensures Names(c) == [c] && forall cwd :: Start(cwd, c) == cwd
  {
    OneComponent(c);
  }

  /** Down into a subdirectory and up again. */
  lemma DownAndUp(nodes: seq<Node>, depth: seq<nat>, cur: nat, c: string, i: nat)
    requires Tree(nodes, depth) && Reachable(nodes, cur) && GoodName(c) && !IsDot(c)
    requires i < MAX_NODES && nodes[i].used && nodes[i].isDir && nodes[i].parent == cur && nodes[i].name == c
    ensures Walk(nodes, cur, c) == i && Walk(nodes, cur, c + "/" + "..") == cur
  {
    assert nodes[0].name[0] == '/';
    FindIsUnique(nodes, depth, cur, c, i);
    WalkOne(nodes, cur, c);
    WalkJoined(nodes, cur, c, "..");
    WalkOne(nodes, i, "..");
  }

  /**
   A path below a directory is that directory's path followed by the rest: resolving dir/rest from
   anywhere is resolving rest inside the directory, as long as the whole fits the path buffer.
   */
  lemma ResolveJoined(nodes: seq<Node>, depth: seq<nat>, cwd: nat, dir: string, rest: string, j: nat)
    requires Tree(nodes, depth) && Reachable(nodes, cwd) && dir != "" && rest != "" && rest[0] != '/'
    requires |dir| + 1 + |rest| <= PATH_CHARS
    requires ResolveFull(nodes, cwd, dir) == j && Reachable(nodes, j)
    ensures ResolveFull(nodes, cwd, dir + "/" + rest) == ResolveFull(nodes, j, rest)
  {
    var path := dir + "/" + rest;
    NamesJoined(dir, rest);
    var r, r' := ResolveFull(nodes, cwd, path), ResolveFull(nodes, j, rest);
    if r' >= 0 { JoinedDown(nodes, depth, cwd, dir, rest, j, path); }
    if r >= 0 { JoinedUp(nodes, depth, cwd, dir, rest, j, path); }
    OneFailure(nodes, cwd, path);
    OneFailure(nodes, j, rest);
  }

  lemma OneFailure(nodes: seq<Node>, cwd: nat, path: string)
    requires Closed(nodes) && cwd < MAX_NODES && path != ""
    ensures ResolveFull(nodes, cwd, path) >= -1
  {
  }

  lemma JoinedDown(nodes: seq<Node>, depth: seq<nat>, cwd: nat, dir: string, rest: string, j: nat, path: string)
    requires Tree(nodes, depth) && Reachable(nodes, cwd) && dir != "" && rest != "" && rest[0] != '/'
    requires path != "" && Names(path) == Names(dir) + Names(rest) && Start(cwd, path) == Start(cwd, dir)
    requires ResolveFull(nodes, cwd, dir) == j && Reachable(nodes, j) && ResolveFull(nodes, j, rest) >= 0
    ensures ResolveFull(nodes, cwd, path) == ResolveFull(nodes, j, rest)
  {
    var cs, ds := Names(dir), Names(rest);
    ResolveIsRoute(nodes, depth, cwd, dir);
    var first :| Route(nodes, cs, first) && first[0] == Start(cwd, dir) && first[|cs|] == j;
    ResolveIsRoute(nodes, depth, j, rest);
    var more :| Route(nodes, ds, more) && more[0] == j && more[|ds|] == ResolveFull(nodes, j, rest);
    RoutesJoin(nodes, cs, first, ds, more);
    RouteIsResolve(nodes, depth, cwd, path, first + more[1..]);
  }

  lemma JoinedUp(nodes: seq<Node>, depth: seq<nat>, cwd: nat, dir: string, rest: string, j: nat, path: string)
    requires Tree(nodes, depth) && Reachable(nodes, cwd) && dir != "" && rest != "" && rest[0] != '/'
    requires path != "" && Names(path) == Names(dir) + Names(rest) && Start(cwd, path) == Start(cwd, dir)
    requires ResolveFull(nodes, cwd, dir) == j && Reachable(nodes, j) && ResolveFull(nodes, cwd, path) >= 0
    ensures ResolveFull(nodes, cwd, path) == ResolveFull(nodes, j, rest)
  {
    var cs, ds, r := Names(dir), Names(rest), ResolveFull(nodes, cwd, path);
    ResolveIsRoute(nodes, depth, cwd, path);
    var whole :| Route(nodes, cs + ds, whole) && whole[0] == Start(cwd, path) && whole[|cs + ds|] == r;
    RouteSplits(nodes, cs, ds, whole);
    RouteIsResolve(nodes, depth, cwd, dir, whole[..|cs| + 1]);
    RouteIsResolve(nodes, depth, j, rest, whole[|cs|..]);
  }

  lemma NamesJoined(dir: string, rest: string)
    requires dir != "" && rest != "" && rest[0] != '/' && |dir| + 1 + |rest| <= PATH_CHARS
    ensures Names(dir + "/" + rest) == Names(dir) + Names(rest)
    ensures forall cwd :: Start(cwd, dir + "/" + rest) == Start(cwd, dir)
  {
    var path := dir + "/" + rest;
    if dir[0] == '/' {
      assert path[1..] == dir[1..] + "/" + rest;
      ComponentsJoined(dir[1..], rest);
    } else {
      assert path[0] == dir[0];
      ComponentsJoined(dir, rest);
    }
  }

  lemma RoutesJoin(nodes: seq<Node>, cs: seq<string>, first: seq<nat>, ds: seq<string>, more: seq<nat>)
    requires Route(nodes, cs, first) && Route(nodes, ds, more) && more[0] == first[|cs|]
    ensures Route(nodes, cs + ds, first + more[1..])
  {
    var es, stops := cs + ds, first + more[1..];
    forall k | 0 <= k < |es| ensures Leads(nodes, stops[k], es[k], stops[k + 1]) && nodes[stops[k]].isDir {
      if k < |cs| {
        assert Leads(nodes, first[k], cs[k], first[k + 1]);
      } else {
        assert Leads(nodes, more[k - |cs|], ds[k - |cs|], more[k - |cs| + 1]);
      }
    }
  }

  lemma RouteSplits(nodes: seq<Node>, cs: seq<string>, ds: seq<string>, stops: seq<nat>)
    requires Route(nodes, cs + ds, stops)
    ensures Route(nodes, cs, stops[..|cs| + 1]) && Route(nodes, ds, stops[|cs|..])
  {
    var es := cs + ds;
    forall k | 0 <= k < |cs| ensures Leads(nodes, stops[k], cs[k], stops[k + 1]) && nodes[stops[k]].isDir {
      assert Leads(nodes, stops[k], es[k], stops[k + 1]);
    }
    var more := stops[|cs|..];
    forall k | 0 <= k < |ds| ensures Leads(nodes, more[k], ds[k], more[k + 1]) && nodes[more[k]].isDir {
      assert Leads(nodes, stops[|cs| + k], es[|cs| + k], stops[|cs| + k + 1]);
    }
  }

  /** A directory's path with "/.." after it names the directory above. */
  lemma PathDotDot(nodes: seq<Node>, depth: seq<nat>, cwd: nat, dir: string, j: nat)
    requires Tree(nodes, depth) && Reachable(nodes, cwd) && dir != "" && |dir| + 3 <= PATH_CHARS
    requires ResolveFull(nodes, cwd, dir) == j && Reachable(nodes, j)
    ensures ResolveFull(nodes, cwd, dir + "/" + "..") == nodes[j].parent
  {
    ResolveJoined(nodes, depth, cwd, dir, "..", j);
    DotDotIsParent(nodes, depth, j);
  }
}
