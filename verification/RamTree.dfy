/**
 Adding and removing nodes: the tree stays a tree, paths that resolved still do, the new path resolves
 to the new node and the removed one to nothing.
 */
module RamTree {
  import opened RamPaths

  const BLANK: Node := Node(false, false, "", 0)

  // ----------------------------------------------------------------- what resolves

  /** A path lies in a directory that can be walked to, under a name without slashes. */
  lemma PlaceReachable(nodes: seq<Node>, depth: seq<nat>, cwd: nat, path: string)
    requires Tree(nodes, depth) && Reachable(nodes, cwd)
    ensures var r := ResolvePath(nodes, cwd, path);
            r.Within? ==> Reachable(nodes, r.parent) && NoSlash(r.base) && |r.base| <= NAME_CHARS
  {
    if path != "" {
      var q := Parse(path);
      ParsedBase(path);
      assert Reachable(nodes, 0);
      WalkReachable(nodes, depth, if q.absolute then 0 else cwd, q.dir);
    }
  }

  /** A resolved path names a used node, which is not called "." or "..". */
  lemma ResolvedIsUsed(nodes: seq<Node>, depth: seq<nat>, cwd: nat, path: string)
    requires Tree(nodes, depth) && Reachable(nodes, cwd)
    ensures var r := ResolveFull(nodes, cwd, path); r >= 0 ==> nodes[r].used && !IsDot(nodes[r].name)
  {
    PlaceReachable(nodes, depth, cwd, path);
    var place := ResolvePath(nodes, cwd, path);
    if place.Within? && place.parent != 0 { assert Placed(nodes, depth, place.parent); }
  }

  // ------------------------------------------------------------------------ adding

  ghost predicate CanAdd(nodes: seq<Node>, depth: seq<nat>, i: nat, node: Node) {
    && Tree(nodes, depth) && i < MAX_NODES && !nodes[i].used && node.used
    && Reachable(nodes, node.parent) && GoodName(node.name) && FindIn(nodes, node.parent, node.name) < 0
  }

  lemma AddKeepsTree(nodes: seq<Node>, depth: seq<nat>, i: nat, node: Node)
    requires CanAdd(nodes, depth, i, node)
    ensures i != 0 && Tree(nodes[i := node], depth[i := depth[node.parent] + 1])
  {
    var nodes', depth' := nodes[i := node], depth[i := depth[node.parent] + 1];
    forall k | 0 < k < MAX_NODES && nodes'[k].used ensures Placed(nodes', depth', k) {
      if k != i { assert Placed(nodes, depth, k); }
    }
    forall k, l | 0 < k < l < MAX_NODES && nodes'[k].used && nodes'[l].used ensures !Siblings(nodes', k, l) {
      assert k != i && l != i ==> !Siblings(nodes, k, l);
    }
  }

  lemma AddKeepsFind(nodes: seq<Node>, depth: seq<nat>, i: nat, node: Node, d: nat, name: string)
    requires CanAdd(nodes, depth, i, node) && NoSlash(name) && FindIn(nodes, d, name) >= 0
    ensures FindIn(nodes[i := node], d, name) == FindIn(nodes, d, name)
  {
    AddKeepsTree(nodes, depth, i, node);
    assert nodes[0].name[0] == '/';
    FindIsUnique(nodes[i := node], depth[i := depth[node.parent] + 1], d, name, FindIn(nodes, d, name));
  }

  /** Walks that arrived still arrive at the same node. */
  lemma {:induction false} AddKeepsWalk(nodes: seq<Node>, depth: seq<nat>, i: nat, node: Node, cur: int, s: string)
    requires CanAdd(nodes, depth, i, node) && Reachable(nodes, cur) && Walk(nodes, cur, s) >= 0
    ensures Closed(nodes[i := node]) && Walk(nodes[i := node], cur, s) == Walk(nodes, cur, s)
    decreases |s|
  {
    var nodes' := nodes[i := node];
    if s != "" {
      var c := Clip(s[..FirstSlash(s)], NAME_CHARS);
      FirstSlashSplits(s);
      ClipNoSlash(s[..FirstSlash(s)], NAME_CHARS);
      var next := Step(nodes, cur, c);
      StepReachable(nodes, depth, cur, c);
      assert Walk(nodes, cur, s) == Walk(nodes, next, Rest(s));
      if c != "" && c != "." && c != ".." { AddKeepsFind(nodes, depth, i, node, cur, c); }
      assert Step(nodes', cur, c) == next;
      AddKeepsWalk(nodes, depth, i, node, next, Rest(s));
    }
  }

  lemma AddKeepsPlace(nodes: seq<Node>, depth: seq<nat>, i: nat, node: Node, cwd: nat, path: string)
    requires CanAdd(nodes, depth, i, node) && Reachable(nodes, cwd) && ResolvePath(nodes, cwd, path).Within?
    ensures Closed(nodes[i := node]) && ResolvePath(nodes[i := node], cwd, path) == ResolvePath(nodes, cwd, path)
  {
    var q := Parse(path);
    assert Reachable(nodes, 0);
    AddKeepsWalk(nodes, depth, i, node, if q.absolute then 0 else cwd, q.dir);
  }

  /** Every path that resolved still resolves to the same node. */
  lemma AddKeepsPaths(nodes: seq<Node>, depth: seq<nat>, i: nat, node: Node, cwd: nat, path: string)
    requires CanAdd(nodes, depth, i, node) && Reachable(nodes, cwd) && ResolveFull(nodes, cwd, path) >= 0
    ensures Closed(nodes[i := node]) && ResolveFull(nodes[i := node], cwd, path) == ResolveFull(nodes, cwd, path)
  {
    if path != "/" {
      PlaceReachable(nodes, depth, cwd, path);
      AddKeepsPlace(nodes, depth, i, node, cwd, path);
      var place := ResolvePath(nodes, cwd, path);
      if place.base != "" && !IsDot(place.base) { AddKeepsFind(nodes, depth, i, node, place.parent, place.base); }
    }
  }

  /** The path a node was created under resolves to it, unless its name is "." or "..", when it never does. */
  lemma AddedResolves(nodes: seq<Node>, depth: seq<nat>, i: nat, node: Node, cwd: nat, path: string)
    requires CanAdd(nodes, depth, i, node) && Reachable(nodes, cwd)
    requires ResolvePath(nodes, cwd, path) == Within(node.parent, node.name)
    ensures Closed(nodes[i := node]) && (ResolveFull(nodes[i := node], cwd, path) == i <==> !IsDot(node.name))
  {
    AddKeepsPlace(nodes, depth, i, node, cwd, path);
    AddKeepsTree(nodes, depth, i, node);
    if IsDot(node.name) {
      if node.parent != 0 { assert Placed(nodes, depth, node.parent); }
    } else {
      FindIsUnique(nodes[i := node], depth[i := depth[node.parent] + 1], node.parent, node.name, i);
    }
  }

  // ---------------------------------------------------------------------- removing

  ghost predicate CanRemove(nodes: seq<Node>, depth: seq<nat>, i: nat) {
    && Tree(nodes, depth) && 0 < i < MAX_NODES && nodes[i].used
    && forall k :: 0 <= k < MAX_NODES && nodes[k].used ==> nodes[k].parent != i
  }

  lemma RemoveKeepsTree(nodes: seq<Node>, depth: seq<nat>, i: nat)
    requires CanRemove(nodes, depth, i)
    ensures Tree(nodes[i := BLANK], depth)
  {
    var nodes' := nodes[i := BLANK];
    forall k | 0 < k < MAX_NODES && nodes'[k].used ensures Placed(nodes', depth, k) {
      assert Placed(nodes, depth, k);
    }
    forall k, l | 0 < k < l < MAX_NODES && nodes'[k].used && nodes'[l].used ensures !Siblings(nodes', k, l) {
      assert !Siblings(nodes, k, l);
    }
  }

  /** What is still found was found before. */
  lemma RemoveKeepsFind(nodes: seq<Node>, depth: seq<nat>, i: nat, d: nat, name: string)
    requires CanRemove(nodes, depth, i) && NoSlash(name) && FindIn(nodes[i := BLANK], d, name) >= 0
    ensures var r := FindIn(nodes[i := BLANK], d, name); r != i && FindIn(nodes, d, name) == r
  {
    var r := FindIn(nodes[i := BLANK], d, name);
    assert nodes[0].name[0] == '/';
    FindIsUnique(nodes, depth, d, name, r);
  }

  /** Walks that still arrive arrive where they did, and not at the removed node. */
  lemma {:induction false} RemoveKeepsWalk(nodes: seq<Node>, depth: seq<nat>, i: nat, cur: int, s: string)
    requires CanRemove(nodes, depth, i) && Reachable(nodes, cur) && cur != i && Closed(nodes[i := BLANK])
    requires Walk(nodes[i := BLANK], cur, s) >= 0
    ensures Walk(nodes, cur, s) == Walk(nodes[i := BLANK], cur, s) != i
    decreases |s|
  {
    var nodes' := nodes[i := BLANK];
    if s != "" {
      var c := Clip(s[..FirstSlash(s)], NAME_CHARS);
      FirstSlashSplits(s);
      ClipNoSlash(s[..FirstSlash(s)], NAME_CHARS);
      var next := Step(nodes', cur, c);
      assert Walk(nodes', cur, s) == Walk(nodes', next, Rest(s));
      if c != "" && c != "." && c != ".." { RemoveKeepsFind(nodes, depth, i, cur, c); }
      assert Step(nodes, cur, c) == next && next != i;
      StepReachable(nodes, depth, cur, c);
      RemoveKeepsWalk(nodes, depth, i, next, Rest(s));
    }
  }

  lemma RemoveKeepsPlace(nodes: seq<Node>, depth: seq<nat>, i: nat, cwd: nat, path: string)
    requires CanRemove(nodes, depth, i) && Reachable(nodes, cwd) && cwd != i && Closed(nodes[i := BLANK])
    requires ResolvePath(nodes[i := BLANK], cwd, path).Within?
    ensures ResolvePath(nodes, cwd, path) == ResolvePath(nodes[i := BLANK], cwd, path)
    ensures ResolvePath(nodes, cwd, path).parent != i
  {
    var q := Parse(path);
    assert Reachable(nodes, 0);
    RemoveKeepsWalk(nodes, depth, i, if q.absolute then 0 else cwd, q.dir);
  }

  /** Whatever still resolves is what it was, and the removed node's paths no longer do. */
  lemma RemovedIsGone(nodes: seq<Node>, depth: seq<nat>, i: nat, cwd: nat, path: string)
    requires CanRemove(nodes, depth, i) && Reachable(nodes, cwd) && cwd != i
    ensures Closed(nodes[i := BLANK])
    ensures var r := ResolveFull(nodes[i := BLANK], cwd, path); r >= 0 ==> r != i && ResolveFull(nodes, cwd, path) == r
  {
    var nodes' := nodes[i := BLANK];
    if path != "/" && ResolveFull(nodes', cwd, path) >= 0 {
      RemoveKeepsPlace(nodes, depth, i, cwd, path);
      PlaceReachable(nodes, depth, cwd, path);
      var place := ResolvePath(nodes, cwd, path);
      if place.base != "" && !IsDot(place.base) { RemoveKeepsFind(nodes, depth, i, place.parent, place.base); }
    }
  }

  // ---------------------------------------------------------------------- printing

  /** The printed path of a used node depends only on the nodes above it, which cannot go away. */
  lemma {:induction false} SameTrail(nodes: seq<Node>, depth: seq<nat>, i: nat, node: Node, k: nat, n: nat)
    requires Tree(nodes, depth) && i < MAX_NODES && (!nodes[i].used || CanRemove(nodes, depth, i))
    requires node.parent < MAX_NODES
    requires k < MAX_NODES && nodes[k].used && k != i
    ensures Closed(nodes[i := node]) && Trail(nodes[i := node], k, n) == Trail(nodes, k, n)
    decreases n
  {
    if k != 0 && n > 0 {
      assert Placed(nodes, depth, k);
      SameTrail(nodes, depth, i, node, nodes[k].parent, n - 1);
    }
  }

  /** The current directory keeps its place and its printed path when another node is added or removed. */
  lemma SamePrinted(nodes: seq<Node>, depth: seq<nat>, i: nat, node: Node, cwd: nat)
    requires Tree(nodes, depth) && i < MAX_NODES && (!nodes[i].used || CanRemove(nodes, depth, i))
    requires node.parent < MAX_NODES
    requires Reachable(nodes, cwd) && cwd != i
    ensures Closed(nodes[i := node]) && Reachable(nodes[i := node], cwd)
    ensures Printed(nodes[i := node], cwd) == Printed(nodes, cwd)
  {
    SameTrail(nodes, depth, i, node, cwd, MAX_DEPTH);
  }

  /** All of it for an added node. */
  lemma AddKeepsAll(nodes: seq<Node>, depth: seq<nat>, i: nat, node: Node, nodes': seq<Node>, depth': seq<nat>,
      cwd: nat, path: string)
    requires CanAdd(nodes, depth, i, node) && Reachable(nodes, cwd)
    requires ResolvePath(nodes, cwd, path) == Within(node.parent, node.name)
    requires nodes' == nodes[i := node] && depth' == depth[i := depth[node.parent] + 1]
    ensures i != 0 && Tree(nodes', depth') && Reachable(nodes', cwd) && Printed(nodes', cwd) == Printed(nodes, cwd)
    ensures ResolveFull(nodes', cwd, path) == i <==> !IsDot(node.name)
  {
    AddKeepsTree(nodes, depth, i, node);
    AddedResolves(nodes, depth, i, node, cwd, path);
    SamePrinted(nodes, depth, i, node, cwd);
  }
}
