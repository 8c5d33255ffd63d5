/**
 The RAM file system: a table of 64 nodes updated in place, the current directory and its printed path.
 */
module RamFs {
  import opened RamPaths
  import opened RamTree

  /** FS_MAX_PATH: the size of the cwd buffer. */
  const CWD_BYTES: nat := 128

  const ERR_EXISTS: int := -2

  const ERR_FULL: int := -3

  const ERR_NOT_EMPTY: int := -5

  const ERR_NOT_DIR: int := -7

  /** Some used node has i as its parent. */
  ghost predicate HasChild(nodes: seq<Node>, i: nat) {
    exists k :: 0 <= k < |nodes| && nodes[k].used && nodes[k].parent == i
  }

  /** Every node is in use. */
  ghost predicate AllUsed(nodes: seq<Node>) {
    forall k :: 0 <= k < |nodes| ==> nodes[k].used
  }

  // ---------------------------------------------------------------- scanning text

  /** The scan for the last slash. */
  method ScanLast(s: string) returns (k: int)
    ensures k == LastSlash(s)
  {
    k := -1;
    for i := 0 to |s|
      invariant k == SlashBefore(s, i)
    {
      if s[i] == '/' {
        k := i;
      }
    }
  }

  /** The scan for the end of the first component. */
  method ScanFirst(s: string) returns (k: nat)
    ensures k == FirstSlash(s)
  {
    k := 0;
    assert s[0..] == s;
    while k < |s| && s[k] != '/'
      invariant k <= |s| && FirstSlash(s) == k + FirstSlash(s[k..])
    {
      assert s[k..][1..] == s[k + 1..];
      k := k + 1;
    }
  }

  // --------------------------------------------------------------- printing names

  /** The first k names, last first, each after a slash. */
  function Unwind(parts: seq<string>, k: nat): string
    requires k <= |parts|
  {
    if k == 0 then "" else "/" + parts[k - 1] + Unwind(parts, k - 1)
  }

  lemma {:induction false} UnwindPrefix(parts: seq<string>, name: string, k: nat)
    requires k <= |parts|
    ensures Unwind(parts + [name], k) == Unwind(parts, k)
  {
    if k > 0 { UnwindPrefix(parts, name, k - 1); }
  }

  /** Collecting one more name moves one step up the trail. */
  lemma CollectOne(nodes: seq<Node>, i: nat, m: nat, parts: seq<string>)
    requires Closed(nodes) && 0 < i < MAX_NODES && m > 0
    ensures Trail(nodes, i, m) + Unwind(parts, |parts|) ==
            Trail(nodes, nodes[i].parent, m - 1) + Unwind(parts + [nodes[i].name], |parts| + 1)
  {
    UnwindPrefix(parts, nodes[i].name, |parts|);
    var t, c, u := Trail(nodes, nodes[i].parent, m - 1), nodes[i].name, Unwind(parts, |parts|);
    assert (t + "/" + c) + u == t + ("/" + c + u);
  }

  lemma PrintOne(parts: seq<string>, i: nat, text: string)
    requires i < |parts|
    ensures text + Unwind(parts, i + 1) == (text + "/" + parts[i]) + Unwind(parts, i)
  {
    var u := Unwind(parts, i);
    assert text + ("/" + parts[i] + u) == (text + "/" + parts[i]) + u;
  }

  /** The first loop of fs_change_dir's printing: names collected upwards. */
  method CollectNames(nodes: array<Node>, idx: nat, limit: nat) returns (parts: seq<string>)
    requires Closed(nodes[..]) && idx < MAX_NODES
    ensures Trail(nodes[..], idx, limit) == Unwind(parts, |parts|)
  {
    parts := [];
    var current: nat := idx;
    while current != 0 && |parts| < limit
      invariant current < MAX_NODES && |parts| <= limit
      invariant Trail(nodes[..], idx, limit) == Trail(nodes[..], current, limit - |parts|) + Unwind(parts, |parts|)
      decreases limit - |parts|
    {
      CollectOne(nodes[..], current, limit - |parts|, parts);
      parts := parts + [nodes[current].name];
      current := nodes[current].parent;
    }
    assert Trail(nodes[..], current, limit - |parts|) == "";
  }

  /** The second loop: the names written downwards; high is the last index of the buffer it writes. */
  method WriteNames(parts: seq<string>) returns (text: string, high: nat)
    ensures text == Unwind(parts, |parts|) && high == |text|
  {
    text, high := "", 0; // the terminating zero
    ghost var all := Unwind(parts, |parts|);
    for i := |parts| downto 0
      invariant text + Unwind(parts, i) == all && high == |text|
    {
      PrintOne(parts, i, text);
      text := text + "/" + parts[i];
      high := high + 1 + |parts[i]|;
    }
    assert text + "" == text;
  }

  /** The printing of fs_change_dir. */
  method PrintTrail(nodes: array<Node>, idx: nat, limit: nat) returns (text: string, high: nat)
    requires Closed(nodes[..]) && idx < MAX_NODES
    ensures text == Trail(nodes[..], idx, limit) && high == |text|
  {
    var parts := CollectNames(nodes, idx, limit);
    text, high := WriteNames(parts);
  }

  // -------------------------------------------------------------------- the calls

  /** The calls that change the file system. */
  datatype Call = Make(path: string, isDir: bool) | Delete(path: string) | GoTo(path: string)

  /** The result of fs_create_file and fs_create_dir. */
  ghost function CreateCode(nodes: seq<Node>, cwd: nat, path: string): int
    requires Closed(nodes) && cwd < MAX_NODES
  {
    match ResolvePath(nodes, cwd, path)
    case Failed(code) => code
    case Within(parent, base) =>
      if base == "" then ERR_INVALID
      else if FindIn(nodes, parent, base) >= 0 then ERR_EXISTS
      else if AllUsed(nodes) then ERR_FULL
      else 0
  }

  /** The table with one more node, the first free one, at the path's place. */
  ghost predicate Added(nodes: seq<Node>, cwd: nat, path: string, isDir: bool, nodes': seq<Node>, idx: nat)
    requires Closed(nodes) && cwd < MAX_NODES
  {
    var place := ResolvePath(nodes, cwd, path);
    && place.Within? && 0 < idx < MAX_NODES && !nodes[idx].used && (forall k :: 0 <= k < idx ==> nodes[k].used)
    && nodes' == nodes[idx := Node(true, isDir, place.base, place.parent)]
  }

  /** What a call returns and does to the table and the current directory. */
  ghost predicate Served(c: Call, nodes: seq<Node>, cwd: nat, nodes': seq<Node>, cwd': nat, r: int)
    requires Closed(nodes) && cwd < MAX_NODES
  {
    match c
    case Make(path, isDir) =>
      && cwd' == cwd && r == CreateCode(nodes, cwd, path)
      && if r == 0 then exists idx :: Added(nodes, cwd, path, isDir, nodes', idx) else nodes' == nodes
    case Delete(path) =>
      var t := ResolveFull(nodes, cwd, path);
      && cwd' == cwd
      && r == (if t < 0 then ERR_NOT_FOUND else if t == 0 then ERR_INVALID
               else if HasChild(nodes, t) then ERR_NOT_EMPTY else 0)
      && nodes' == if r == 0 then nodes[t := BLANK] else nodes
    case GoTo(path) =>
      var t := if path == "" then 0 else ResolveFull(nodes, cwd, path);
      && nodes' == nodes
      && if t < 0 then r == ERR_NOT_FOUND && cwd' == cwd
         else if !nodes[t].isDir then r == ERR_NOT_DIR && cwd' == cwd
         else r == 0 && cwd' == t
  }

  class RamFs {
    const nodes: array<Node>
    var cwdIdx: nat
    var cwd: string

    /** The level of each node; the root is at 0. */
    ghost var depth: seq<nat>

    ghost predicate TreeHolds()
      reads this, nodes
    {
      nodes.Length == MAX_NODES && Tree(nodes[..], depth)
    }

    ghost predicate Valid()
      reads this, nodes
    {
      TreeHolds() && Reachable(nodes[..], cwdIdx) && cwd == Printed(nodes[..], cwdIdx)
    }

    /** fs_init */
    constructor ()
      ensures Valid() && fresh(nodes) && cwdIdx == 0 && forall i :: 0 < i < MAX_NODES ==> !nodes[i].used
    {
      var table := new Node[MAX_NODES](i => BLANK);
      table[0] := Node(true, true, "/", 0);
      nodes := table;
      cwdIdx, cwd := 0, "/";
      depth := seq(MAX_NODES, _ => 0);
    }

    method FindFreeNode() returns (r: int)
      requires nodes.Length == MAX_NODES
      ensures -1 <= r < MAX_NODES
      ensures r < 0 <==> AllUsed(nodes[..])
      ensures r >= 0 ==> !nodes[r].used && forall k :: 0 <= k < r ==> nodes[k].used
    {
      for i := 0 to MAX_NODES
        invariant forall k :: 0 <= k < i ==> nodes[k].used
      {
        if !nodes[i].used {
          assert !nodes[..][i].used;
          return i;
        }
      }
      return -1;
    }

    method FindNodeInDir(dir: nat, name: string) returns (r: int)
      requires nodes.Length == MAX_NODES
      ensures r == FindIn(nodes[..], dir, name)
    {
      for i := 0 to MAX_NODES
        invariant FindIn(nodes[..], dir, name) == FindFrom(nodes[..], dir, name, i)
      {
        if nodes[i].used && nodes[i].parent == dir && nodes[i].name == name {
          return i;
        }
      }
      return -1;
    }

    /** One round of the component loop. */
    method StepInto(current: nat, component: string) returns (r: int)
      requires Closed(nodes[..]) && current < MAX_NODES
      ensures r == Step(nodes[..], current, component)
    {
      if component == "" || component == "." {
        return current;
      }
      if component == ".." {
        if current != 0 {
          return nodes[current].parent;
        }
        return current;
      }
      var idx := FindNodeInDir(current, component);
      if idx < 0 || !nodes[idx].isDir {
        return ERR_NOT_FOUND;
      }
      return idx;
    }

    /** The component loop of resolve_path. */
    method WalkPath(start: nat, dir: string) returns (r: int)
      requires Closed(nodes[..]) && start < MAX_NODES
      ensures r == Walk(nodes[..], start, dir)
    {
      var current: nat, token := start, dir;
      while token != ""
        invariant current < MAX_NODES && Walk(nodes[..], start, dir) == Walk(nodes[..], current, token)
        decreases |token|
      {
        var slash := ScanFirst(token);
        var component := Clip(token[..slash], NAME_CHARS);
        r := StepInto(current, component);
        token := Rest(token);
        if r < 0 {
          return ERR_NOT_FOUND;
        }
        current := r;
      }
      return current;
    }

    /** resolve_path */
    method Resolve(path: string) returns (code: int, parent: nat, base: string)
      requires Closed(nodes[..]) && cwdIdx < MAX_NODES
      ensures var place := ResolvePath(nodes[..], cwdIdx, path);
              if place.Failed? then code == place.code < 0
                  else code == 0 && parent == place.parent && base == place.base
    {
      parent, base := 0, "";
      if path == "" {
        return ERR_INVALID, parent, base;
      }
      var buf := Clip(path, PATH_CHARS);
      var current := if buf[0] == '/' then 0 else cwdIdx;
      var p := if buf[0] == '/' then buf[1..] else buf;
      var lastSlash := ScanLast(p);
      ghost var q := Parse(path);
      assert q == Parts(buf[0] == '/', if lastSlash < 0 then ""
          else p[..lastSlash], Clip(p[lastSlash + 1..], NAME_CHARS));
      if lastSlash < 0 {
        assert p[0..] == p;
        return 0, current, Clip(p, NAME_CHARS);
      }
      var dir := WalkPath(current, p[..lastSlash]);
      if dir < 0 {
        return ERR_NOT_FOUND, parent, base;
      }
      return 0, dir, Clip(p[lastSlash + 1..], NAME_CHARS);
    }

    /** resolve_full_path */
    method ResolveNode(path: string) returns (r: int)
      requires Closed(nodes[..]) && cwdIdx < MAX_NODES
      ensures r == ResolveFull(nodes[..], cwdIdx, path)
    {
      if path == "/" {
        return 0;
      }
      var code, parent, base := Resolve(path);
      if code != 0 {
        return code;
      }
      if base == "" || base == "." {
        return parent;
      }
      if base == ".." {
        if parent == 0 {
          return 0;
        }
        return nodes[parent].parent;
      }
      r := FindNodeInDir(parent, base);
    }

    /** fs_create_file and fs_create_dir: one new node, whose path then resolves to it unless it ends in "." or "..". */
    method Create(path: string, isDir: bool) returns (r: int, ghost idx: nat)
      requires Valid()
      modifies nodes, this`depth
      ensures Valid()
      ensures r == old(CreateCode(nodes[..], cwdIdx, path))
      ensures r != 0 ==> nodes[..] == old(nodes[..])
      ensures r == 0 ==>
                && Added(old(nodes[..]), cwdIdx, path, isDir, nodes[..], idx)
                && (ResolveFull(nodes[..], cwdIdx, path) == idx <==> !IsDot(nodes[idx].name))
    {
      var code, parent, base := Resolve(path);
      idx := 0;
      if code != 0 {
        return code, idx;
      }
      if base == "" {
        return ERR_INVALID, idx;
      }
      var found := FindNodeInDir(parent, base);
      if found >= 0 {
        return ERR_EXISTS, idx;
      }
      var at := FindFreeNode();
      if at < 0 {
        return ERR_FULL, idx;
      }
      idx := at;
      PlaceReachable(nodes[..], depth, cwdIdx, path);
      FillNode(at, Node(true, isDir, base, parent), path);
      return 0, idx;
    }

    /** The free node is filled in. */
    method FillNode(at: nat, node: Node, ghost path: string)
      requires Valid() && at < MAX_NODES && CanAdd(nodes[..], depth, at, node)
      requires ResolvePath(nodes[..], cwdIdx, path) == Within(node.parent, node.name)
      modifies nodes, this`depth
      ensures Valid() && at != 0 && nodes[..] == old(nodes[..])[at := node]
      ensures ResolveFull(nodes[..], cwdIdx, path) == at <==> !IsDot(node.name)
    {
      ghost var was, levels := nodes[..], depth;
      SetNode(at, node);
      depth := depth[at := depth[node.parent] + 1];
      AddKeepsAll(was, levels, at, node, nodes[..], depth, cwdIdx, path);
    }

    /** One entry of the table is written. */
    method SetNode(at: nat, node: Node)
      requires at < nodes.Length
      modifies nodes
      ensures nodes[..] == old(nodes[..])[at := node]
    {
      nodes[at] := node;
    }

    /** The scan of fs_remove for children. */
    method ScanChildren(idx: nat) returns (found: bool)
      requires nodes.Length == MAX_NODES
      ensures found == HasChild(nodes[..], idx)
    {
      for i := 0 to MAX_NODES
        invariant forall k :: 0 <= k < i ==> !(nodes[k].used && nodes[k].parent == idx)
      {
        if nodes[i].used && nodes[i].parent == idx {
          assert nodes[..][i].used;
          return true;
        }
      }
      return false;
    }

    /** The node fs_remove is about, before the call. */
    ghost function Target(path: string): int
      requires Valid()
      reads this, nodes
    {
      ResolveFull(nodes[..], cwdIdx, path)
    }

    /**
     fs_remove: an existing node without children goes. The tree survives every call; the current
     directory stays valid unless it was itself the node removed.
     */
    method Remove(path: string) returns (r: int)
      requires Valid()
      modifies nodes
      ensures TreeHolds()
      ensures r == var t := old(Target(path));
                   if t < 0 then ERR_NOT_FOUND else if t == 0 then ERR_INVALID
                   else if HasChild(old(nodes[..]), t) then ERR_NOT_EMPTY else 0
      ensures r != 0 ==> nodes[..] == old(nodes[..])
      ensures r == 0 ==> nodes[..] == old(nodes[..])[old(Target(path)) := BLANK]
      ensures Valid() <==> !(r == 0 && old(Target(path)) == cwdIdx)
      ensures Valid() && r == 0 ==> Target(path) < 0
    {
      var idx := ResolveNode(path);
      if idx < 0 {
        return ERR_NOT_FOUND;
      }
      if idx == 0 {
        return ERR_INVALID;
      }
      ghost var was := nodes[..];
      ResolvedIsUsed(was, depth, cwdIdx, path);
      FilesHaveNoChildren(was, depth, idx);
      if nodes[idx].isDir {
        var busy := ScanChildren(idx);
        if busy {
          return ERR_NOT_EMPTY;
        }
      }
      assert CanRemove(was, depth, idx);
      RemoveKeepsTree(was, depth, idx);
      if idx != cwdIdx {
        RemovedIsGone(was, depth, idx, cwdIdx, path);
        SamePrinted(was, depth, idx, BLANK, cwdIdx);
      }
      SetNode(idx, BLANK);
      return 0;
    }

    /**
     fs_change_dir: to a directory that can be walked to, printed afresh; high is the last index of the
     cwd buffer written.
     */
    method ChangeDir(path: string) returns (r: int, high: nat)
      requires Valid()
      modifies this`cwdIdx, this`cwd
      ensures Valid()
      ensures var t := if path == "" then 0 else old(Target(path));
              if t < 0 then r == ERR_NOT_FOUND && cwdIdx == old(cwdIdx)
              else if !nodes[t].isDir then r == ERR_NOT_DIR && cwdIdx == old(cwdIdx)
              else r == 0 && cwdIdx == t
      ensures r == 0 ==> (high < CWD_BYTES <==> |cwd| <= PATH_CHARS)
    {
      high := 0;
      if path == "" {
        cwdIdx, cwd := 0, "/";
        return 0, 1;
      }
      var idx := ResolveNode(path);
      if idx < 0 {
        return ERR_NOT_FOUND, high;
      }
      if !nodes[idx].isDir {
        return ERR_NOT_DIR, high;
      }
      ResolvedIsUsed(nodes[..], depth, cwdIdx, path);
      cwdIdx := idx;
      if idx == 0 {
        cwd, high := "/", 1;
      } else {
        cwd, high := PrintTrail(nodes, idx, MAX_DEPTH);
      }
      return 0, high;
    }

    /**
     Any call that does not remove the current directory is served as asked and keeps the tree, and the
     printed path, where it fits the path buffer, resolves to the current directory exactly when
     that is at most eight levels deep.
     */
    method Perform(c: Call) returns (r: int)
      requires Valid()
      requires c.Delete? && Target(c.path) == cwdIdx ==> cwdIdx == 0 || HasChild(nodes[..], cwdIdx)
      modifies nodes, this
      ensures Valid() && Served(c, old(nodes[..]), old(cwdIdx), nodes[..], cwdIdx, r)
      ensures |cwd| <= PATH_CHARS ==> (ResolveFull(nodes[..], cwdIdx, cwd) == cwdIdx <==> depth[cwdIdx] <= MAX_DEPTH)
    {
      match c {
        case Make(path, isDir) =>
          ghost var idx;
          r, idx := Create(path, isDir);
        case Delete(path) =>
          r := Remove(path);
        case GoTo(path) =>
          var high;
          r, high := ChangeDir(path);
      }
      if |cwd| <= PATH_CHARS {
        PrintedResolves(nodes[..], depth, cwdIdx, cwdIdx);
      }
    }
  }

  lemma FilesHaveNoChildren(nodes: seq<Node>, depth: seq<nat>, i: nat)
    requires Tree(nodes, depth) && 0 < i < MAX_NODES
    ensures !nodes[i].isDir ==> !HasChild(nodes, i)
  {
    forall k | 0 <= k < MAX_NODES && nodes[k].used && !nodes[i].isDir ensures nodes[k].parent != i {
      if k != 0 { assert Placed(nodes, depth, k); }
    }
  }

  /** "." names the current directory, so fs_remove(".") takes away an empty current directory other than the root. */
  lemma DotIsCurrent(nodes: seq<Node>, cwd: nat)
    requires Closed(nodes) && cwd < MAX_NODES
    ensures ResolveFull(nodes, cwd, ".") == cwd
  {
    assert LastSlash(".") == -1;
    assert Parse(".") == Parts(false, "", ".");
  }

  // -------------------------------------------------------------- the cwd buffer

  /** Every used node but the root has a name of the greatest length. */
  ghost predicate LongNames(nodes: seq<Node>) {
    forall i :: 0 < i < |nodes| && nodes[i].used ==> |nodes[i].name| == NAME_CHARS
  }

  /** With such names a trail takes 32 characters a level. */
  lemma {:induction false} TrailLength(nodes: seq<Node>, depth: seq<nat>, i: nat, n: nat)
    requires Tree(nodes, depth) && LongNames(nodes) && i < MAX_NODES && nodes[i].used
    ensures |Trail(nodes, i, n)| == 32 * (if n < depth[i] then n else depth[i])
    decreases n
  {
    if i != 0 && n > 0 {
      assert Placed(nodes, depth, i);
      TrailLength(nodes, depth, nodes[i].parent, n - 1);
    }
  }

  /** A directory of such names is printed inside the buffer if and only if it is at most three levels deep. */
  lemma LongPathOverrunsExactly(nodes: seq<Node>, depth: seq<nat>, i: nat)
    requires Tree(nodes, depth) && LongNames(nodes) && Reachable(nodes, i)
    ensures |Printed(nodes, i)| < CWD_BYTES <==> depth[i] <= 3
  {
    TrailLength(nodes, depth, i, MAX_DEPTH);
    if i != 0 { assert Placed(nodes, depth, i); }
  }

  /** Directories nested in each other, k of them, under names of 31 characters. */
  function Nested(k: nat, name: string): seq<Node> {
    seq(MAX_NODES, i requires 0 <= i =>
      if i == 0 then Node(true, true, "/", 0) else if i <= k then Node(true, true, name, i - 1) else BLANK)
  }

  /** Four nested directories already make a tree whose printed path overruns the buffer. */
  lemma NestedOverruns(k: nat, name: string)
    requires 4 <= k < MAX_NODES && |name| == NAME_CHARS && NoSlash(name)
    ensures Tree(Nested(k, name), seq(MAX_NODES, i requires 0 <= i => i)) && Reachable(Nested(k, name), k)
    ensures |Printed(Nested(k, name), k)| >= CWD_BYTES
  {
    var nodes, depth := Nested(k, name), seq(MAX_NODES, i requires 0 <= i => i);
    assert |name| > 2;
    forall i | 0 < i < MAX_NODES && nodes[i].used ensures Placed(nodes, depth, i) {
      assert nodes[nodes[i].parent] == nodes[i - 1];
    }
    forall i, j | 0 < i < j < MAX_NODES && nodes[i].used && nodes[j].used ensures !Siblings(nodes, i, j) {
    }
    LongPathOverrunsExactly(nodes, depth, k);
  }
}
