/**
 The file system over whole runs: inodes, blocks, bitmaps and directory entries refine one byte array
 per file and one finite map per directory.
 */
module DiskRuns {
  import opened Words
  import opened DiskFormat
  import opened FileBlocks
  import opened Directories

  /** What an inode number stands for. */
  datatype Node = Absent | Plain(bytes: seq<Byte>) | Folder(names: map<seq<Byte>, Word>)

  ghost function NodeOf(fs: Fs, i: nat): Node
    requires TreeOk(fs) && i < |fs.inodes|
  {
    if !fs.live[i] then Absent
    else if fs.inodes[i].kind == KIND_DIR then assert DirOk(fs, i); Folder(Listing(Dir(fs, i)))
    else assert FileOk(fs, i); Plain(Content(fs, i))
  }

  ghost function View(fs: Fs): (v: seq<Node>)
    requires TreeOk(fs)
    ensures |v| == |fs.inodes|
  {
    seq(|fs.inodes|, i requires 0 <= i < |fs.inodes| => NodeOf(fs, i))
  }

  /** The changes the operations make; names are bound only when the directory has room. */
  datatype Change =
    | WriteAt(ino: Word, offset: nat, bytes: seq<Byte>)
    | CreateIn(dir: nat, name: seq<Byte>, ino: Word, kind: Word, fits: bool)
    | DeleteIn(dir: nat, name: seq<Byte>, ino: Word)

  /** The file system makes the change: diskfs_write to a plain file, diskfs_create or diskfs_delete. */
  ghost predicate Does(c: Change, fs: Fs, fs': Fs) {
    match c
    case WriteAt(i, offset, bytes) => TreeOk(fs) && Written(fs, fs', i, offset, bytes) && !IsDir(fs, i)
    case CreateIn(d, name, e, kind, fits) => Created(fs, fs', d, name, e, kind) && fits == Room(fs, d)
    case DeleteIn(d, name, e) => Deleted(fs, fs', d, name, e)
  }

  /** The same change on byte arrays and maps. */
  ghost function Apply(c: Change, v: seq<Node>): seq<Node>
    requires Applicable(c, v)
  {
    match c
    case WriteAt(i, offset, bytes) => v[i := Plain(Splice(v[i].bytes, offset, bytes))]
    case CreateIn(d, name, e, kind, fits) =>
      var node := if kind == KIND_DIR then Folder(map[]) else Plain([]);
      if fits then v[e := node][d := Folder(v[d].names[name := e])] else v[e := node]
    case DeleteIn(d, name, e) => v[e := Absent][d := Folder(v[d].names - {name})]
  }

  /** Writes start inside the file, new names are new, deleted names exist. */
  ghost predicate Applicable(c: Change, v: seq<Node>) {
    match c
    case WriteAt(i, offset, bytes) => i < |v| && v[i].Plain? && offset <= |v[i].bytes|
    case CreateIn(d, name, e, kind, fits) => d < |v| && e < |v| && v[d].Folder? && v[e].Absent? && name !in v[d].names
    case DeleteIn(d, name, e) =>
        d < |v| && e < |v| && v[d].Folder? && d != e && name in v[d].names && v[d].names[name] == e
  }

  // ------------------------------------------------------------------ one change

  lemma SameNode(fs: Fs, fs': Fs, j: nat)
    requires TreeOk(fs) && TreeOk(fs') && j < |fs.inodes| && j < |fs'.inodes| && fs.live[j] == fs'.live[j]
    requires Untouched(fs, fs', j)
    ensures NodeOf(fs', j) == NodeOf(fs, j)
  {
  }

  lemma WriteNode(fs: Fs, fs': Fs, i: Word, offset: nat, bytes: seq<Byte>, j: nat)
    requires TreeOk(fs) && TreeOk(fs') && Written(fs, fs', i, offset, bytes) && !IsDir(fs, i) && j < |fs.inodes|
    ensures j != i ==> NodeOf(fs', j) == NodeOf(fs, j)
    ensures j == i ==>
        NodeOf(fs, i).Plain? && offset <= |NodeOf(fs, i).bytes|
        && NodeOf(fs', i) == Plain(Splice(NodeOf(fs, i).bytes, offset, bytes))
  {
    assert FileAfter(fs, fs', i, offset, bytes, j);
    if j != i { SameNode(fs, fs', j); }
  }

  lemma WriteRefines(fs: Fs, fs': Fs, i: Word, offset: nat, bytes: seq<Byte>)
    requires TreeOk(fs) && Written(fs, fs', i, offset, bytes) && !IsDir(fs, i)
    ensures TreeOk(fs') && Applicable(WriteAt(i, offset, bytes), View(fs))
    ensures View(fs') == Apply(WriteAt(i, offset, bytes), View(fs))
  {
    WriteKeepsTree(fs, fs', i, offset, bytes);
    WriteNode(fs, fs', i, offset, bytes, i);
    var v, v' := Apply(WriteAt(i, offset, bytes), View(fs)), View(fs');
    forall j | 0 <= j < |v'| ensures v'[j] == v[j] {
      WriteNode(fs, fs', i, offset, bytes, j);
    }
  }

  lemma CreateNode(fs: Fs, fs': Fs, d: nat, name: seq<Byte>, e: Word, kind: Word, j: nat)
    requires Created(fs, fs', d, name, e, kind) && j < |fs.inodes|
    ensures d != e && NodeOf(fs, d).Folder? && NodeOf(fs, e).Absent?
    ensures j == d ==> NodeOf(fs', d) == if Room(fs, d) then Folder(NodeOf(fs, d).names[name := e]) else NodeOf(fs, d)
    ensures j == e ==> NodeOf(fs', e) == if kind == KIND_DIR then Folder(map[]) else Plain([])
    ensures j != d && j != e ==> NodeOf(fs', j) == NodeOf(fs, j)
  {
    if j == e {
      if kind == KIND_DIR { assert DirOk(fs', e) && Dir(fs', e) == []; }
    } else if j != d && fs.live[j] {
      assert Untouched(fs, fs', j);
      SameNode(fs, fs', j);
    }
  }

  lemma CreateRefines(fs: Fs, fs': Fs, d: nat, name: seq<Byte>, e: Word, kind: Word)
    requires Created(fs, fs', d, name, e, kind)
    ensures var c := CreateIn(d, name, e, kind, Room(fs, d)); Applicable(c, View(fs)) && View(fs') == Apply(c, View(fs))
  {
    CreateNode(fs, fs', d, name, e, kind, d);
    var v, v' := Apply(CreateIn(d, name, e, kind, Room(fs, d)), View(fs)), View(fs');
    forall j | 0 <= j < |v'| ensures v'[j] == v[j] {
      CreateNode(fs, fs', d, name, e, kind, j);
    }
  }

  lemma DeleteNode(fs: Fs, fs': Fs, d: nat, name: seq<Byte>, e: Word, j: nat)
    requires Deleted(fs, fs', d, name, e) && j < |fs.inodes|
    ensures d != e && NodeOf(fs, d).Folder? && name in NodeOf(fs, d).names && NodeOf(fs, d).names[name] == e
    ensures j == d ==> NodeOf(fs', d) == Folder(NodeOf(fs, d).names - {name})
    ensures j == e ==> NodeOf(fs', e) == Absent
    ensures j != d && j != e ==> NodeOf(fs', j) == NodeOf(fs, j)
  {
    if j != d && j != e && fs.live[j] {
      assert Untouched(fs, fs', j);
      SameNode(fs, fs', j);
    }
  }

  lemma DeleteRefines(fs: Fs, fs': Fs, d: nat, name: seq<Byte>, e: Word)
    requires Deleted(fs, fs', d, name, e)
    ensures var c := DeleteIn(d, name, e); Applicable(c, View(fs)) && View(fs') == Apply(c, View(fs))
  {
    DeleteNode(fs, fs', d, name, e, d);
    var v, v' := Apply(DeleteIn(d, name, e), View(fs)), View(fs');
    forall j | 0 <= j < |v'| ensures v'[j] == v[j] {
      DeleteNode(fs, fs', d, name, e, j);
    }
  }

  /** Each change of the disk is the change of the view. */
  lemma DoesRefines(c: Change, fs: Fs, fs': Fs)
    requires Does(c, fs, fs')
    ensures TreeOk(fs) && TreeOk(fs') && Applicable(c, View(fs)) && View(fs') == Apply(c, View(fs))
  {
    match c
    case WriteAt(i, offset, bytes) => WriteRefines(fs, fs', i, offset, bytes);
    case CreateIn(d, name, e, kind, fits) => CreateRefines(fs, fs', d, name, e, kind);
    case DeleteIn(d, name, e) => DeleteRefines(fs, fs', d, name, e);
  }

  // -------------------------------------------------------------------- whole runs

  ghost predicate Run(run: seq<Fs>, cs: seq<Change>) {
    |run| == |cs| + 1 && forall k {:trigger cs[k]} :: 0 <= k < |cs| ==> Does(cs[k], run[k], run[k + 1])
  }

  /** v' follows from v by the changes, each applicable in its turn. */
  ghost predicate Follows(v: seq<Node>, cs: seq<Change>, v': seq<Node>)
    decreases |cs|
  {
    if cs == [] then v' == v else Applicable(cs[0], v) && Follows(Apply(cs[0], v), cs[1..], v')
  }

  /**
   Every run of writes, creations and deletions keeps the disk consistent and is a run on byte arrays
   and finite maps.
   */
  lemma {:induction false} RunRefines(run: seq<Fs>, cs: seq<Change>)
    requires Run(run, cs) && TreeOk(run[0])
    ensures TreeOk(run[|cs|]) && Follows(View(run[0]), cs, View(run[|cs|]))
    decreases |cs|
  {
    if cs != [] {
      DoesRefines(cs[0], run[0], run[1]);
      assert Run(run[1..], cs[1..]) by {
        assert forall k {:trigger cs[1..][k]} :: 0 <= k < |cs[1..]| ==> cs[1..][k] == cs[k + 1];
      }
      RunRefines(run[1..], cs[1..]);
    }
  }
}
