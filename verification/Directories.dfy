/**
 Directories as files: 32-byte entries holding an inode number and a name, read as a finite map from
 names to inodes; what creating and deleting a file does to that map and to every other directory.
 */
module Directories {
  import opened Words
  import opened DiskFormat
  import opened FileBlocks

  const KIND_DIR: Word := 2

  const ENTRY: nat := 32

  const NAME_BYTES: nat := 28

  // ------------------------------------------------------------------- entries

  datatype Entry = Entry(ino: Word, name: seq<Byte>)

  /** A C string: no zero bytes. */
  predicate IsName(name: seq<Byte>) {
    forall k :: 0 <= k < |name| ==> name[k] != 0
  }

  /** The bytes up to the first zero. */
  function CString(b: seq<Byte>): (s: seq<Byte>)
    ensures IsName(s)
  {
    if b == [] || b[0] == 0 then [] else [b[0]] + CString(b[1..])
  }

  lemma {:induction false} CStringOfPadded(name: seq<Byte>, pad: seq<Byte>)
    requires IsName(name) && |pad| > 0 && pad[0] == 0
    ensures CString(name + pad) == name
    decreases |name|
  {
    if name == [] {
      assert name + pad == pad;
    } else {
      assert (name + pad)[1..] == name[1..] + pad;
      CStringOfPadded(name[1..], pad);
    }
  }

  function Zeros(n: nat): (z: seq<Byte>)
    ensures |z| == n
  {
    seq(n, _ => 0)
  }

  /** A new directory entry: strncpy pads the name with zeros. */
  function EntryBytes(ino: Word, name: seq<Byte>): (b: seq<Byte>)
    requires |name| < NAME_BYTES
    ensures |b| == ENTRY
  {
    LittleEndian(ino) + name + Zeros(NAME_BYTES - |name|)
  }

  function EntryOf(b: seq<Byte>): Entry
    requires |b| == ENTRY
  {
    Entry(WordOf(b[..4]), CString(b[4..]))
  }

  lemma EntryRoundTrip(ino: Word, name: seq<Byte>)
    requires IsName(name) && |name| < NAME_BYTES
    ensures EntryOf(EntryBytes(ino, name)) == Entry(ino, name)
  {
    var b := EntryBytes(ino, name);
    assert b[..4] == LittleEndian(ino);
    assert b[4..] == name + Zeros(NAME_BYTES - |name|);
    WordRoundTrip(ino);
    CStringOfPadded(name, Zeros(NAME_BYTES - |name|));
  }

  /** The entry with its inode number set to zero; the name bytes stay. */
  function Cleared(b: seq<Byte>): (r: seq<Byte>)
    requires |b| == ENTRY
    ensures |r| == ENTRY
  {
    LittleEndian(0) + b[4..]
  }

  lemma ClearedEntry(b: seq<Byte>)
    requires |b| == ENTRY
    ensures EntryOf(Cleared(b)) == Entry(0, EntryOf(b).name)
  {
    WordRoundTrip(0);
    assert Cleared(b)[..4] == LittleEndian(0) && Cleared(b)[4..] == b[4..];
  }

  /** The i-th entry of a directory's content. */
  function EntryAt(c: seq<Byte>, i: nat): Entry
    requires ENTRY * i + ENTRY <= |c|
  {
    EntryOf(c[ENTRY * i..ENTRY * i + ENTRY])
  }

  function Entries(c: seq<Byte>): (es: seq<Entry>)
    ensures |es| == |c| / ENTRY
  {
    seq(|c| / ENTRY, i requires 0 <= i < |c| / ENTRY => EntryAt(c, i))
  }

  /** Writing one entry over the i-th place, or just past the last, replaces or appends that entry. */
  lemma EntryWritten(c: seq<Byte>, i: nat, b: seq<Byte>)
    requires |c| % ENTRY == 0 && |b| == ENTRY && ENTRY * i <= |c|
    ensures |Splice(c, ENTRY * i, b)| % ENTRY == 0
    ensures Entries(Splice(c, ENTRY * i, b)) ==
            if i < |Entries(c)| then Entries(c)[i := EntryOf(b)] else Entries(c) + [EntryOf(b)]
  {
    var c' := Splice(c, ENTRY * i, b);
    var es' := if i < |Entries(c)| then Entries(c)[i := EntryOf(b)] else Entries(c) + [EntryOf(b)];
    assert |c'| == if i < |Entries(c)| then |c| else |c| + ENTRY;
    assert |Entries(c')| == |es'|;
    forall k | 0 <= k < |es'| ensures Entries(c')[k] == es'[k] {
      assert c'[ENTRY * k..ENTRY * k + ENTRY] == if k == i then b else c[ENTRY * k..ENTRY * k + ENTRY];
    }
  }

  ghost predicate Lists1(c: seq<Byte>, es: seq<Entry>, i: nat)
    requires |es| == |c| / ENTRY && i < |es|
  {
    es[i] == EntryAt(c, i)
  }

  /** es are the entries of c. */
  ghost predicate Lists(c: seq<Byte>, es: seq<Entry>) {
    |es| == |c| / ENTRY && forall i {:trigger Lists1(c, es, i)} :: 0 <= i < |es| ==> Lists1(c, es, i)
  }

  lemma ListsEntries(c: seq<Byte>)
    ensures Lists(c, Entries(c))
  {
  }

  // ------------------------------------------------------------- names to inodes

  /** No two live entries have the same name. */
  ghost predicate UniqueNames(es: seq<Entry>) {
    forall i, j :: 0 <= i < j < |es| && es[i].ino != 0 && es[j].ino != 0 ==> es[i].name != es[j].name
  }

  /** The finite map the first k entries stand for. */
  ghost function ListingUpTo(es: seq<Entry>, k: nat): map<seq<Byte>, Word>
    requires k <= |es|
  {
    if k == 0 then map[]
    else if es[k - 1].ino == 0 then ListingUpTo(es, k - 1)
    else ListingUpTo(es, k - 1)[es[k - 1].name := es[k - 1].ino]
  }

  /** The finite map a directory stands for. */
  ghost function Listing(es: seq<Entry>): map<seq<Byte>, Word> {
    ListingUpTo(es, |es|)
  }

  /** A name is bound when a live entry has it, and to that entry's inode. */
  lemma {:induction false} BoundByEntry(es: seq<Entry>, k: nat, i: nat)
    requires UniqueNames(es) && i < k <= |es| && es[i].ino != 0
    ensures es[i].name in ListingUpTo(es, k) && ListingUpTo(es, k)[es[i].name] == es[i].ino
  {
    if i < k - 1 { BoundByEntry(es, k - 1, i); }
  }

  lemma {:induction false} BoundOnlyByEntry(es: seq<Entry>, k: nat, name: seq<Byte>)
    requires k <= |es| && forall i :: 0 <= i < k && es[i].ino != 0 ==> es[i].name != name
    ensures name !in ListingUpTo(es, k)
  {
    if k > 0 { BoundOnlyByEntry(es, k - 1, name); }
  }

  /** The first live entry with the name at or after i, or -1. */
  function FirstNamed(es: seq<Entry>, name: seq<Byte>, i: nat): (r: int)
    requires i <= |es|
    ensures r >= 0 ==> i <= r < |es| && es[r].ino != 0 && es[r].name == name
    ensures r < 0 ==> r == -1 && forall k :: i <= k < |es| ==> !(es[k].ino != 0 && es[k].name == name)
    decreases |es| - i
  {
    if i == |es| then -1
    else if es[i].ino != 0 && es[i].name == name then i
    else FirstNamed(es, name, i + 1)
  }

  /** The result of diskfs_lookup on a directory. */
  function Find(es: seq<Entry>, name: seq<Byte>): int {
    var i := FirstNamed(es, name, 0);
    if i < 0 then -1 else es[i].ino
  }

  /** Lookup is application of the map. */
  lemma FindIsListing(es: seq<Entry>, name: seq<Byte>)
    requires UniqueNames(es)
    ensures name in Listing(es) <==> Find(es, name) >= 0
    ensures name in Listing(es) ==> Listing(es)[name] == Find(es, name) && Find(es, name) != 0
  {
    var i := FirstNamed(es, name, 0);
    if i < 0 {
      BoundOnlyByEntry(es, |es|, name);
    } else {
      BoundByEntry(es, |es|, i);
    }
  }

  lemma {:induction false} ListingOfPrefix(es: seq<Entry>, e: Entry, k: nat)
    requires k <= |es|
    ensures ListingUpTo(es + [e], k) == ListingUpTo(es, k)
  {
    if k > 0 { ListingOfPrefix(es, e, k - 1); }
  }

  /** A new entry with a new name adds one binding. */
  lemma ListingAppended(es: seq<Entry>, e: Entry)
    requires UniqueNames(es) && e.ino != 0 && e.name !in Listing(es)
    ensures UniqueNames(es + [e]) && Listing(es + [e]) == Listing(es)[e.name := e.ino]
  {
    FindIsListing(es, e.name);
    ListingOfPrefix(es, e, |es|);
  }

  lemma {:induction false} ListingClearedUpTo(es: seq<Entry>, i: nat, k: nat)
    requires UniqueNames(es) && i < |es| && es[i].ino != 0 && k <= |es|
    ensures ListingUpTo(es[i := Entry(0, es[i].name)], k) == ListingUpTo(es, k) - {es[i].name}
  {
    if k > 0 {
      ListingClearedUpTo(es, i, k - 1);
    }
  }

  /** Clearing an entry removes its binding and no other. */
  lemma ListingCleared(es: seq<Entry>, i: nat)
    requires UniqueNames(es) && i < |es| && es[i].ino != 0
    ensures UniqueNames(es[i := Entry(0, es[i].name)])
    ensures Listing(es[i := Entry(0, es[i].name)]) == Listing(es) - {es[i].name}
    ensures es[i].name in Listing(es) && Listing(es)[es[i].name] == es[i].ino
  {
    BoundByEntry(es, |es|, i);
    ListingClearedUpTo(es, i, |es|);
  }

  // --------------------------------------------------------- the tree of directories

  ghost predicate IsDir(fs: Fs, d: nat) {
    d < |fs.inodes| && d < |fs.live| && fs.live[d] && fs.inodes[d].kind == KIND_DIR
  }

  /** Whole entries, unique names, terminated, naming live inodes. */
  ghost predicate DirOk(fs: Fs, d: nat)
    requires Shape(fs) && d < |fs.inodes|
  {
    && FileOk(fs, d) && |Content(fs, d)| % ENTRY == 0 && EntriesOk(Entries(Content(fs, d)), fs.live)
  }

  ghost predicate EntriesOk(es: seq<Entry>, live: seq<bool>) {
    && UniqueNames(es)
    && forall i :: 0 <= i < |es| && es[i].ino != 0 ==>
        es[i].ino < |live| && live[es[i].ino] && |es[i].name| < NAME_BYTES
  }

  ghost function Dir(fs: Fs, d: nat): (es: seq<Entry>)
    requires Shape(fs) && d < |fs.inodes| && DirOk(fs, d)
    ensures EntriesOk(es, fs.live)
  {
    Entries(Content(fs, d))
  }

  /** An inode is named by one entry of one directory at most. */
  ghost predicate NamesOnce(fs: Fs, d: nat, d': nat)
    requires Shape(fs) && d < |fs.inodes| && d' < |fs.inodes| && DirOk(fs, d) && DirOk(fs, d')
  {
    Distinct(Dir(fs, d), Dir(fs, d'), d == d')
  }

  ghost predicate Distinct(es: seq<Entry>, es': seq<Entry>, same: bool) {
    forall i, j :: 0 <= i < |es| && 0 <= j < |es'| && es[i].ino != 0 && es[i].ino == es'[j].ino ==> same && i == j
  }

  ghost predicate TreeOk(fs: Fs) {
    && FsOk(fs) && IsDir(fs, 0)
    && (forall d {:trigger DirOk(fs, d)} :: 0 <= d < |fs.inodes| && IsDir(fs, d) ==> DirOk(fs, d))
    && (forall d, d' {:trigger NamesOnce(fs, d, d')} ::
          0 <= d < |fs.inodes| && 0 <= d' < |fs.inodes| && IsDir(fs, d) && IsDir(fs, d') ==> NamesOnce(fs, d, d'))
  }

  /** Directory d has the same entries in both. */
  ghost predicate SameDir(fs: Fs, fs': Fs, d: nat) {
    && Shape(fs) && Shape(fs') && d < |fs.inodes| && d < |fs'.inodes| && DirOk(fs, d) && DirOk(fs', d)
    && Dir(fs', d) == Dir(fs, d)
  }

  /** Every directory of fs' other than d was one in fs, with the same entries. */
  ghost predicate OtherDirsSame(fs: Fs, fs': Fs, d: nat) {
    forall d' {:trigger SameDir(fs, fs', d')} :: 0 <= d' < |fs'.inodes| && d' != d && IsDir(fs', d') ==>
        IsDir(fs, d') && SameDir(fs, fs', d')
  }

  /** No directory entry names the inode. */
  ghost predicate Unnamed(fs: Fs, e: nat)
    requires TreeOk(fs)
  {
    forall d {:trigger DirOk(fs, d)} :: 0 <= d < |fs.inodes| && IsDir(fs, d) ==> DirOk(fs, d) && NotIn(Dir(fs, d), e)
  }

  ghost predicate NotIn(es: seq<Entry>, e: nat) {
    forall i :: 0 <= i < |es| ==> es[i].ino != e
  }

  // ---------------------------------------------------------------- a new inode

  lemma NewInodeDir(fs: Fs, e: nat, f: Inode, d: nat)
    requires TreeOk(fs) && e < |fs.inodes| && !fs.live[e] && EmptyFile(f)
    requires d < |fs.inodes| && IsDir(fs.(inodes := fs.inodes[e := f], live := fs.live[e := true]), d)
    ensures var fs' := fs.(inodes := fs.inodes[e := f], live := fs.live[e := true]);
            && FsOk(fs') && DirOk(fs', d) && NotIn(Dir(fs', d), e)
            && if d == e then Dir(fs', d) == [] else IsDir(fs, d) && SameDir(fs, fs', d)
  {
    var fs' := fs.(inodes := fs.inodes[e := f], live := fs.live[e := true]);
    NewFileOk(fs, e, f);
    if d != e {
      assert DirOk(fs, d) && FileOk(fs, d);
      assert EntriesOk(Dir(fs, d), fs'.live);
    }
  }

  /** Allocating an inode leaves every directory as it was; the new inode is not named yet. */
  lemma NewInode(fs: Fs, e: nat, f: Inode)
    requires TreeOk(fs) && e < |fs.inodes| && !fs.live[e] && EmptyFile(f)
    ensures var fs' := fs.(inodes := fs.inodes[e := f], live := fs.live[e := true]);
            TreeOk(fs') && Unnamed(fs', e) && OtherDirsSame(fs, fs', e) && e != 0
  {
    var fs' := fs.(inodes := fs.inodes[e := f], live := fs.live[e := true]);
    NewFileOk(fs, e, f);
    forall d | 0 <= d < |fs'.inodes| && IsDir(fs', d)
      ensures DirOk(fs', d) && NotIn(Dir(fs', d), e)
      ensures d != e ==> IsDir(fs, d) && SameDir(fs, fs', d)
    {
      NewInodeDir(fs, e, f, d);
    }
    forall d, d' | 0 <= d < |fs'.inodes| && 0 <= d' < |fs'.inodes| && IsDir(fs', d) && IsDir(fs', d')
      ensures NamesOnce(fs', d, d')
    {
      NewInodeDir(fs, e, f, d);
      NewInodeDir(fs, e, f, d');
      assert d != e && d' != e ==> NamesOnce(fs, d, d');
    }
  }

  // ------------------------------------------------------------ an appended entry

  lemma AppendedContent(c: seq<Byte>, e: Word, name: seq<Byte>)
    requires |c| % ENTRY == 0 && IsName(name) && |name| < NAME_BYTES
    ensures var c' := Splice(c, |c|, EntryBytes(e, name));
            |c'| % ENTRY == 0 && Entries(c') == Entries(c) + [Entry(e, name)]
  {
    assert ENTRY * (|c| / ENTRY) == |c|;
    EntryWritten(c, |c| / ENTRY, EntryBytes(e, name));
    EntryRoundTrip(e, name);
  }

  lemma AppendedOk(es: seq<Entry>, live: seq<bool>, e: Word, name: seq<Byte>)
    requires EntriesOk(es, live) && name !in Listing(es) && e != 0 && e < |live| && live[e] && |name| < NAME_BYTES
    ensures EntriesOk(es + [Entry(e, name)], live)
  {
    ListingAppended(es, Entry(e, name));
  }

  lemma AppendedDir(fs: Fs, fs': Fs, d: nat, e: Word, name: seq<Byte>)
    requires TreeOk(fs) && IsDir(fs, d) && e < |fs.live| && fs.live[e] && e != 0 && IsName(name)
    requires |name| < NAME_BYTES && DirOk(fs, d)
    requires name !in Listing(Dir(fs, d)) && Written(fs, fs', d, |Content(fs, d)|, EntryBytes(e, name))
    ensures DirOk(fs', d) && Dir(fs', d) == Dir(fs, d) + [Entry(e, name)]
  {
    assert FileAfter(fs, fs', d, |Content(fs, d)|, EntryBytes(e, name), d);
    AppendedContent(Content(fs, d), e, name);
    AppendedOk(Dir(fs, d), fs.live, e, name);
  }

  /** A directory that was not written to is as before. */
  lemma UnwrittenDir(fs: Fs, fs': Fs, d: nat, offset: nat, bytes: seq<Byte>, d': nat)
    requires TreeOk(fs) && Written(fs, fs', d, offset, bytes) && d' < |fs'.inodes| && IsDir(fs', d') && d' != d
    ensures IsDir(fs, d') && SameDir(fs, fs', d')
  {
    assert FileAfter(fs, fs', d, offset, bytes, d');
    assert DirOk(fs, d');
  }

  /** Entry e of d named a fresh inode: still no inode is named twice. */
  lemma DistinctAppended(es: seq<Entry>, es': seq<Entry>, same: bool, e: Entry)
    requires Distinct(es, es', same) && Distinct(es', es, same) && NotIn(es, e.ino) && NotIn(es', e.ino)
    requires (same ==> es == es')
    ensures if same then Distinct(es + [e], es + [e], true)
        else Distinct(es + [e], es', false) && Distinct(es', es + [e], false)
  {
  }

  lemma AppendedOnce(fs: Fs, fs': Fs, d: nat, e: Entry, d1: nat, d2: nat)
    requires TreeOk(fs) && Unnamed(fs, e.ino) && Shape(fs') && |fs'.inodes| == |fs.inodes|
    requires IsDir(fs, d) && DirOk(fs, d) && d < |fs'.inodes| && DirOk(fs', d) && Dir(fs', d) == Dir(fs, d) + [e]
    requires IsDir(fs, d1) && IsDir(fs, d2) && (d1 != d ==> SameDir(fs, fs', d1)) && (d2 != d ==> SameDir(fs, fs', d2))
    ensures NamesOnce(fs', d1, d2)
  {
    assert DirOk(fs, d1) && DirOk(fs, d2) && NamesOnce(fs, d1, d2) && NamesOnce(fs, d2, d1);
    if d1 == d {
      DistinctAppended(Dir(fs, d), Dir(fs, d2), d2 == d, e);
    } else if d2 == d {
      DistinctAppended(Dir(fs, d), Dir(fs, d1), false, e);
    }
  }

  /** Writing an entry at the end of a directory adds one name there and changes no other directory. */
  lemma EntryAppended(fs: Fs, fs': Fs, d: nat, e: Word, name: seq<Byte>)
    requires TreeOk(fs) && IsDir(fs, d) && e < |fs.live| && fs.live[e] && e != 0 && IsName(name)
    requires |name| < NAME_BYTES && DirOk(fs, d)
    requires name !in Listing(Dir(fs, d)) && Written(fs, fs', d, |Content(fs, d)|, EntryBytes(e, name))
    requires Unnamed(fs, e)
    ensures TreeOk(fs') && OtherDirsSame(fs, fs', d) && IsDir(fs', d) && DirOk(fs', d)
    ensures Dir(fs', d) == Dir(fs, d) + [Entry(e, name)]
  {
    var offset, bytes := |Content(fs, d)|, EntryBytes(e, name);
    AppendedDir(fs, fs', d, e, name);
    forall d' | 0 <= d' < |fs'.inodes| && IsDir(fs', d') && d' != d ensures IsDir(fs, d') && SameDir(fs, fs', d') {
      UnwrittenDir(fs, fs', d, offset, bytes, d');
    }
    forall d1, d2 | 0 <= d1 < |fs'.inodes| && 0 <= d2 < |fs'.inodes| && IsDir(fs', d1) && IsDir(fs', d2)
      ensures NamesOnce(fs', d1, d2)
    {
      if d1 != d { UnwrittenDir(fs, fs', d, offset, bytes, d1); }
      if d2 != d { UnwrittenDir(fs, fs', d, offset, bytes, d2); }
      AppendedOnce(fs, fs', d, Entry(e, name), d1, d2);
    }
    DirsKept(fs, fs', d, offset, bytes);
  }

  /** Writing to a directory keeps it one, and the root. */
  lemma DirsKept(fs: Fs, fs': Fs, d: nat, offset: nat, bytes: seq<Byte>)
    requires TreeOk(fs) && Written(fs, fs', d, offset, bytes) && IsDir(fs, d)
    ensures IsDir(fs', d) && IsDir(fs', 0)
  {
    assert FileAfter(fs, fs', d, offset, bytes, d) && FileAfter(fs, fs', d, offset, bytes, 0);
  }

  lemma WriteKeepsDir(fs: Fs, fs': Fs, i: nat, offset: nat, bytes: seq<Byte>, d: nat)
    requires TreeOk(fs) && Written(fs, fs', i, offset, bytes) && (IsDir(fs, i) ==> bytes == [])
    requires d < |fs'.inodes| && IsDir(fs', d)
    ensures IsDir(fs, d) && SameDir(fs, fs', d)
  {
    assert FileAfter(fs, fs', i, offset, bytes, d);
    assert DirOk(fs, d);
    if d == i { assert Splice(Content(fs, d), offset, []) == Content(fs, d); }
  }

  lemma SameDirsOnce(fs: Fs, fs': Fs, d: nat, d': nat)
    requires TreeOk(fs) && IsDir(fs, d) && IsDir(fs, d') && SameDir(fs, fs', d) && SameDir(fs, fs', d')
    ensures NamesOnce(fs', d, d')
  {
    assert NamesOnce(fs, d, d');
  }

  /** A write that changes no directory's content keeps the tree: to a plain file, or of no bytes. */
  lemma WriteKeepsTree(fs: Fs, fs': Fs, i: nat, offset: nat, bytes: seq<Byte>)
    requires TreeOk(fs) && Written(fs, fs', i, offset, bytes) && (IsDir(fs, i) ==> bytes == [])
    ensures TreeOk(fs')
    ensures forall d {:trigger SameDir(fs, fs', d)} :: 0 <= d < |fs'.inodes| && IsDir(fs', d) ==>
        IsDir(fs, d) && SameDir(fs, fs', d)
  {
    assert IsDir(fs', 0) by { assert FileAfter(fs, fs', i, offset, bytes, 0); }
    forall d | 0 <= d < |fs'.inodes| && IsDir(fs', d) ensures IsDir(fs, d) && SameDir(fs, fs', d) {
      WriteKeepsDir(fs, fs', i, offset, bytes, d);
    }
    forall d, d' | 0 <= d < |fs'.inodes| && 0 <= d' < |fs'.inodes| && IsDir(fs', d) && IsDir(fs', d')
      ensures NamesOnce(fs', d, d')
    {
      WriteKeepsDir(fs, fs', i, offset, bytes, d);
      WriteKeepsDir(fs, fs', i, offset, bytes, d');
      SameDirsOnce(fs, fs', d, d');
    }
  }

  // ------------------------------------------------------------- a removed entry

  /** The entry that lookup found is the only one that names the inode. */
  lemma NamedOnceAt(es: seq<Entry>, name: seq<Byte>, e: Word)
    requires UniqueNames(es) && Distinct(es, es, true) && name in Listing(es) && Listing(es)[name] == e
    ensures var k := FirstNamed(es, name, 0);
            && 0 <= k < |es| && es[k] == Entry(e, name) && e != 0
            && forall i :: 0 <= i < |es| && i != k ==> es[i].ino != e
  {
    FindIsListing(es, name);
  }

  /** Its position. */
  ghost function NamedAt(fs: Fs, d: nat, name: seq<Byte>, e: nat): (k: nat)
    requires TreeOk(fs) && IsDir(fs, d) && DirOk(fs, d) && name in Listing(Dir(fs, d))
    requires Listing(Dir(fs, d))[name] == e && e < |fs.inodes|
    ensures k < |Dir(fs, d)| && Dir(fs, d)[k] == Entry(e, name)
    ensures forall i :: 0 <= i < |Dir(fs, d)| && i != k ==> Dir(fs, d)[i].ino != e
    ensures fs.inodes[d].size > 0 && ENTRY * k + ENTRY <= |Content(fs, d)|
  {
    assert NamesOnce(fs, d, d);
    NamedOnceAt(Dir(fs, d), name, e);
    FirstNamed(Dir(fs, d), name, 0)
  }

  /** mid is fs with inode e and its blocks freed. */
  ghost predicate Dropped(fs: Fs, mid: Fs, e: nat) {
    && e < |fs.inodes| && e < |fs.live|
    && BlocksReleased(fs.used, mid.used, fs.inodes[e]) && mid == fs.(live := fs.live[e := false], used := mid.used)
  }

  /** mid is fs without inode e; fs' is mid with the entry for e in directory d cleared. */
  ghost predicate Removal(fs: Fs, mid: Fs, fs': Fs, d: nat, i: nat, e: nat) {
    && TreeOk(fs) && IsDir(fs, d) && DirOk(fs, d) && i < |Dir(fs, d)| && Dir(fs, d)[i].ino == e != 0 && e != d
        && e < |fs.inodes|
    && Dropped(fs, mid, e)
    && ENTRY * i + ENTRY <= |Content(fs, d)|
    && Written(mid, fs', d, ENTRY * i, Cleared(Content(fs, d)[ENTRY * i..ENTRY * i + ENTRY]))
  }

  /** The contents through both steps. */
  lemma RemovalContent(fs: Fs, mid: Fs, fs': Fs, d: nat, i: nat, e: nat, d': nat)
    requires Removal(fs, mid, fs', d, i, e) && d' < |fs'.inodes| && IsDir(fs', d')
    ensures IsDir(fs, d') && DirOk(fs, d') && d' != e && FileOk(fs', d')
    ensures Content(fs', d') == if d' != d then Content(fs, d')
        else Splice(Content(fs, d), ENTRY * i, Cleared(Content(fs, d)[ENTRY * i..ENTRY * i + ENTRY]))
  {
    DropFileOk(fs, e, mid.used);
    var bytes := Cleared(Content(fs, d)[ENTRY * i..ENTRY * i + ENTRY]);
    assert FileAfter(mid, fs', d, ENTRY * i, bytes, d');
    assert FileOk(fs, d') && DirOk(fs, d');
  }

  /** Without the one entry naming e, the entries name live inodes even when e is freed. */
  lemma ClearedOk(es: seq<Entry>, live: seq<bool>, i: nat)
    requires EntriesOk(es, live) && Distinct(es, es, true) && i < |es| && es[i].ino != 0
    ensures EntriesOk(es[i := Entry(0, es[i].name)], live[es[i].ino := false])
  {
  }

  lemma OthersOk(es: seq<Entry>, live: seq<bool>, es': seq<Entry>, i: nat)
    requires EntriesOk(es, live) && EntriesOk(es', live) && Distinct(es, es', false) && i < |es| && es[i].ino != 0
    ensures EntriesOk(es', live[es[i].ino := false])
  {
  }

  lemma ClearedContent(c: seq<Byte>, i: nat)
    requires |c| % ENTRY == 0 && ENTRY * i + ENTRY <= |c|
    ensures var c' := Splice(c, ENTRY * i, Cleared(c[ENTRY * i..ENTRY * i + ENTRY]));
            |c'| % ENTRY == 0 && i < |Entries(c)| && Entries(c') == Entries(c)[i := Entry(0, Entries(c)[i].name)]
  {
    EntryWritten(c, i, Cleared(c[ENTRY * i..ENTRY * i + ENTRY]));
    ClearedEntry(c[ENTRY * i..ENTRY * i + ENTRY]);
  }

  lemma RemovalDir(fs: Fs, mid: Fs, fs': Fs, d: nat, i: nat, e: nat, d': nat)
    requires Removal(fs, mid, fs', d, i, e) && d' < |fs'.inodes| && IsDir(fs', d')
    ensures IsDir(fs, d') && DirOk(fs, d') && DirOk(fs', d')
    ensures Dir(fs', d') == if d' == d then Dir(fs, d)[i := Entry(0, Dir(fs, d)[i].name)] else Dir(fs, d')
  {
    RemovalContent(fs, mid, fs', d, i, e, d');
    assert NamesOnce(fs, d, d');
    if d' == d {
      ClearedContent(Content(fs, d), i);
      ClearedOk(Dir(fs, d), fs.live, i);
    } else {
      OthersOk(Dir(fs, d), fs.live, Dir(fs, d'), i);
    }
  }

  lemma RemovalKeepsDirs(fs: Fs, mid: Fs, fs': Fs, d: nat, i: nat, e: nat)
    requires Removal(fs, mid, fs', d, i, e)
    ensures IsDir(fs', d) && IsDir(fs', 0) && FsOk(fs')
  {
    var bytes := Cleared(Content(fs, d)[ENTRY * i..ENTRY * i + ENTRY]);
    assert FileAfter(mid, fs', d, ENTRY * i, bytes, d) && FileAfter(mid, fs', d, ENTRY * i, bytes, 0);
  }

  /** The entries of es, some of them cleared. */
  ghost predicate Fewer(es: seq<Entry>, less: seq<Entry>) {
    |less| == |es| && forall k :: 0 <= k < |es| ==> less[k].ino == 0 || less[k].ino == es[k].ino
  }

  lemma DistinctFewer(es: seq<Entry>, es': seq<Entry>, less: seq<Entry>, less': seq<Entry>, same: bool)
    requires Distinct(es, es', same) && Fewer(es, less) && Fewer(es', less')
    ensures Distinct(less, less', same)
  {
  }

  lemma RemovalFewer(fs: Fs, mid: Fs, fs': Fs, d: nat, i: nat, e: nat, d': nat)
    requires Removal(fs, mid, fs', d, i, e) && d' < |fs'.inodes| && IsDir(fs', d')
    ensures IsDir(fs, d') && DirOk(fs, d') && DirOk(fs', d') && Fewer(Dir(fs, d'), Dir(fs', d'))
  {
    RemovalDir(fs, mid, fs', d, i, e, d');
  }

  lemma RemovalOnce(fs: Fs, mid: Fs, fs': Fs, d: nat, i: nat, e: nat, d1: nat, d2: nat)
    requires Removal(fs, mid, fs', d, i, e) && d1 < |fs'.inodes| && IsDir(fs', d1) && d2 < |fs'.inodes|
    requires IsDir(fs', d2)
    ensures DirOk(fs', d1) && DirOk(fs', d2) && NamesOnce(fs', d1, d2)
  {
    RemovalFewer(fs, mid, fs', d, i, e, d1);
    RemovalFewer(fs, mid, fs', d, i, e, d2);
    assert NamesOnce(fs, d1, d2);
    DistinctFewer(Dir(fs, d1), Dir(fs, d2), Dir(fs', d1), Dir(fs', d2), d1 == d2);
  }

  /** Deleting removes exactly one name, from one directory. */
  lemma EntryRemoved(fs: Fs, mid: Fs, fs': Fs, d: nat, i: nat, e: nat)
    requires Removal(fs, mid, fs', d, i, e)
    ensures TreeOk(fs') && OtherDirsSame(fs, fs', d) && IsDir(fs', d) && DirOk(fs', d)
    ensures Dir(fs', d) == Dir(fs, d)[i := Entry(0, Dir(fs, d)[i].name)]
  {
    RemovalKeepsDirs(fs, mid, fs', d, i, e);
    RemovalDir(fs, mid, fs', d, i, e, d);
    forall d' | 0 <= d' < |fs'.inodes| && IsDir(fs', d')
      ensures DirOk(fs', d') && IsDir(fs, d') && (d' != d ==> SameDir(fs, fs', d'))
    {
      RemovalDir(fs, mid, fs', d, i, e, d');
    }
    forall d1, d2 | 0 <= d1 < |fs'.inodes| && 0 <= d2 < |fs'.inodes| && IsDir(fs', d1) && IsDir(fs', d2)
      ensures NamesOnce(fs', d1, d2)
    {
      RemovalOnce(fs, mid, fs', d, i, e, d1, d2);
    }
  }

  // --------------------------------------------------------- create and delete

  /**
   Room for one more entry: the directory is not at its maximum, and its last block is not full or the
   disk has a free one.
   */
  ghost predicate Room(fs: Fs, d: nat)
    requires d < |fs.inodes|
  {
    fs.inodes[d].size < MAX_FILE_SIZE && (fs.inodes[d].size % 512 != 0 || exists b :: 0 <= b < |fs.used| && !fs.used[b])
  }

  /** Every live file of fs other than d is the same in fs'. */
  ghost predicate OtherFilesSame(fs: Fs, fs': Fs, d: nat) {
    && Shape(fs) && Shape(fs') && |fs'.inodes| == |fs.inodes|
    && forall j {:trigger Untouched(fs, fs', j)} :: 0 <= j < |fs.inodes| && fs.live[j] && fs'.live[j] && j != d ==>
        Untouched(fs, fs', j)
  }

  /** Directory d of both, the same but for the change to its map. */
  ghost predicate Relisted(fs: Fs, fs': Fs, d: nat, m: map<seq<Byte>, Word>) {
    Shape(fs') && d < |fs'.inodes| && IsDir(fs', d) && DirOk(fs', d) && Listing(Dir(fs', d)) == m
  }

  /** A new empty file e of the given kind, named in d if there was room. */
  ghost predicate Created(fs: Fs, fs': Fs, d: nat, name: seq<Byte>, e: nat, kind: Word) {
    && TreeOk(fs) && TreeOk(fs') && IsDir(fs, d) && DirOk(fs, d) && e < |fs.live| && !fs.live[e]
        && fs'.live == fs.live[e := true]
    && OtherFilesSame(fs, fs', d)
    && FileOk(fs', e) && Content(fs', e) == [] && fs'.inodes[e].kind == kind
    && e < 0x1_0000_0000 && name !in Listing(Dir(fs, d))
    && Relisted(fs, fs', d, if Room(fs, d) then Listing(Dir(fs, d))[name := e] else Listing(Dir(fs, d)))
  }

  /** File e is gone and its name with it. */
  ghost predicate Deleted(fs: Fs, fs': Fs, d: nat, name: seq<Byte>, e: nat) {
    && TreeOk(fs) && TreeOk(fs') && IsDir(fs, d) && DirOk(fs, d) && e < |fs.live| && fs.live[e]
        && fs'.live == fs.live[e := false]
    && OtherFilesSame(fs, fs', d)
    && name in Listing(Dir(fs, d)) && Listing(Dir(fs, d))[name] == e && e != d
    && Relisted(fs, fs', d, Listing(Dir(fs, d)) - {name})
  }

  /** mid is fs with the empty file f in free inode e; fs' is mid with the entry appended to d, if it fits. */
  ghost predicate Creation(fs: Fs, mid: Fs, fs': Fs, d: nat, name: seq<Byte>, e: Word, f: Inode, fits: bool) {
    && TreeOk(fs) && IsDir(fs, d) && DirOk(fs, d) && e < |fs.inodes| && !fs.live[e] && EmptyFile(f)
    && mid == fs.(inodes := fs.inodes[e := f], live := fs.live[e := true]) && FileOk(fs, d)
    && IsName(name) && |name| < NAME_BYTES && name !in Listing(Dir(fs, d))
    && Written(mid, fs', d, |Content(fs, d)|, if fits then EntryBytes(e, name) else [])
  }

  lemma CreationTree(fs: Fs, mid: Fs, fs': Fs, d: nat, name: seq<Byte>, e: Word, f: Inode, fits: bool)
    requires Creation(fs, mid, fs', d, name, e, f, fits)
    ensures TreeOk(fs') && Relisted(fs, fs', d, if fits then Listing(Dir(fs, d))[name := e] else Listing(Dir(fs, d)))
  {
    NewInode(fs, e, f);
    assert SameDir(fs, mid, d);
    NewFileOk(fs, e, f);
    assert Content(mid, d) == Content(fs, d);
    if fits {
      EntryAppended(mid, fs', d, e, name);
      ListingAppended(Dir(fs, d), Entry(e, name));
    } else {
      WriteKeepsTree(mid, fs', d, |Content(fs, d)|, []);
      DirsKept(mid, fs', d, |Content(fs, d)|, []);
      assert SameDir(mid, fs', d);
    }
  }

  lemma CreationFiles(fs: Fs, mid: Fs, fs': Fs, d: nat, name: seq<Byte>, e: Word, f: Inode, fits: bool)
    requires Creation(fs, mid, fs', d, name, e, f, fits)
    ensures fs'.live == fs.live[e := true] && OtherFilesSame(fs, fs', d)
    ensures FileOk(fs', e) && Content(fs', e) == [] && fs'.inodes[e] == f
  {
    var offset, bytes := |Content(fs, d)|, if fits then EntryBytes(e, name) else [];
    NewFileOk(fs, e, f);
    assert FileAfter(mid, fs', d, offset, bytes, e);
    forall j | 0 <= j < |fs.inodes| && fs.live[j] && j != d ensures Untouched(fs, fs', j) {
      assert FileAfter(mid, fs', d, offset, bytes, j) && FileOk(fs, j);
    }
  }

  /** Creating: allocate the inode, then append the entry. */
  lemma CreationDone(fs: Fs, mid: Fs, fs': Fs, d: nat, name: seq<Byte>, e: Word, f: Inode, fits: bool)
    requires Creation(fs, mid, fs', d, name, e, f, fits) && fits == Room(fs, d)
    ensures Created(fs, fs', d, name, e, f.kind) && fs'.inodes[e] == f
  {
    CreationTree(fs, mid, fs', d, name, e, f, fits);
    CreationFiles(fs, mid, fs', d, name, e, f, fits);
  }

  /** Deleting: release the blocks and the inode, then clear the entry. */
  lemma RemovalFiles(fs: Fs, mid: Fs, fs': Fs, d: nat, i: nat, e: nat)
    requires Removal(fs, mid, fs', d, i, e)
    ensures fs'.live == fs.live[e := false] && OtherFilesSame(fs, fs', d)
  {
    var offset, bytes := ENTRY * i, Cleared(Content(fs, d)[ENTRY * i..ENTRY * i + ENTRY]);
    DropFileOk(fs, e, mid.used);
    forall j | 0 <= j < |fs.inodes| && fs.live[j] && fs'.live[j] && j != d ensures Untouched(fs, fs', j) {
      assert FileAfter(mid, fs', d, offset, bytes, j) && FileOk(fs, j);
    }
  }

  lemma RemovalListing(fs: Fs, mid: Fs, fs': Fs, d: nat, i: nat, e: nat)
    requires Removal(fs, mid, fs', d, i, e)
    ensures TreeOk(fs') && Relisted(fs, fs', d, Listing(Dir(fs, d)) - {Dir(fs, d)[i].name})
    ensures Dir(fs, d)[i].name in Listing(Dir(fs, d)) && Listing(Dir(fs, d))[Dir(fs, d)[i].name] == e
  {
    EntryRemoved(fs, mid, fs', d, i, e);
    ListingCleared(Dir(fs, d), i);
  }

  lemma RemovalDone(fs: Fs, mid: Fs, fs': Fs, d: nat, i: nat, e: nat)
    requires Removal(fs, mid, fs', d, i, e)
    ensures Deleted(fs, fs', d, Dir(fs, d)[i].name, e)
  {
    RemovalListing(fs, mid, fs', d, i, e);
    RemovalFiles(fs, mid, fs', d, i, e);
  }
}
