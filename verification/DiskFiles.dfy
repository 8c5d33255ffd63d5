/**
 The mounted disk file system: superblock counters, bitmaps and inode cache updated in place, the
 inode table and the data blocks read and written a sector at a time.
 */
module DiskFiles {
  import opened Words
  import opened DiskFormat
  import opened FileBlocks
  import opened FileIo
  import opened Directories
  import opened DiskRuns

  const CACHE_SIZE: nat := 8

  datatype CacheEntry = CacheEntry(valid: bool, num: nat, inode: Inode)

  /** 512 inodes in 128 sectors, each inode of the given size. */
  ghost predicate TableOk(table: Table, size: nat) {
    Sectors(table) && |table| == 128 && FIELD_BYTES <= size <= SLOT
  }

  /** An uncached read of an inode. */
  function InodeAt(table: Table, size: nat, ino: nat): (f: Inode)
    requires Sectors(table) && ino / 4 < |table| && FIELD_BYTES <= size <= SLOT
    ensures f.Shaped() && |f.pad| == size - FIELD_BYTES
  {
    Decode(ReadSlot(table, ino, size))
  }

  /** The decoded inode is what an uncached read of the slot gives. */
  ghost predicate Holds(table: Table, size: nat, inodes: seq<Inode>, i: nat)
    requires TableOk(table, size) && i < MAX_INODES && i < |inodes|
  {
    inodes[i] == InodeAt(table, size, i)
  }

  ghost predicate Decoded(table: Table, size: nat, inodes: seq<Inode>) {
    && TableOk(table, size) && |inodes| == MAX_INODES
    && forall i {:trigger Holds(table, size, inodes, i)} :: 0 <= i < MAX_INODES ==> Holds(table, size, inodes, i)
  }

  /** write_inode on the decoded view: one inode changes, the others sharing its sector do not. */
  lemma InodesAfterWrite(table: Table, size: nat, inodes: seq<Inode>, ino: nat, f: Inode)
    requires Decoded(table, size, inodes) && ino < MAX_INODES && f.Shaped() && |f.pad| == size - FIELD_BYTES
    ensures Decoded(WriteSlot(table, ino, Encode(f)), size, inodes[ino := f])
  {
    var t, inodes' := WriteSlot(table, ino, Encode(f)), inodes[ino := f];
    forall i | 0 <= i < MAX_INODES ensures Holds(t, size, inodes', i) {
      assert Holds(table, size, inodes, i);
      SlotsIndependent(table, ino, Encode(f), i);
      InodeRoundTrip(f);
    }
  }

  /** Valid entries are for different inodes and agree with the disk. */
  ghost predicate CacheOk(cache: seq<CacheEntry>, inodes: seq<Inode>) {
    && |cache| == CACHE_SIZE
    && (forall i :: 0 <= i < CACHE_SIZE && cache[i].valid ==>
        cache[i].num < |inodes| && cache[i].inode == inodes[cache[i].num])
    && (forall i, j :: 0 <= i < j < CACHE_SIZE && cache[i].valid && cache[j].valid ==> cache[i].num != cache[j].num)
  }

  /** bitmap_find_free: the lowest clear bit, or -1. */
  method FindFree(bits: seq<bool>) returns (r: int)
    ensures r == FirstClear(bits, 0)
  {
    for i := 0 to |bits|
      invariant FirstClear(bits, 0) == FirstClear(bits, i)
    {
      if !bits[i] {
        return i;
      }
    }
    return -1;
  }

  /** The read-modify-write of the inode's sector. */
  method StoreInode(table: Table, size: nat, ino: nat, f: Inode, ghost inodes: seq<Inode>) returns (t: Table)
    requires Decoded(table, size, inodes) && ino < MAX_INODES && f.Shaped() && |f.pad| == size - FIELD_BYTES
    ensures Decoded(t, size, inodes[ino := f])
  {
    t := WriteSlot(table, ino, Encode(f));
    InodesAfterWrite(table, size, inodes, ino, f);
  }

  /** The cache part of write_inode. */
  method UpdateCache(cache: seq<CacheEntry>, ino: nat, f: Inode, ghost inodes: seq<Inode>) returns (c: seq<CacheEntry>)
    requires CacheOk(cache, inodes) && ino < |inodes|
    ensures CacheOk(c, inodes[ino := f])
  {
    c := cache;
    var i := FindCached(cache, ino);
    if i >= 0 {
      c := cache[i := CacheEntry(true, ino, f)];
    }
    UpdatedCache(cache, inodes, ino, f);
  }

  class DiskFs {
    const inodeSize: nat
    var mounted: bool
    var table: Table
    var data: seq<Sector>
    var inodeBits: seq<bool>
    var blockBits: seq<bool>
    var freeInodes: int
    var freeBlocks: int
    var cache: seq<CacheEntry>
    var cacheIdx: nat

    /** The inode table, decoded. */
    ghost var inodes: seq<Inode>

    ghost function Value(): Fs
      reads this
    {
      Fs(inodes, inodeBits, data, blockBits)
    }

    /** Table, cache and counters agree. */
    ghost predicate Base()
      reads this
    {
      && Decoded(table, inodeSize, inodes) && CacheOk(cache, inodes) && cacheIdx < CACHE_SIZE
      && |inodeBits| == MAX_INODES
      && freeInodes == CountClear(inodeBits) && freeBlocks == CountClear(blockBits)
    }

    ghost predicate Valid()
      reads this
    {
      Base() && FsOk(Value())
    }

    /**
     The cache is transparent: its entries, and the answers read_inode takes from them, are what an
     uncached read gives.
     */
    lemma CacheIsTransparent(ino: nat)
      requires Base() && ino < MAX_INODES
      ensures inodes[ino] == InodeAt(table, inodeSize, ino)
      ensures forall i :: 0 <= i < CACHE_SIZE && cache[i].valid && cache[i].num == ino ==>
          cache[i].inode == InodeAt(table, inodeSize, ino)
    {
      assert Holds(table, inodeSize, inodes, ino);
    }

    /**
     diskfs_format and diskfs_mount on a disk of the given number of blocks: an empty root directory, and
     every block free, block 0 too.
     */
    constructor Format(size: nat, blocks: nat, now: Word)
      requires FIELD_BYTES <= size <= SLOT && 0 < blocks <= 65536
      ensures Base() && AsFormatted(Value()) && mounted && inodes[0].kind == KIND_DIR && |blockBits| == blocks
      ensures freeBlocks == blocks && freeInodes == MAX_INODES - 1
    {
      inodeSize := size;
      mounted := true;
      var root := Inode(KIND_DIR, 0, seq(DIRECT_BLOCKS, _ => 0), now, now, 0, Zeros(size - FIELD_BYTES));
      var zero: seq<Sector> := seq(blocks, _ => Zeros(512));
      var blank, nodes := BlankTable(size);
      var stored := StoreInode(blank, size, 0, root, nodes);
      var noBits: seq<bool> := seq(MAX_INODES, _ => false);
      var noBlocks: seq<bool> := seq(blocks, _ => false);
      CountAllClear(noBits);
      CountAllClear(noBlocks);
      CountUpdate(noBits, 0, true);
      table, inodes := stored, nodes[0 := root];
      data := zero;
      inodeBits, freeInodes := noBits[0 := true], MAX_INODES - 1;
      blockBits, freeBlocks := noBlocks, blocks;
      cache := seq(CACHE_SIZE, _ => CacheEntry(false, 0, root));
      cacheIdx := 0;
    }

    /** The missing step: with block 0 reserved, the formatted disk satisfies the whole invariant. */
    method ReserveBlockZero()
      requires Base() && AsFormatted(Value()) && inodes[0].kind == KIND_DIR
      modifies this`blockBits, this`freeBlocks
      ensures Ready() && IsDir(Value(), 0) && Names(0) == map[]
    {
      CountUpdate(blockBits, 0, true);
      blockBits := blockBits[0 := true];
      freeBlocks := freeBlocks - 1;
      FreshTree(Value());
    }

    /** read_inode: the cache never changes the answer. */
    method ReadInode(ino: nat) returns (r: int, inode: Inode)
      requires Base()
      modifies this`cache, this`cacheIdx
      ensures Base()
      ensures if ino >= MAX_INODES then r == -1
          else r == 0 && inode == inodes[ino] && |inode.pad| == inodeSize - FIELD_BYTES
    {
      if ino >= MAX_INODES {
        inode := InodeAt(table, inodeSize, 0);
        return -1, inode;
      }
      assert Holds(table, inodeSize, inodes, ino);
      var i := FindCached(cache, ino);
      if i >= 0 {
        return 0, cache[i].inode;
      }
      inode := InodeAt(table, inodeSize, ino);
      FilledCache(cache, inodes, cacheIdx, ino);
      cache := cache[cacheIdx := CacheEntry(true, ino, inode)];
      cacheIdx := (cacheIdx + 1) % CACHE_SIZE;
      return 0, inode;
    }

    /** write_inode: one inode changes, on disk and in the cache. */
    method WriteInode(ino: nat, inode: Inode) returns (r: int)
      requires Base() && inode.Shaped() && |inode.pad| == inodeSize - FIELD_BYTES
      modifies this`table, this`cache, this`inodes
      ensures Base()
      ensures if ino >= MAX_INODES then r == -1 && table == old(table) && inodes == old(inodes)
              else r == 0 && inodes == old(inodes)[ino := inode]
    {
      if ino >= MAX_INODES {
        return -1;
      }
      table := StoreInode(table, inodeSize, ino, inode, inodes);
      cache := UpdateCache(cache, ino, inode, inodes);
      inodes := inodes[ino := inode];
      return 0;
    }

    /** alloc_block: the lowest free block, now used, or -1. */
    method AllocBlock() returns (b: int)
      requires Base()
      modifies this`blockBits, this`freeBlocks
      ensures Base() && b == FirstClear(old(blockBits), 0)
      ensures blockBits == if b < 0 then old(blockBits) else old(blockBits)[b := true]
    {
      b := FindFree(blockBits);
      if b >= 0 {
        CountUpdate(blockBits, b, true);
        blockBits := blockBits[b := true];
        freeBlocks := freeBlocks - 1;
      }
    }

    /** free_block: the bit is cleared; the counter stays exact if and only if it was set. */
    method FreeBlock(b: nat)
      requires Base()
      modifies this`blockBits, this`freeBlocks
      ensures blockBits == if b < |old(blockBits)| then old(blockBits)[b := false] else old(blockBits)
      ensures freeBlocks == CountClear(blockBits) <==> (b < |old(blockBits)| ==> old(blockBits)[b])
      ensures (b < |old(blockBits)| ==> old(blockBits)[b]) ==> Base()
    {
      if b >= |blockBits| {
        return;
      }
      CountUpdate(blockBits, b, false);
      blockBits := blockBits[b := false];
      freeBlocks := freeBlocks + 1;
    }

    /** alloc_inode: the lowest free inode, now allocated, or -1. */
    method AllocInode() returns (i: int)
      requires Base()
      modifies this`inodeBits, this`freeInodes
      ensures Base() && i == FirstClear(old(inodeBits), 0)
      ensures inodeBits == if i < 0 then old(inodeBits) else old(inodeBits)[i := true]
    {
      i := FindFree(inodeBits);
      if i >= 0 {
        CountUpdate(inodeBits, i, true);
        inodeBits := inodeBits[i := true];
        freeInodes := freeInodes - 1;
      }
    }

    /** free_inode: the bit is cleared; the counter stays exact if and only if it was set. */
    method FreeInode(i: nat)
      requires Base()
      modifies this`inodeBits, this`freeInodes
      ensures inodeBits == if i < MAX_INODES then old(inodeBits)[i := false] else old(inodeBits)
      ensures freeInodes == CountClear(inodeBits) <==> (i < MAX_INODES ==> old(inodeBits)[i])
      ensures (i < MAX_INODES ==> old(inodeBits)[i]) ==> Base()
    {
      if i >= MAX_INODES {
        return;
      }
      CountUpdate(inodeBits, i, false);
      inodeBits := inodeBits[i := false];
      freeInodes := freeInodes + 1;
    }

    /** The content of a live inode. */
    ghost function File(ino: nat): seq<Byte>
      requires Valid() && ino < MAX_INODES && inodeBits[ino]
      reads this
    {
      assert FileOk(Value(), ino);
      Content(Value(), ino)
    }

    /** diskfs_read of any inode: what its blocks hold, up to the first missing one. */
    method ReadRaw(ino: nat, offset: Word, count: Word) returns (r: int, buf: seq<Byte>)
      requires Base() && Shape(Value())
      modifies this`cache, this`cacheIdx
      ensures Base()
      ensures !mounted || ino >= MAX_INODES ==> r == -1
      ensures mounted && ino < MAX_INODES ==> r == |buf| && buf == ReadOf(data, inodes[ino], offset, count)
    {
      buf := [];
      if !mounted {
        return -1, buf;
      }
      var ok, inode := ReadInode(ino);
      if ok != 0 {
        return -1, buf;
      }
      if offset >= inode.size {
        return 0, buf;
      }
      buf := Gather(data, inode, offset, ClippedSize(inode.size, offset, count));
      return |buf|, buf;
    }

    /**
     diskfs_read of a live inode: the slice of its byte array, unless the end of the range wraps around
     to inside the file.
     */
    method Read(ino: nat, offset: Word, count: Word) returns (r: int, buf: seq<Byte>)
      requires Valid() && (ino < MAX_INODES ==> inodeBits[ino])
      modifies this`cache, this`cacheIdx
      ensures Valid()
      ensures !mounted || ino >= MAX_INODES ==> r == -1
      ensures mounted && ino < MAX_INODES ==> r == |buf| && buf == ReadOf(data, inodes[ino], offset, count)
      ensures mounted && ino < MAX_INODES && !ReadsPastEnd(|File(ino)|, offset, count) ==>
          buf == Slice(File(ino), offset, count)
    {
      r, buf := ReadRaw(ino, offset, count);
      if mounted && ino < MAX_INODES {
        assert FileOk(Value(), ino);
        ReadOfLive(Value(), ino, offset, count);
      }
    }

    /** The inode being written, with the sectors and the bitmap. */
    ghost function DraftOf(inode: Inode): Draft
      reads this
    {
      Draft(inode, data, blockBits)
    }

    /** One round of the write loop: find or allocate the block, read-modify-write its sector. */
    method WriteRound(inode: Inode, pos: nat, chunk: seq<Byte>) returns (ok: bool, inode': Inode)
      requires Base() && DraftOk(DraftOf(inode)) && pos / 512 < DIRECT_BLOCKS && pos % 512 + |chunk| <= 512
      modifies this`data, this`blockBits, this`freeBlocks
      ensures Base() && Outcome(DraftOf(inode'), ok) == Round(old(DraftOf(inode)), pos, chunk)
    {
      inode' := inode;
      if inode.blocks[pos / 512] == 0 {
        var b := AllocBlock();
        if b < 0 {
          return false, inode';
        }
        inode' := inode.(blocks := inode.blocks[pos / 512 := b]);
      }
      var block := inode'.blocks[pos / 512];
      data := data[block := Overwrite(data[block], pos % 512, chunk)];
      assert inode.blocks[pos / 512 := inode.blocks[pos / 512]] == inode.blocks;
      return true, inode';
    }

    /** The loop of diskfs_write: chunks go into the data blocks, the inode is held in memory. */
    method WriteLoop(inode: Inode, buffer: seq<Byte>, offset: nat, size: nat) returns (bytesWritten: nat, inode': Inode)
      requires Base() && DraftOk(DraftOf(inode)) && (offset < MAX_FILE_SIZE ==> size <= |buffer|)
      modifies this`data, this`blockBits, this`freeBlocks
      ensures Base() && Result(DraftOf(inode'), bytesWritten) == Loop(old(DraftOf(inode)), buffer, offset, size, 0)
    {
      bytesWritten, inode' := 0, inode;
      ghost var d := DraftOf(inode);
      ghost var all := Loop(d, buffer, offset, size, 0);
      while bytesWritten < size
        modifies this`data, this`blockBits, this`freeBlocks
        invariant Base() && bytesWritten <= size && DraftOf(inode') == d && DraftOk(d)
        invariant all == Loop(d, buffer, offset, size, bytesWritten)
        decreases size - bytesWritten
      {
        if (offset + bytesWritten) / 512 >= DIRECT_BLOCKS {
          return;
        }
        var reached := bytesWritten + ChunkSize(offset + bytesWritten, size - bytesWritten);
        ghost var r := Next(d, buffer, offset, size, bytesWritten);
        LoopNext(d, buffer, offset, size, bytesWritten, reached);
        var ok, next := WriteNext(inode', buffer, offset, size, bytesWritten);
        inode', d := next, r.d;
        if !ok {
          return;
        }
        bytesWritten := reached;
      }
    }

    /** The round with the given number of bytes written. */
    method WriteNext(inode: Inode, buffer: seq<Byte>, offset: nat, size: nat, done: nat) returns (ok: bool,
        inode': Inode)
      requires Base() && DraftOk(DraftOf(inode)) && done < size <= |buffer| && (offset + done) / 512 < DIRECT_BLOCKS
      modifies this`data, this`blockBits, this`freeBlocks
      ensures Base() && Outcome(DraftOf(inode'), ok) == Next(old(DraftOf(inode)), buffer, offset, size, done)
    {
      var toWrite := ChunkSize(offset + done, size - done);
      ok, inode' := WriteRound(inode, offset + done, buffer[done..done + toWrite]);
    }

    /** diskfs_write to any inode at any offset: what the loop stores, then the new size and time. */
    method WriteRaw(ino: nat, buffer: seq<Byte>, offset: Word, now: Word) returns (r: int)
      requires Base() && Shape(Value()) && |buffer| < 0x1_0000_0000
      modifies this`table, this`inodes, this`data, this`blockBits, this`freeBlocks, this`cache, this`cacheIdx
      ensures Base() && Shape(Value())
      ensures !mounted || ino >= MAX_INODES ==> r == -1 && Value() == old(Value())
      ensures mounted && ino < MAX_INODES ==> (Value(), r) == WriteOf(old(Value()), ino, buffer, offset, now)
    {
      if !mounted {
        return -1;
      }
      var ok, inode := ReadInode(ino);
      if ok != 0 {
        return -1;
      }
      ghost var fs := Value();
      var size := WriteSize(|buffer|, offset);
      var bytesWritten, inode' := WriteLoop(inode, buffer, offset, size);
      LoopOk(Draft(inode, fs.data, fs.used), buffer, offset, size, 0);
      var last := Finished(inode', offset, bytesWritten, now);
      ok := WriteInode(ino, last);
      assert Value() == WriteOf(fs, ino, buffer, offset, now).0;
      return bytesWritten;
    }

    /**
     diskfs_write to a live inode, starting at or before its end: the first r bytes of the buffer are
     spliced into the file, no other live file changes, and r falls short of what fits only when the
     disk has no free block left.
     */
    method Write(ino: nat, buffer: seq<Byte>, offset: nat, now: Word) returns (r: int)
      requires Valid() && |buffer| < 0x1_0000_0000
      requires ino < MAX_INODES ==> inodeBits[ino] && offset <= |File(ino)|
      requires offset < 0x1_0000_0000
      modifies this`table, this`inodes, this`data, this`blockBits, this`freeBlocks, this`cache, this`cacheIdx
      ensures Valid()
      ensures !mounted || ino >= MAX_INODES ==> r == -1 && Value() == old(Value())
      ensures mounted && ino < MAX_INODES ==>
                && 0 <= r <= |buffer| && offset + r <= MAX_FILE_SIZE
                && Written(old(Value()), Value(), ino, offset, buffer[..r])
                && StoppedRightly(old(Value()), Value(), ino, offset, |buffer|, r)
    {
      ghost var fs := Value();
      r := WriteRaw(ino, buffer, offset, now);
      if mounted && ino < MAX_INODES {
        assert FileOk(fs, ino);
        WriteOfLive(fs, ino, buffer, offset, now);
      }
    }

    // ------------------------------------------------------------- directories

    ghost predicate Ready()
      reads this
    {
      Valid() && TreeOk(Value())
    }

    /** The map of a live directory. */
    ghost function Names(d: nat): map<seq<Byte>, Word>
      requires Ready() && IsDir(Value(), d)
      reads this
    {
      assert DirOk(Value(), d);
      Listing(Dir(Value(), d))
    }

    /** One directory entry: its bytes, and what they say. */
    method ReadEntry(dir: nat, i: nat, ghost fs: Fs, ghost es: seq<Entry>) returns (b: seq<Byte>, e: Entry)
      requires Valid() && mounted && Value() == fs && dir < MAX_INODES && inodeBits[dir] && Lists(File(dir), es)
      requires i < |es|
      modifies this`cache, this`cacheIdx
      ensures Valid() && ENTRY * i + ENTRY <= |Content(fs, dir)|
      ensures |b| == ENTRY && b == Content(fs, dir)[ENTRY * i..ENTRY * i + ENTRY] && e == es[i]
    {
      assert FileOk(fs, dir);
      var r;
      r, b := Read(dir, ENTRY * i, ENTRY);
      e := EntryOf(b);
      assert Lists1(Content(fs, dir), es, i);
    }

    /** The loop of diskfs_lookup. */
    method ScanNames(dir: nat, n: nat, name: seq<Byte>, ghost fs: Fs, ghost es: seq<Entry>) returns (r: int)
      requires Valid() && mounted && Value() == fs && dir < MAX_INODES && inodeBits[dir] && Lists(File(dir), es)
      requires n == |es|
      modifies this`cache, this`cacheIdx
      ensures Valid() && r == Find(es, name)
    {
      for i := 0 to n
        invariant Valid() && FirstNamed(es, name, 0) == FirstNamed(es, name, i)
      {
        var b, e := ReadEntry(dir, i, fs, es);
        if e.ino != 0 && e.name == name {
          return e.ino;
        }
      }
      return -1;
    }

    /** diskfs_lookup: application of the directory's map. */
    method Lookup(dir: nat, name: seq<Byte>) returns (r: int)
      requires Ready() && (dir < MAX_INODES ==> inodeBits[dir])
      modifies this`cache, this`cacheIdx
      ensures Ready()
      ensures r == if mounted && IsDir(Value(), dir) && name in Names(dir) then Names(dir)[name] else -1
      ensures r >= 0 ==> 0 < r < MAX_INODES && inodeBits[r]
    {
      if !mounted {
        return -1;
      }
      var ok, inode := ReadInode(dir);
      if ok != 0 || inode.kind != KIND_DIR {
        return -1;
      }
      ghost var fs := Value();
      assert DirOk(fs, dir);
      ListsEntries(Content(fs, dir));
      r := ScanNames(dir, inode.size / ENTRY, name, fs, Dir(fs, dir));
      FindIsListing(Dir(fs, dir), name);
    }

    /** The allocating part of diskfs_create: an inode number and an empty file in it. */
    method NewFile(parent: Word, kind: Word, now: Word) returns (ino: int, ghost f: Inode)
      requires Ready()
      modifies this`table, this`inodes, this`cache, this`inodeBits, this`freeInodes
      ensures Valid() && ino == FirstClear(old(inodeBits), 0) && EmptyFile(f) && f.kind == kind
      ensures f.parent == parent && f.ctime == now && f.mtime == now
      ensures ino < 0 ==> Value() == old(Value()) && Full(inodeBits)
      ensures ino >= 0 ==>
                && !old(inodeBits)[ino]
                && Value() == old(Value()).(inodes := old(inodes)[ino := f], live := old(inodeBits)[ino := true])
    {
      var empty := Inode(kind, 0, seq(DIRECT_BLOCKS, _ => 0), now, now, parent, Zeros(inodeSize - FIELD_BYTES));
      f := empty;
      ghost var fs := Value();
      ino := AllocInode();
      if ino >= 0 {
        var ok := WriteInode(ino, empty);
        NewFileOk(fs, ino, f);
        assert Value() == fs.(inodes := fs.inodes[ino := f], live := fs.live[ino := true]);
      }
    }

    /** The naming part of diskfs_create: the entry is written whole, or not at all when there is no room for it. */
    method AppendEntry(parent: nat, ino: Word, name: seq<Byte>, size: nat, now: Word) returns (ghost fits: bool)
      requires Valid() && mounted && parent < MAX_INODES && inodeBits[parent] && |name| < NAME_BYTES
      requires size == |File(parent)| && size % ENTRY == 0
      modifies this`table, this`inodes, this`data, this`blockBits, this`freeBlocks, this`cache, this`cacheIdx
      ensures Valid() && fits == Room(old(Value()), parent)
      ensures Written(old(Value()), Value(), parent, size, if fits then EntryBytes(ino, name) else [])
    {
      var b := EntryBytes(ino, name);
      assert FileOk(Value(), parent);
      var r := Write(parent, b, size, now);
      WholeOrNothing(size, r);
      fits := r == ENTRY;
      assert b[..r] == if fits then b else [];
    }

    /** The tests of diskfs_create: the negative result, or the size of the parent. */
    method CheckCreate(parent: nat, name: seq<Byte>) returns (r: int, size: nat)
      requires Ready() && (parent < MAX_INODES ==> inodeBits[parent])
      modifies this`cache, this`cacheIdx
      ensures Ready() && -2 <= r <= 0
      ensures r == -1 <==> !(mounted && |name| < NAME_BYTES && IsDir(Value(), parent))
      ensures r != -1 ==> (r == -2 <==> name in Names(parent))
      ensures r == 0 ==> size == |File(parent)| && size % ENTRY == 0
    {
      size := 0;
      if !mounted || |name| >= NAME_BYTES {
        return -1, 0;
      }
      var ok, dir := ReadInode(parent);
      if ok != 0 || dir.kind != KIND_DIR {
        return -1, 0;
      }
      assert DirOk(Value(), parent);
      var found := Lookup(parent, name);
      if found >= 0 {
        return -2, 0;
      }
      return 0, dir.size;
    }

    /** diskfs_create: refused without effect, or a new empty file, bound to the name if its directory has room. */
    method Create(parent: Word, name: seq<Byte>, kind: Word, now: Word) returns (r: int)
      requires Ready() && IsName(name) && (parent < MAX_INODES ==> inodeBits[parent])
      modifies this
      ensures Ready() && mounted == old(mounted)
      ensures r < 0 ==> Value() == old(Value())
      ensures r == -1 <==> !(old(mounted) && |name| < NAME_BYTES && IsDir(old(Value()), parent))
      ensures r != -1 ==> (r == -2 <==> name in old(Names(parent)))
      ensures r != -1 && r != -2 ==> if Full(old(inodeBits)) then r == -3 else r >= 0
      ensures r >= 0 ==> Created(old(Value()), Value(), parent, name, r, kind) && r == FirstClear(old(inodeBits), 0)
      ensures r >= 0 ==> inodes[r].parent == parent && inodes[r].ctime == now && inodes[r].mtime == now
    {
      var size;
      r, size := CheckCreate(parent, name);
      if r < 0 {
        return;
      }
      r := MakeFile(parent, name, kind, size, now);
    }

    /** The rest of diskfs_create. */
    method MakeFile(parent: Word, name: seq<Byte>, kind: Word, size: nat, now: Word) returns (r: int)
      requires Ready() && mounted && IsDir(Value(), parent) && IsName(name) && |name| < NAME_BYTES
      requires name !in Names(parent)
      requires size == |File(parent)| && size % ENTRY == 0
      modifies this`table, this`inodes, this`inodeBits, this`freeInodes, this`data, this`blockBits, this`freeBlocks,
          this`cache, this`cacheIdx
      ensures Ready() && if Full(old(inodeBits)) then r == -3 && Value() == old(Value()) else r >= 0
      ensures r >= 0 ==> Created(old(Value()), Value(), parent, name, r, kind) && r == FirstClear(old(inodeBits), 0)
      ensures r >= 0 ==> inodes[r].parent == parent && inodes[r].ctime == now && inodes[r].mtime == now
    {
      ghost var fs := Value();
      ghost var f;
      r, f := NewFile(parent, kind, now);
      if r < 0 {
        return -3;
      }
      ghost var mid := Value();
      NewFileOk(fs, r, f);
      assert FileOk(fs, parent) && DirOk(fs, parent);
      ghost var fits := AppendEntry(parent, r, name, size, now);
      CreationDone(fs, mid, Value(), parent, name, r, f, fits);
    }

    /** The loop of diskfs_delete over the block pointers. */
    method FreeBlocks(e: nat, f: Inode, ghost fs: Fs)
      requires Base() && FsOk(fs) && Value() == fs && e < MAX_INODES && inodeBits[e] && f == inodes[e]
      modifies this`blockBits, this`freeBlocks
      ensures Base() && BlocksReleased(old(blockBits), blockBits, f)
    {
      for i := 0 to DIRECT_BLOCKS
        invariant Base() && Released(fs.used, blockBits, f, i)
      {
        ReleaseStep(fs, e, blockBits, i);
        if f.blocks[i] != 0 {
          FreeBlock(f.blocks[i]);
        }
      }
    }

    /** The loop of diskfs_delete over the parent's entries: the first one with the inode number is cleared. */
    method ClearEntry(dir: nat, n: nat, ino: Word, now: Word, ghost k: nat, ghost fs: Fs, ghost es: seq<Entry>)
      requires Valid() && mounted && Value() == fs && dir < MAX_INODES && inodeBits[dir] && Lists(File(dir), es)
      requires n == |es|
      requires k < n && es[k].ino == ino && forall i :: 0 <= i < k ==> es[i].ino != ino
      modifies this`table, this`inodes, this`data, this`blockBits, this`freeBlocks, this`cache, this`cacheIdx
      ensures Valid() && ENTRY * k + ENTRY <= |Content(fs, dir)|
      ensures Written(fs, Value(), dir, ENTRY * k, Cleared(Content(fs, dir)[ENTRY * k..ENTRY * k + ENTRY]))
    {
      for i := 0 to n
        modifies this`table, this`inodes, this`data, this`blockBits, this`freeBlocks, this`cache, this`cacheIdx
        invariant Valid() && i <= k && Value() == fs && mounted
      {
        var b, e := ReadEntry(dir, i, fs, es);
        if e.ino == ino {
          OverwriteEntry(dir, i, Cleared(b), now);
          return;
        }
      }
    }

    /** Writing over a whole entry always succeeds. */
    method OverwriteEntry(dir: nat, i: nat, b: seq<Byte>, now: Word)
      requires Valid() && mounted && dir < MAX_INODES && inodeBits[dir] && |b| == ENTRY
      requires ENTRY * i + ENTRY <= |File(dir)|
      modifies this`table, this`inodes, this`data, this`blockBits, this`freeBlocks, this`cache, this`cacheIdx
      ensures Valid() && Written(old(Value()), Value(), dir, ENTRY * i, b)
    {
      assert FileOk(Value(), dir);
      var r := Write(dir, b, ENTRY * i, now);
      WholeOrNothing(ENTRY * i, r);
      assert b[..ENTRY] == b;
    }

    /** diskfs_delete: refused without effect, or the file, its blocks and its name are gone. */
    method Delete(parent: nat, name: seq<Byte>, now: Word) returns (r: int)
      requires Ready() && (parent < MAX_INODES ==> inodeBits[parent])
      modifies this
      ensures Ready() && mounted == old(mounted)
      ensures r == -1 || r == -2 || r == 0
      ensures r < 0 ==> Value() == old(Value())
      ensures r == -1 <==> !(old(mounted) && IsDir(old(Value()), parent) && name in old(Names(parent)))
      ensures r != -1 ==> var e := old(Names(parent))[name];
                          && IsDir(old(Value()), parent) && name in old(Names(parent)) && e < MAX_INODES
                          && (r == -2 <==> old(inodes)[e].kind == KIND_DIR && old(inodes)[e].size > 0)
                          && (r == 0 ==> Deleted(old(Value()), Value(), parent, name, e))
    {
      if !mounted {
        return -1;
      }
      ghost var fs := Value();
      var ino := Lookup(parent, name);
      if ino < 0 {
        return -1;
      }
      var ok, inode := ReadInode(ino);
      if inode.kind == KIND_DIR && inode.size > 0 {
        return -2;
      }
      RemoveFile(parent, ino, inode, name, now);
      return 0;
    }

    /** The inode's blocks and the inode itself are free again. */
    method ReleaseFile(ino: nat, inode: Inode)
      requires Valid() && ino < MAX_INODES && inodeBits[ino] && inode == inodes[ino]
      modifies this`blockBits, this`freeBlocks, this`inodeBits, this`freeInodes
      ensures Valid() && Dropped(old(Value()), Value(), ino)
    {
      ghost var fs := Value();
      FreeBlocks(ino, inode, fs);
      FreeInode(ino);
      DropFileOk(fs, ino, blockBits);
      assert Value() == fs.(live := fs.live[ino := false], used := blockBits);
    }

    /** The parent's entry for the inode is cleared. */
    method Unlink(parent: nat, ino: Word, now: Word, ghost k: nat, ghost es: seq<Entry>)
      requires Valid() && mounted && parent < MAX_INODES && inodeBits[parent] && Lists(File(parent), es)
      requires k < |es| && es[k].ino == ino && forall i :: 0 <= i < k ==> es[i].ino != ino
      modifies this`table, this`inodes, this`data, this`blockBits, this`freeBlocks, this`cache, this`cacheIdx
      ensures Valid() && ENTRY * k + ENTRY <= old(|File(parent)|)
      ensures Written(old(Value()), Value(), parent, ENTRY * k,
          Cleared(old(File(parent))[ENTRY * k..ENTRY * k + ENTRY]))
    {
      var ok, dir := ReadInode(parent);
      assert FileOk(Value(), parent);
      ClearEntry(parent, dir.size / ENTRY, ino, now, k, Value(), es);
    }

    /** The rest of diskfs_delete. */
    method RemoveFile(parent: nat, ino: nat, inode: Inode, ghost name: seq<Byte>, now: Word)
      requires Ready() && mounted && IsDir(Value(), parent) && 0 < ino < MAX_INODES && inodeBits[ino]
      requires inode == inodes[ino]
      requires name in Names(parent) && Names(parent)[name] == ino && !(inode.kind == KIND_DIR && inode.size > 0)
      modifies this
      ensures Valid() && Deleted(old(Value()), Value(), parent, name, ino) && mounted
    {
      ghost var fs := Value();
      ghost var k := NamedAt(fs, parent, name, ino);
      ListsEntries(Content(fs, parent));
      ghost var mid := ReleaseAndUnlink(parent, ino, inode, now, k, Dir(fs, parent));
      RemovalDone(fs, mid, Value(), parent, k, ino);
    }

    /** Both effects, in the order of the source. */
    method ReleaseAndUnlink(parent: nat, ino: Word, inode: Inode, now: Word, ghost k: nat,
        ghost es: seq<Entry>) returns (ghost mid: Fs)
      requires Valid() && mounted && parent < MAX_INODES && inodeBits[parent] && Lists(File(parent), es)
      requires ino < MAX_INODES && inodeBits[ino] && inode == inodes[ino] && ino != parent
      requires k < |es| && es[k].ino == ino && forall i :: 0 <= i < k ==> es[i].ino != ino
      modifies this
      ensures Valid() && mounted && Dropped(old(Value()), mid, ino) && ENTRY * k + ENTRY <= old(|File(parent)|)
      ensures Written(mid, Value(), parent, ENTRY * k, Cleared(old(File(parent))[ENTRY * k..ENTRY * k + ENTRY]))
    {
      ghost var fs := Value();
      ReleaseFile(ino, inode);
      mid := Value();
      DropFileOk(fs, ino, mid.used);
      assert FileOk(fs, parent);
      Unlink(parent, ino, now, k, es);
    }

    // ------------------------------------------------------------------ any call

    /**
     What a caller may ask: inode numbers of live inodes, plain files written no further than at their
     end, C strings as names.
     */
    ghost predicate Legal(q: Request)
      reads this
      requires Ready()
    {
      (q.ino < MAX_INODES ==> inodeBits[q.ino])
      && match q
         case ReadAt(ino, offset, count) => true
         case WriteTo(ino, buffer, offset) =>
             |buffer| < 0x1_0000_0000 && (ino < MAX_INODES ==> !IsDir(Value(), ino) && offset <= |File(ino)|)
         case LookUp(ino, name) => true
         case Make(ino, name, kind) => IsName(name)
         case Remove(ino, name) => true
    }

    /**
     Every call keeps the whole invariant, is served as asked, and changes nothing or makes one change of
     the view.
     */
    method Perform(q: Request, now: Word) returns (r: int, buf: seq<Byte>)
      requires Ready() && Legal(q)
      modifies this
      ensures Ready() && Served(q, now, old(mounted), old(Value()), Value(), r, buf)
      ensures Value() == old(Value()) || exists c :: Does(c, old(Value()), Value())
    {
      ghost var fs, on := Value(), mounted;
      r, buf := Serve(q, now);
      ServedDoes(q, now, on, fs, Value(), r, buf);
    }

    method Serve(q: Request, now: Word) returns (r: int, buf: seq<Byte>)
      requires Ready() && Legal(q)
      modifies this
      ensures Ready() && Served(q, now, old(mounted), old(Value()), Value(), r, buf)
    {
      buf := [];
      match q
      case ReadAt(ino, offset, count) => r, buf := Read(ino, offset, count);
      case WriteTo(ino, buffer, offset) => r := ServeWrite(ino, buffer, offset, now);
      case LookUp(ino, name) => r := Lookup(ino, name);
      case Make(ino, name, kind) => r := ServeMake(ino, name, kind, now);
      case Remove(ino, name) => r := ServeRemove(ino, name, now);
    }

    method ServeWrite(ino: Word, buffer: seq<Byte>, offset: Word, now: Word) returns (r: int)
      requires Ready() && Legal(WriteTo(ino, buffer, offset))
      modifies this`table, this`inodes, this`data, this`blockBits, this`freeBlocks, this`cache, this`cacheIdx
      ensures Ready() && Served(WriteTo(ino, buffer, offset), now, mounted, old(Value()), Value(), r, [])
    {
      ghost var fs := Value();
      r := WriteRaw(ino, buffer, offset, now);
      if mounted && ino < MAX_INODES {
        assert FileOk(fs, ino);
        WriteOfLive(fs, ino, buffer, offset, now);
        WriteKeepsTree(fs, Value(), ino, offset, buffer[..r]);
      }
    }

    method ServeMake(ino: Word, name: seq<Byte>, kind: Word, now: Word) returns (r: int)
      requires Ready() && Legal(Make(ino, name, kind))
      modifies this
      ensures Ready() && Served(Make(ino, name, kind), now, old(mounted), old(Value()), Value(), r, [])
    {
      r := Create(ino, name, kind, now);
    }

    method ServeRemove(ino: Word, name: seq<Byte>, now: Word) returns (r: int)
      requires Ready() && Legal(Remove(ino, name))
      modifies this
      ensures Ready() && Served(Remove(ino, name), now, old(mounted), old(Value()), Value(), r, [])
    {
      r := Delete(ino, name, now);
    }
  }

  /** A request served changes nothing, or makes one change of the view. */
  lemma ServedDoes(q: Request, now: Word, on: bool, fs: Fs, fs': Fs, r: int, buf: seq<Byte>)
    requires Served(q, now, on, fs, fs', r, buf)
    ensures fs' == fs || exists c :: Does(c, fs, fs')
  {
    if r >= 0 {
      match q
      case ReadAt(_, _, _) =>
      case WriteTo(ino, buffer, offset) => assert Does(WriteAt(ino, offset, buffer[..r]), fs, fs');
      case LookUp(_, _) =>
      case Make(ino, name, kind) => assert Does(CreateIn(ino, name, r, kind, Room(fs, ino)), fs, fs');
      case Remove(ino, name) => assert Does(DeleteIn(ino, name, Bound(fs, ino, name)), fs, fs');
    }
  }

  /** The calls of the interface. */
  datatype Request =
    | ReadAt(ino: Word, offset: Word, count: Word)
    | WriteTo(ino: Word, buffer: seq<Byte>, pos: Word)
    | LookUp(ino: Word, name: seq<Byte>)
    | Make(ino: Word, name: seq<Byte>, kind: Word)
    | Remove(ino: Word, name: seq<Byte>)

  /** The answer to a request, and the change it makes: none at all when the answer is an error code. */
  ghost predicate Served(q: Request, now: Word, on: bool, fs: Fs, fs': Fs, r: int, buf: seq<Byte>) {
    && TreeOk(fs) && |fs.inodes| == MAX_INODES && (r < 0 ==> fs' == fs)
    && match q
       case ReadAt(ino, offset, count) =>
         && fs' == fs
         && if on && ino < MAX_INODES then r == |buf| && buf == ReadOf(fs.data, fs.inodes[ino], offset, count)
            else r == -1
       case WriteTo(ino, buffer, offset) =>
         if on && ino < MAX_INODES then
           && |buffer| < 0x1_0000_0000 && (fs', r) == WriteOf(fs, ino, buffer, offset, now)
           && r <= |buffer| && Does(WriteAt(ino, offset, buffer[..r]), fs, fs')
         else r == -1
       case LookUp(ino, name) =>
         && fs' == fs && r == if on && ino < MAX_INODES && Binds(fs, ino, name) then Bound(fs, ino, name) else -1
       case Make(ino, name, kind) =>
         if !on || |name| >= NAME_BYTES || ino >= MAX_INODES || !IsDir(fs, ino) then r == -1
         else if Binds(fs, ino, name) then r == -2
         else if Full(fs.live) then r == -3
         else
           && r == FirstClear(fs.live, 0) && r < |fs'.inodes| && fs'.inodes[r].parent == ino
           && fs'.inodes[r].ctime == now && fs'.inodes[r].mtime == now
           && Does(CreateIn(ino, name, r, kind, Room(fs, ino)), fs, fs')
       case Remove(ino, name) =>
         if !on || ino >= MAX_INODES || !Binds(fs, ino, name) then r == -1
         else
           var e := Bound(fs, ino, name);
           && e < MAX_INODES
           && if fs.inodes[e].kind == KIND_DIR && fs.inodes[e].size > 0 then r == -2
              else r == 0 && Does(DeleteIn(ino, name, e), fs, fs')
  }

  /** Inode d is a live directory that has the name. */
  ghost predicate Binds(fs: Fs, d: nat, name: seq<Byte>)
    requires TreeOk(fs) && d < |fs.inodes|
  {
    IsDir(fs, d) && DirOk(fs, d) && name in Listing(Dir(fs, d))
  }

  ghost function Bound(fs: Fs, d: nat, name: seq<Byte>): Word
    requires TreeOk(fs) && d < |fs.inodes| && Binds(fs, d, name)
  {
    Listing(Dir(fs, d))[name]
  }

  /** A table of zeros, and what it decodes to: inodes without blocks. */
  method BlankTable(size: nat) returns (table: Table, ghost inodes: seq<Inode>)
    requires FIELD_BYTES <= size <= SLOT
    ensures Decoded(table, size, inodes)
    ensures forall i :: 0 <= i < |inodes| ==> inodes[i].Shaped() && InRange(inodes[i], 1)
  {
    table := seq(128, _ => Zeros(SECTOR));
    assert TableOk(table, size);
    inodes := seq(MAX_INODES, i requires 0 <= i < MAX_INODES => InodeAt(table, size, i));
    forall i | 0 <= i < MAX_INODES ensures inodes[i].Shaped() && InRange(inodes[i], 1) {
      BlankInode(ReadSlot(table, i, size));
    }
  }

  /** One live inode, an empty directory: a consistent file system. */
  lemma FreshTree(fs: Fs)
    requires Shape(fs) && fs.used[0] && |fs.inodes| == MAX_INODES
    requires fs.live[0] && (forall i :: 0 < i < MAX_INODES ==> !fs.live[i]) && EmptyFile(fs.inodes[0])
    requires fs.inodes[0].kind == KIND_DIR && forall b :: 0 < b < |fs.used| ==> !fs.used[b]
    ensures TreeOk(fs) && DirOk(fs, 0) && Listing(Dir(fs, 0)) == map[]
  {
    assert FileOk(fs, 0) && Apart(fs, 0, 0) && DirOk(fs, 0) && Dir(fs, 0) == [] && NamesOnce(fs, 0, 0);
  }

  /** Entries never cross a block boundary, so a short write of one wrote nothing. */
  lemma WholeOrNothing(size: nat, r: int)
    requires size % ENTRY == 0 && 0 <= r <= ENTRY && (r < ENTRY ==> (size + r) % 512 == 0)
    ensures r == ENTRY || (r == 0 && size % 512 == 0)
  {
    if r < ENTRY {
      var q := (size + r) / 512;
      assert r == ENTRY * (16 * q - size / ENTRY);
    }
  }

  /** The cache scan: the valid entry for the inode, or -1. */
  method FindCached(cache: seq<CacheEntry>, ino: nat) returns (r: int)
    requires |cache| == CACHE_SIZE
    ensures r == CachedAt(cache, ino, 0)
  {
    for i := 0 to CACHE_SIZE
      invariant CachedAt(cache, ino, 0) == CachedAt(cache, ino, i)
    {
      if cache[i].valid && cache[i].num == ino {
        return i;
      }
    }
    return -1;
  }

  /** The first valid entry for the inode at or after i, or -1. */
  function CachedAt(cache: seq<CacheEntry>, ino: nat, i: nat): (r: int)
    requires |cache| == CACHE_SIZE && i <= CACHE_SIZE
    ensures r >= 0 ==> r < CACHE_SIZE && cache[r].valid && cache[r].num == ino
    ensures r < 0 ==> r == -1 && forall k :: i <= k < CACHE_SIZE ==> !(cache[k].valid && cache[k].num == ino)
    decreases CACHE_SIZE - i
  {
    if i == CACHE_SIZE then -1
    else if cache[i].valid && cache[i].num == ino then i
    else CachedAt(cache, ino, i + 1)
  }

  /** Filling an entry after a miss keeps the cache consistent. */
  lemma FilledCache(cache: seq<CacheEntry>, inodes: seq<Inode>, at: nat, ino: nat)
    requires CacheOk(cache, inodes) && at < CACHE_SIZE && ino < |inodes| && CachedAt(cache, ino, 0) < 0
    ensures CacheOk(cache[at := CacheEntry(true, ino, inodes[ino])], inodes)
  {
  }

  /** Updating the entry of a written inode keeps the cache consistent; without one there is nothing to do. */
  lemma UpdatedCache(cache: seq<CacheEntry>, inodes: seq<Inode>, ino: nat, f: Inode)
    requires CacheOk(cache, inodes) && ino < |inodes|
    ensures var i := CachedAt(cache, ino, 0);
            CacheOk(if i >= 0 then cache[i := CacheEntry(true, ino, f)] else cache, inodes[ino := f])
  {
  }
}
