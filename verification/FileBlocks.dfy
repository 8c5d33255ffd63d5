/**
 Files as blocks: what block pointers, the block bitmap and the data sectors mean together, and what
 writing one chunk inside one block does to the file it belongs to and to every other file.
 */
module FileBlocks {
  import opened Words
  import opened DiskFormat

  /** 12 direct blocks of 512 bytes. */
  const MAX_FILE_SIZE: nat := 6144

  type Sector = s: seq<Byte> | |s| == 512 witness seq(512, _ => 0)

  /** Decoded inodes, their allocation bits, the data sectors and theirs. */
  datatype Fs = Fs(inodes: seq<Inode>, live: seq<bool>, data: seq<Sector>, used: seq<bool>)

  ghost predicate Shape(fs: Fs) {
    && |fs.live| == |fs.inodes| && |fs.used| == |fs.data| && 0 < |fs.data| < 0x1_0000_0000
    && forall i :: 0 <= i < |fs.inodes| ==> fs.inodes[i].Shaped() && InRange(fs.inodes[i], |fs.data|)
  }

  /** The block pointers lie on the disk. */
  ghost predicate InRange(f: Inode, blocks: nat) {
    forall k :: 0 <= k < |f.blocks| ==> f.blocks[k] < blocks
  }

  /** A live file's blocks are exactly those below its size, in range and marked used. */
  ghost predicate FileOk(fs: Fs, i: nat)
    requires Shape(fs) && i < |fs.inodes|
  {
    var f := fs.inodes[i];
    && f.size <= MAX_FILE_SIZE
    && forall k :: 0 <= k < DIRECT_BLOCKS ==>
         && (f.blocks[k] != 0 <==> k * 512 < f.size)
         && (f.blocks[k] != 0 ==> f.blocks[k] < |fs.data| && fs.used[f.blocks[k]])
  }

  /** No block serves two files, or one file twice. */
  ghost predicate Apart(fs: Fs, i: nat, j: nat)
    requires Shape(fs) && i < |fs.inodes| && j < |fs.inodes|
  {
    forall k, l :: 0 <= k < DIRECT_BLOCKS && 0 <= l < DIRECT_BLOCKS ==>
      fs.inodes[i].blocks[k] != 0 && fs.inodes[i].blocks[k] == fs.inodes[j].blocks[l] ==> i == j && k == l
  }

  /** Block b is one of a live file's. */
  ghost predicate Owned(fs: Fs, b: nat)
    requires Shape(fs)
  {
    exists i, k :: 0 <= i < |fs.inodes| && fs.live[i] && 0 <= k < DIRECT_BLOCKS && fs.inodes[i].blocks[k] == b
  }

  /** Block 0 is reserved, and every other block in use belongs to a live file, at one place: none is lost or shared. */
  ghost predicate FsOk(fs: Fs) {
    && Shape(fs)
    && fs.used[0]
    && (forall b {:trigger Owned(fs, b)} :: 0 < b < |fs.used| && fs.used[b] ==> Owned(fs, b))
    && (forall i {:trigger FileOk(fs, i)} :: 0 <= i < |fs.inodes| && fs.live[i] ==> FileOk(fs, i))
    && (forall i, j {:trigger Apart(fs, i, j)} ::
          0 <= i < |fs.inodes| && 0 <= j < |fs.inodes| && fs.live[i] && fs.live[j] ==> Apart(fs, i, j))
  }

  /** Byte p of a live file. */
  ghost function ByteAt(fs: Fs, i: nat, p: nat): Byte
    requires Shape(fs) && i < |fs.inodes| && FileOk(fs, i) && p < fs.inodes[i].size
  {
    fs.data[fs.inodes[i].blocks[p / 512]][p % 512]
  }

  /** The plain byte array a live inode stands for. */
  ghost function Content(fs: Fs, i: nat): (c: seq<Byte>)
    requires Shape(fs) && i < |fs.inodes| && FileOk(fs, i)
    ensures |c| == fs.inodes[i].size
  {
    seq(fs.inodes[i].size, p requires 0 <= p < fs.inodes[i].size => ByteAt(fs, i, p))
  }

  /** The array with the chunk written at pos, extended if the chunk reaches past the end. */
  function Splice(c: seq<Byte>, pos: nat, chunk: seq<Byte>): (r: seq<Byte>)
    requires pos <= |c|
    ensures |r| == if pos + |chunk| > |c| then pos + |chunk| else |c|
  {
    c[..pos] + chunk + (if pos + |chunk| < |c| then c[pos + |chunk|..] else [])
  }

  lemma SpliceTwice(c: seq<Byte>, pos: nat, a: seq<Byte>, b: seq<Byte>)
    requires pos <= |c|
    ensures Splice(Splice(c, pos, a), pos + |a|, b) == Splice(c, pos, a + b)
  {
    var x, y := Splice(Splice(c, pos, a), pos + |a|, b), Splice(c, pos, a + b);
    assert |x| == |y|;
    forall p | 0 <= p < |x| ensures x[p] == y[p] {
    }
  }

  // ------------------------------------------------------------------ one chunk

  function Max(a: nat, b: nat): nat { if a < b then b else a }

  function Overwrite(s: Sector, o: nat, chunk: seq<Byte>): Sector
    requires o + |chunk| <= 512
  {
    s[..o] + chunk + s[o + |chunk|..]
  }

  /** The inode after a chunk at pos went into the given block. */
  function Grown(f: Inode, pos: nat, len: nat, block: Word): (g: Inode)
    requires f.Shaped() && pos / 512 < DIRECT_BLOCKS && pos + len < 0x1_0000_0000
    ensures g.Shaped()
  {
    f.(blocks := f.blocks[pos / 512 := block], size := Max(f.size, pos + len))
  }

  /** One round of diskfs_write: the chunk lies in one block, which is the file's or a free one. */
  function PutChunk(fs: Fs, i: nat, pos: nat, chunk: seq<Byte>, block: Word): Fs
    requires i < |fs.inodes| && fs.inodes[i].Shaped() && pos % 512 + |chunk| <= 512 && pos / 512 < DIRECT_BLOCKS
    requires block < |fs.data| && block < |fs.used| && pos + |chunk| < 0x1_0000_0000
  {
    Fs(fs.inodes[i := Grown(fs.inodes[i], pos, |chunk|, block)], fs.live,
       fs.data[block := Overwrite(fs.data[block], pos % 512, chunk)], fs.used[block := true])
  }

  ghost predicate ChunkFits(fs: Fs, i: nat, pos: nat, chunk: seq<Byte>, block: Word) {
    && FsOk(fs) && i < |fs.inodes| && fs.live[i] && FileOk(fs, i)
    && pos <= fs.inodes[i].size && pos / 512 < DIRECT_BLOCKS && 0 < |chunk| && pos % 512 + |chunk| <= 512
    && 0 < block < |fs.data|
    && (if fs.inodes[i].blocks[pos / 512] != 0 then block == fs.inodes[i].blocks[pos / 512] else !fs.used[block])
  }

  /** A fresh block is only ever needed exactly at the end of a file that fills its blocks. */
  lemma FreshBlockAtEnd(fs: Fs, i: nat, pos: nat, chunk: seq<Byte>, block: Word)
    requires ChunkFits(fs, i, pos, chunk, block) && fs.inodes[i].blocks[pos / 512] == 0
    ensures pos % 512 == 0 && pos == fs.inodes[i].size
  {
  }

  /** The chunk's block belongs to no other live file and to no other place in this one. */
  lemma BlockIsOwn(fs: Fs, i: nat, pos: nat, chunk: seq<Byte>, block: Word, j: nat, l: nat)
    requires ChunkFits(fs, i, pos, chunk, block) && j < |fs.inodes| && fs.live[j] && l < DIRECT_BLOCKS
    ensures fs.inodes[j].blocks[l] == block ==> j == i && l == pos / 512
  {
    assert FileOk(fs, j) && Apart(fs, i, j);
  }

  lemma PutChunkFiles(fs: Fs, i: nat, pos: nat, chunk: seq<Byte>, block: Word, j: nat)
    requires ChunkFits(fs, i, pos, chunk, block) && j < |fs.inodes| && fs.live[j]
    ensures Shape(PutChunk(fs, i, pos, chunk, block)) && FileOk(PutChunk(fs, i, pos, chunk, block), j)
  {
    assert FileOk(fs, j);
  }

  lemma PutChunkApart(fs: Fs, i: nat, pos: nat, chunk: seq<Byte>, block: Word, j: nat, j': nat)
    requires ChunkFits(fs, i, pos, chunk, block) && j < |fs.inodes| && j' < |fs.inodes| && fs.live[j] && fs.live[j']
    requires Shape(PutChunk(fs, i, pos, chunk, block))
    ensures Apart(PutChunk(fs, i, pos, chunk, block), j, j')
  {
    var fs' := PutChunk(fs, i, pos, chunk, block);
    assert Apart(fs, j, j');
    forall k, l | 0 <= k < DIRECT_BLOCKS && 0 <= l < DIRECT_BLOCKS && fs'.inodes[j].blocks[k] != 0
                  && fs'.inodes[j].blocks[k] == fs'.inodes[j'].blocks[l]
      ensures j == j' && k == l
    {
      BlockIsOwn(fs, i, pos, chunk, block, j, k);
      BlockIsOwn(fs, i, pos, chunk, block, j', l);
    }
  }

  lemma PutChunkOk(fs: Fs, i: nat, pos: nat, chunk: seq<Byte>, block: Word)
    requires ChunkFits(fs, i, pos, chunk, block)
    ensures FsOk(PutChunk(fs, i, pos, chunk, block))
  {
    var fs' := PutChunk(fs, i, pos, chunk, block);
    PutChunkFiles(fs, i, pos, chunk, block, i);
    forall j | 0 <= j < |fs'.inodes| && fs'.live[j] ensures FileOk(fs', j) {
      PutChunkFiles(fs, i, pos, chunk, block, j);
    }
    forall j, j' | 0 <= j < |fs'.inodes| && 0 <= j' < |fs'.inodes| && fs'.live[j] && fs'.live[j']
      ensures Apart(fs', j, j')
    {
      PutChunkApart(fs, i, pos, chunk, block, j, j');
    }
    forall b | 0 < b < |fs'.used| && fs'.used[b] ensures Owned(fs', b) {
      PutChunkOwned(fs, i, pos, chunk, block, b);
    }
  }

  /** The chunk's block is the file's own now, and no pointer to another block is lost. */
  lemma PutChunkOwned(fs: Fs, i: nat, pos: nat, chunk: seq<Byte>, block: Word, b: nat)
    requires ChunkFits(fs, i, pos, chunk, block) && Shape(PutChunk(fs, i, pos, chunk, block))
    requires 0 < b < |fs.used| && PutChunk(fs, i, pos, chunk, block).used[b]
    ensures Owned(PutChunk(fs, i, pos, chunk, block), b)
  {
    var fs' := PutChunk(fs, i, pos, chunk, block);
    if b == block {
      assert fs'.inodes[i].blocks[pos / 512] == b;
    } else {
      assert Owned(fs, b);
      var j, k :| 0 <= j < |fs.inodes| && fs.live[j] && 0 <= k < DIRECT_BLOCKS && fs.inodes[j].blocks[k] == b;
      assert fs'.inodes[j].blocks[k] == b;
    }
  }

  /** Ownership carries over where the owners keep their pointers. */
  lemma OwnedStill(fs: Fs, fs': Fs, b: nat)
    requires Shape(fs) && Shape(fs') && |fs'.inodes| == |fs.inodes| && Owned(fs, b)
    requires forall j, k ::
        0 <= j < |fs.inodes| && fs.live[j] && 0 <= k < DIRECT_BLOCKS && fs.inodes[j].blocks[k] == b ==>
        fs'.live[j] && fs'.inodes[j].blocks[k] == b
    ensures Owned(fs', b)
  {
    var j, k :| 0 <= j < |fs.inodes| && fs.live[j] && 0 <= k < DIRECT_BLOCKS && fs.inodes[j].blocks[k] == b;
    assert fs'.live[j] && fs'.inodes[j].blocks[k] == b;
  }

  /** The file reads back with the chunk spliced in. */
  lemma PutChunkContent(fs: Fs, i: nat, pos: nat, chunk: seq<Byte>, block: Word)
    requires ChunkFits(fs, i, pos, chunk, block)
    ensures var fs' := PutChunk(fs, i, pos, chunk, block);
            Shape(fs') && FileOk(fs', i) && Content(fs', i) == Splice(Content(fs, i), pos, chunk)
  {
    PutChunkFiles(fs, i, pos, chunk, block, i);
    var fs' := PutChunk(fs, i, pos, chunk, block);
    var c, c' := Splice(Content(fs, i), pos, chunk), Content(fs', i);
    assert |c| == |c'|;
    forall p | 0 <= p < |c'| ensures c'[p] == c[p] {
      PutChunkByte(fs, i, pos, chunk, block, p);
    }
  }

  lemma PutChunkByte(fs: Fs, i: nat, pos: nat, chunk: seq<Byte>, block: Word, p: nat)
    requires ChunkFits(fs, i, pos, chunk, block)
    requires Shape(PutChunk(fs, i, pos, chunk, block)) && FileOk(PutChunk(fs, i, pos, chunk, block), i)
    requires p < Max(fs.inodes[i].size, pos + |chunk|)
    ensures ByteAt(PutChunk(fs, i, pos, chunk, block), i, p) ==
            if pos <= p < pos + |chunk| then chunk[p - pos] else if p < fs.inodes[i].size then ByteAt(fs, i, p) else 0
  {
    var f := fs.inodes[i];
    if p / 512 == pos / 512 {
      assert p - pos == p % 512 - pos % 512;
      if f.blocks[pos / 512] == 0 { FreshBlockAtEnd(fs, i, pos, chunk, block); }
    } else {
      assert p < f.size;
      BlockIsOwn(fs, i, pos, chunk, block, i, p / 512);
    }
  }

  /** Every other file reads back unchanged. */
  lemma PutChunkOthers(fs: Fs, i: nat, pos: nat, chunk: seq<Byte>, block: Word, j: nat)
    requires ChunkFits(fs, i, pos, chunk, block) && j < |fs.inodes| && fs.live[j] && j != i && FileOk(fs, j)
    ensures var fs' := PutChunk(fs, i, pos, chunk, block);
            Shape(fs') && FileOk(fs', j) && Content(fs', j) == Content(fs, j)
  {
    PutChunkFiles(fs, i, pos, chunk, block, j);
    var fs' := PutChunk(fs, i, pos, chunk, block);
    forall p | 0 <= p < fs.inodes[j].size ensures ByteAt(fs', j, p) == ByteAt(fs, j, p) {
      BlockIsOwn(fs, i, pos, chunk, block, j, p / 512);
    }
  }

  // -------------------------------------------------------------- a whole write

  /** Inode j is the same and, if it is live, so is its content. */
  ghost predicate Untouched(fs: Fs, fs': Fs, j: nat)
    requires Shape(fs) && Shape(fs') && j < |fs.inodes| && j < |fs'.inodes|
  {
    && fs'.inodes[j] == fs.inodes[j]
    && (fs.live[j] ==> FileOk(fs, j) && FileOk(fs', j) && Content(fs', j) == Content(fs, j))
  }

  /** File j after bytes were written to file i: spliced in if it is that file, and otherwise the same. */
  ghost predicate FileAfter(fs: Fs, fs': Fs, i: nat, offset: nat, bytes: seq<Byte>, j: nat)
    requires Shape(fs) && Shape(fs') && j < |fs.inodes| && j < |fs'.inodes|
  {
    if j != i then Untouched(fs, fs', j)
    else
      && FileOk(fs, i) && FileOk(fs', i) && offset <= |Content(fs, i)|
      && Content(fs', i) == Splice(Content(fs, i), offset, bytes)
      && fs'.inodes[i].kind == fs.inodes[i].kind
  }

  /** fs' differs from fs only in that the bytes were spliced into file i; times aside, nothing else changed. */
  ghost predicate Written(fs: Fs, fs': Fs, i: nat, offset: nat, bytes: seq<Byte>) {
    && FsOk(fs) && FsOk(fs') && |fs'.inodes| == |fs.inodes| && i < |fs.inodes| && fs'.live == fs.live && fs.live[i]
    && forall j {:trigger FileAfter(fs, fs', i, offset, bytes, j)} :: 0 <= j < |fs.inodes| ==>
        FileAfter(fs, fs', i, offset, bytes, j)
  }

  lemma StartWrite(fs: Fs, i: nat, offset: nat)
    requires FsOk(fs) && i < |fs.inodes| && fs.live[i] && FileOk(fs, i) && offset <= |Content(fs, i)|
    ensures Written(fs, fs, i, offset, [])
  {
    assert Splice(Content(fs, i), offset, []) == Content(fs, i);
    forall j | 0 <= j < |fs.inodes| ensures FileAfter(fs, fs, i, offset, [], j) {
      assert fs.live[j] ==> FileOk(fs, j);
    }
  }

  lemma SpliceMore(c: seq<Byte>, offset: nat, buffer: seq<Byte>, a: nat, b: nat)
    requires offset <= |c| && a <= b <= |buffer|
    ensures Splice(Splice(c, offset, buffer[..a]), offset + a, buffer[a..b]) == Splice(c, offset, buffer[..b])
  {
    assert buffer[..a] + buffer[a..b] == buffer[..b];
    SpliceTwice(c, offset, buffer[..a], buffer[a..b]);
  }

  lemma WriteMore(fs: Fs, mid: Fs, fs': Fs, i: nat, offset: nat, buffer: seq<Byte>, a: nat, b: nat)
    requires a <= b <= |buffer| && Written(fs, mid, i, offset, buffer[..a])
    requires Stepped(mid, fs', i, offset + a, buffer[a..b])
    ensures Written(fs, fs', i, offset, buffer[..b])
  {
    var pos, done, chunk := offset + a, buffer[..a], buffer[a..b];
    var block :| ChunkFits(mid, i, pos, chunk, block) && fs' == PutChunk(mid, i, pos, chunk, block);
    PutChunkOk(mid, i, pos, chunk, block);
    forall j | 0 <= j < |fs.inodes| ensures FileAfter(fs, fs', i, offset, buffer[..b], j) {
      assert FileAfter(fs, mid, i, offset, done, j);
      if j == i {
        PutChunkContent(mid, i, pos, chunk, block);
        SpliceMore(Content(fs, i), offset, buffer, a, b);
      } else if fs.live[j] {
        PutChunkOthers(mid, i, pos, chunk, block, j);
      }
    }
  }

  lemma FinishWrite(fs: Fs, mid: Fs, i: nat, offset: nat, bytes: seq<Byte>, f: Inode)
    requires Written(fs, mid, i, offset, bytes) && f.blocks == mid.inodes[i].blocks && f.size == mid.inodes[i].size
    requires f.kind == mid.inodes[i].kind
    ensures Written(fs, mid.(inodes := mid.inodes[i := f]), i, offset, bytes)
  {
    TouchOk(mid, i, f);
    var fs' := mid.(inodes := mid.inodes[i := f]);
    forall j | 0 <= j < |fs.inodes| ensures FileAfter(fs, fs', i, offset, bytes, j) {
      assert FileAfter(fs, mid, i, offset, bytes, j);
    }
  }

  /** fs' is fs after one chunk went into file i. */
  ghost predicate Stepped(fs: Fs, fs': Fs, i: nat, pos: nat, chunk: seq<Byte>) {
    exists block :: ChunkFits(fs, i, pos, chunk, block) && fs' == PutChunk(fs, i, pos, chunk, block)
  }

  // --------------------------------------------------------- bits and counters

  function CountClear(bits: seq<bool>): nat {
    if bits == [] then 0 else CountClear(bits[..|bits| - 1]) + (if bits[|bits| - 1] then 0 else 1)
  }

  lemma {:induction false} CountUpdate(bits: seq<bool>, k: nat, b: bool)
    requires k < |bits|
    ensures CountClear(bits[k := b]) == CountClear(bits) + (if b then 0 else 1) - (if bits[k] then 0 else 1)
    decreases |bits|
  {
    var n := |bits| - 1;
    if k == n {
      assert bits[k := b][..n] == bits[..n];
    } else {
      assert bits[k := b][..n] == bits[..n][k := b];
      CountUpdate(bits[..n], k, b);
    }
  }

  lemma {:induction false} CountAllClear(bits: seq<bool>)
    requires forall k :: 0 <= k < |bits| ==> !bits[k]
    ensures CountClear(bits) == |bits|
    decreases |bits|
  {
    if bits != [] { CountAllClear(bits[..|bits| - 1]); }
  }

  // ------------------------------------------------------- new and dropped files

  lemma {:induction false} ZeroWords(b: seq<Byte>)
    requires forall k :: 0 <= k < |b| ==> b[k] == 0
    ensures forall k :: 0 <= k < |b| / 4 ==> DecodeWords(b)[k] == 0
    decreases |b|
  {
    if |b| >= 4 {
      ZeroWords(b[4..]);
      var ws := DecodeWords(b[4..]);
      assert DecodeWords(b) == [WordOf(b[..4])] + ws;
    }
  }

  /** A slot of zeros decodes to an inode without blocks. */
  lemma BlankInode(b: seq<Byte>)
    requires |b| >= FIELD_BYTES && forall k :: 0 <= k < |b| ==> b[k] == 0
    ensures Decode(b).Shaped() && InRange(Decode(b), 1)
  {
    ZeroWords(b[..FIELD_BYTES]);
  }

  /** An empty file in a free inode. */
  ghost predicate EmptyFile(f: Inode) {
    f.Shaped() && f.size == 0 && forall k :: 0 <= k < DIRECT_BLOCKS ==> f.blocks[k] == 0
  }

  lemma NewFileOk(fs: Fs, i: nat, f: Inode)
    requires FsOk(fs) && i < |fs.inodes| && !fs.live[i] && EmptyFile(f)
    ensures var fs' := fs.(inodes := fs.inodes[i := f], live := fs.live[i := true]);
            && FsOk(fs') && FileOk(fs', i) && Content(fs', i) == []
            && forall j :: 0 <= j < |fs.inodes| && fs.live[j] && FileOk(fs, j) ==>
                FileOk(fs', j) && Content(fs', j) == Content(fs, j)
  {
    var fs' := fs.(inodes := fs.inodes[i := f], live := fs.live[i := true]);
    forall j | 0 <= j < |fs.inodes| && fs'.live[j] ensures FileOk(fs', j) {
      assert j != i ==> FileOk(fs, j);
    }
    forall b | 0 < b < |fs'.used| && fs'.used[b] ensures Owned(fs', b) {
      assert Owned(fs, b);
      OwnedStill(fs, fs', b);
    }
    forall j, l | 0 <= j < |fs'.inodes| && 0 <= l < |fs'.inodes| && fs'.live[j] && fs'.live[l]
      ensures Apart(fs', j, l)
    {
      assert j != i && l != i ==> Apart(fs, j, l);
    }
    forall j | 0 <= j < |fs.inodes| && fs.live[j] && FileOk(fs, j)
      ensures FileOk(fs', j) && Content(fs', j) == Content(fs, j)
    {
      assert fs'.inodes[j] == fs.inodes[j];
    }
  }

  /** Block b is among the first n block pointers of f. */
  ghost predicate PointsTo(f: Inode, n: nat, b: nat) {
    b != 0 && exists k :: 0 <= k < n && k < |f.blocks| && f.blocks[k] == b
  }

  /** The bitmap without the first n blocks of f. */
  ghost predicate Released(used: seq<bool>, used': seq<bool>, f: Inode, n: nat) {
    && |used'| == |used|
    && forall b :: 0 <= b < |used| ==> used'[b] == (used[b] && !PointsTo(f, n, b))
  }

  /** The bitmap without the blocks of f. */
  ghost predicate BlocksReleased(used: seq<bool>, used': seq<bool>, f: Inode) {
    Released(used, used', f, DIRECT_BLOCKS)
  }

  /** The next block is still marked used when its turn comes, and clearing it is one more released. */
  lemma ReleaseStep(fs: Fs, i: nat, used': seq<bool>, n: nat)
    requires FsOk(fs) && i < |fs.inodes| && fs.live[i] && n < DIRECT_BLOCKS && Released(fs.used, used', fs.inodes[i], n)
    ensures var b := fs.inodes[i].blocks[n];
            if b == 0 then Released(fs.used, used', fs.inodes[i], n + 1)
            else b < |used'| && used'[b] && Released(fs.used, used'[b := false], fs.inodes[i], n + 1)
  {
    var f := fs.inodes[i];
    assert FileOk(fs, i) && Apart(fs, i, i);
    forall b ensures PointsTo(f, n + 1, b) <==> PointsTo(f, n, b) || (b != 0 && b == f.blocks[n]) {
    }
  }

  lemma DropFileOk(fs: Fs, i: nat, used': seq<bool>)
    requires FsOk(fs) && i < |fs.inodes| && fs.live[i] && BlocksReleased(fs.used, used', fs.inodes[i])
    ensures var fs' := fs.(live := fs.live[i := false], used := used');
            && FsOk(fs')
            && forall j :: 0 <= j < |fs.inodes| && fs.live[j] && j != i && FileOk(fs, j) ==>
                FileOk(fs', j) && Content(fs', j) == Content(fs, j)
  {
    var fs' := fs.(live := fs.live[i := false], used := used');
    forall j | 0 <= j < |fs.inodes| && fs'.live[j] ensures FileOk(fs', j) {
      assert FileOk(fs, j) && Apart(fs, j, i);
    }
    forall b | 0 < b < |fs'.used| && fs'.used[b] ensures Owned(fs', b) {
      assert Owned(fs, b) && !PointsTo(fs.inodes[i], DIRECT_BLOCKS, b);
      OwnedStill(fs, fs', b);
    }
    forall j, l | 0 <= j < |fs'.inodes| && 0 <= l < |fs'.inodes| && fs'.live[j] && fs'.live[l]
      ensures Apart(fs', j, l)
    {
      assert Apart(fs, j, l);
    }
    forall j | 0 <= j < |fs.inodes| && fs.live[j] && j != i && FileOk(fs, j)
      ensures FileOk(fs', j) && Content(fs', j) == Content(fs, j)
    {
      assert fs'.inodes[j] == fs.inodes[j];
      forall p | 0 <= p < fs.inodes[j].size ensures ByteAt(fs', j, p) == ByteAt(fs, j, p) {
      }
    }
  }

  /** Changing only times or parent of an inode changes no content. */
  lemma TouchOk(fs: Fs, i: nat, f: Inode)
    requires FsOk(fs) && i < |fs.inodes| && f.blocks == fs.inodes[i].blocks && f.size == fs.inodes[i].size
    ensures var fs' := fs.(inodes := fs.inodes[i := f]);
            && FsOk(fs')
            && forall j :: 0 <= j < |fs.inodes| && fs.live[j] && FileOk(fs, j) ==>
                FileOk(fs', j) && Content(fs', j) == Content(fs, j)
  {
    var fs' := fs.(inodes := fs.inodes[i := f]);
    forall j | 0 <= j < |fs.inodes| && fs.live[j] ensures FileOk(fs', j) {
      assert FileOk(fs, j);
    }
    forall b | 0 < b < |fs'.used| && fs'.used[b] ensures Owned(fs', b) {
      assert Owned(fs, b);
      OwnedStill(fs, fs', b);
    }
    forall j, l | 0 <= j < |fs'.inodes| && 0 <= l < |fs'.inodes| && fs'.live[j] && fs'.live[l]
      ensures Apart(fs', j, l)
    {
      assert Apart(fs, j, l);
    }
    forall j | 0 <= j < |fs.inodes| && fs.live[j] && FileOk(fs, j)
      ensures FileOk(fs', j) && Content(fs', j) == Content(fs, j)
    {
      forall p | 0 <= p < fs.inodes[j].size ensures ByteAt(fs', j, p) == ByteAt(fs, j, p) {
      }
    }
  }
}
