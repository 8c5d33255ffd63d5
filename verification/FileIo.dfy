/**
 The loops of diskfs_read and diskfs_write as functions on any inode, and what they amount to on a live
 one: slices of, and splices into, its byte array.
 */
module FileIo {
  import opened Words
  import opened DiskFormat
  import opened FileBlocks

  /** How much of the remaining bytes belongs to the block that position pos lies in. */
  function ChunkSize(pos: nat, left: nat): (n: nat)
    requires left > 0
    ensures 0 < n <= left && pos % 512 + n <= 512 && pos + n <= (pos / 512 + 1) * 512
  {
    if left < 512 - pos % 512 then left else 512 - pos % 512
  }

  // --------------------------------------------------------------------- reading

  /** The inode has a block for position pos. */
  predicate HasBlock(f: Inode, pos: nat)
    requires f.Shaped()
  {
    pos / 512 < DIRECT_BLOCKS && f.blocks[pos / 512] != 0
  }

  /** n bytes of the block that position pos lies in. */
  function ChunkAt(data: seq<Sector>, f: Inode, pos: nat, n: nat): (b: seq<Byte>)
    requires f.Shaped() && InRange(f, |data|) && HasBlock(f, pos) && pos % 512 + n <= 512
    ensures |b| == n
  {
    data[f.blocks[pos / 512]][pos % 512..pos % 512 + n]
  }

  /** The loop of diskfs_read from position pos on: it stops where the inode has no block. */
  function ReadLoop(data: seq<Sector>, f: Inode, pos: nat, left: nat): (b: seq<Byte>)
    requires f.Shaped() && InRange(f, |data|)
    ensures |b| <= left
    decreases left
  {
    if left == 0 || !HasBlock(f, pos) then []
    else
      var n := ChunkSize(pos, left);
      ChunkAt(data, f, pos, n) + ReadLoop(data, f, pos + n, left - n)
  }

  /** Size as diskfs_read clips it: the end of the range is computed in 32 bits. */
  function ClippedSize(n: nat, offset: Word, count: Word): nat
    requires offset < n
  {
    if (offset + count) % 0x1_0000_0000 > n then n - offset else count
  }

  /** What diskfs_read returns for an inode. */
  function ReadOf(data: seq<Sector>, f: Inode, offset: Word, count: Word): seq<Byte>
    requires f.Shaped() && InRange(f, |data|)
  {
    if offset >= f.size then [] else ReadLoop(data, f, offset, ClippedSize(f.size, offset, count))
  }

  /** One more chunk read. */
  lemma GatherStep(data: seq<Sector>, f: Inode, all: seq<Byte>, buf: seq<Byte>, pos: nat, left: nat)
    requires f.Shaped() && InRange(f, |data|) && left > 0 && HasBlock(f, pos)
    requires all == buf + ReadLoop(data, f, pos, left)
    ensures var n := ChunkSize(pos, left);
        all == (buf + ChunkAt(data, f, pos, n)) + ReadLoop(data, f, pos + n, left - n)
  {
    var n := ChunkSize(pos, left);
    var c, rest := ChunkAt(data, f, pos, n), ReadLoop(data, f, pos + n, left - n);
    assert ReadLoop(data, f, pos, left) == c + rest;
    assert buf + (c + rest) == (buf + c) + rest;
  }

  /** The loop, block by block as the source runs it. */
  method Gather(data: seq<Sector>, inode: Inode, offset: nat, size: nat) returns (buf: seq<Byte>)
    requires inode.Shaped() && InRange(inode, |data|)
    ensures buf == ReadLoop(data, inode, offset, size)
  {
    buf := [];
    ghost var all := ReadLoop(data, inode, offset, size);
    var pos: nat, left: nat := offset, size;
    while left > 0
      invariant all == buf + ReadLoop(data, inode, pos, left)
      decreases left
    {
      if !HasBlock(inode, pos) {
        return;
      }
      var toRead := ChunkSize(pos, left);
      GatherStep(data, inode, all, buf, pos, left);
      buf := buf + ChunkAt(data, inode, pos, toRead);
      pos, left := pos + toRead, left - toRead;
    }
  }

  /** The bytes of all the blocks of a live file: its content, then the rest of the last block. */
  ghost function Extent(fs: Fs, i: nat): (c: seq<Byte>)
    requires Shape(fs) && i < |fs.inodes| && FileOk(fs, i)
    ensures |c| == RoundUp(fs.inodes[i].size)
  {
    var f := fs.inodes[i];
    seq(RoundUp(f.size), p requires 0 <= p < RoundUp(f.size) => fs.data[f.blocks[p / 512]][p % 512])
  }

  function RoundUp(n: nat): nat { (n + 511) / 512 * 512 }

  function Min(a: nat, b: nat): nat { if a < b then a else b }

  /** The part of an array a read returns. */
  function Slice(c: seq<Byte>, offset: nat, count: nat): seq<Byte> {
    if offset >= |c| then [] else if offset + count > |c| then c[offset..] else c[offset..offset + count]
  }

  lemma ContentOfExtent(fs: Fs, i: nat)
    requires Shape(fs) && i < |fs.inodes| && FileOk(fs, i)
    ensures Content(fs, i) == Extent(fs, i)[..fs.inodes[i].size]
  {
    var a, b := Content(fs, i), Extent(fs, i)[..fs.inodes[i].size];
    forall p | 0 <= p < |a| ensures a[p] == b[p] {
    }
  }

  lemma SlicesJoin(c: seq<Byte>, i: nat, j: nat, k: nat)
    requires i <= j <= k <= |c|
    ensures c[i..j] + c[j..k] == c[i..k]
  {
  }

  /** Block k of the inode holds its part of x. */
  ghost predicate HoldsBlock(data: seq<Sector>, f: Inode, x: seq<Byte>, k: nat)
    requires f.Shaped() && InRange(f, |data|) && k < DIRECT_BLOCKS && 512 * k + 512 <= |x|
  {
    f.blocks[k] != 0 && data[f.blocks[k]] == x[512 * k..512 * k + 512]
  }

  /** The inode's blocks hold x, and there are no more of them. */
  ghost predicate HoldsBlocks(data: seq<Sector>, f: Inode, x: seq<Byte>, blocks: nat) {
    && f.Shaped() && InRange(f, |data|) && |x| == 512 * blocks && blocks <= DIRECT_BLOCKS
    && (blocks < DIRECT_BLOCKS ==> f.blocks[blocks] == 0)
    && forall k {:trigger HoldsBlock(data, f, x, k)} :: 0 <= k < blocks ==> HoldsBlock(data, f, x, k)
  }

  lemma ExtentHolds(fs: Fs, i: nat)
    requires Shape(fs) && i < |fs.inodes| && FileOk(fs, i)
    ensures HoldsBlocks(fs.data, fs.inodes[i], Extent(fs, i), (fs.inodes[i].size + 511) / 512)
  {
    var f, x := fs.inodes[i], Extent(fs, i);
    forall k | 0 <= k < (f.size + 511) / 512 ensures HoldsBlock(fs.data, f, x, k) {
      assert k * 512 < f.size;
      ExtentBlock(fs, i, k);
    }
  }

  lemma ExtentBlock(fs: Fs, i: nat, k: nat)
    requires Shape(fs) && i < |fs.inodes| && FileOk(fs, i) && k < DIRECT_BLOCKS && k * 512 < fs.inodes[i].size
    ensures 512 * k + 512 <= |Extent(fs, i)| && HoldsBlock(fs.data, fs.inodes[i], Extent(fs, i), k)
  {
    var f, x := fs.inodes[i], Extent(fs, i);
    var a, b := fs.data[f.blocks[k]], x[512 * k..512 * k + 512];
    forall j | 0 <= j < 512 ensures a[j] == b[j] {
      assert (512 * k + j) / 512 == k && (512 * k + j) % 512 == j;
      assert b[j] == x[512 * k + j];
    }
  }

  /** Inside one block, the bytes of x are the sector's bytes. */
  lemma ChunkOf(data: seq<Sector>, f: Inode, x: seq<Byte>, blocks: nat, pos: nat, n: nat)
    requires HoldsBlocks(data, f, x, blocks) && pos < |x| && pos % 512 + n <= 512
    ensures HasBlock(f, pos) && pos + n <= |x| && ChunkAt(data, f, pos, n) == x[pos..pos + n]
  {
    var k := pos / 512;
    assert HoldsBlock(data, f, x, k);
    SliceOfSlice(x, 512 * k, 512 * k + 512, pos % 512, pos % 512 + n);
  }

  lemma SliceOfSlice(x: seq<Byte>, a: nat, b: nat, c: nat, d: nat)
    requires a <= b <= |x| && c <= d <= b - a
    ensures x[a..b][c..d] == x[a + c..a + d]
  {
    var u, v := x[a..b][c..d], x[a + c..a + d];
    assert |u| == |v|;
    forall i | 0 <= i < |u| ensures u[i] == v[i] {
    }
  }

  /** The loop's chunk and its rest are two adjacent parts of x. */
  lemma ReadLoopJoin(data: seq<Sector>, f: Inode, x: seq<Byte>, pos: nat, left: nat, end: nat)
    requires f.Shaped() && InRange(f, |data|) && left > 0 && HasBlock(f, pos)
    requires var n := ChunkSize(pos, left);
             && pos + n <= end <= |x| && ChunkAt(data, f, pos, n) == x[pos..pos + n]
             && ReadLoop(data, f, pos + n, left - n) == x[pos + n..end]
    ensures ReadLoop(data, f, pos, left) == x[pos..end]
  {
    SlicesJoin(x, pos, pos + ChunkSize(pos, left), end);
  }

  /** The loop returns what the blocks hold. */
  lemma {:induction false} ReadLoopHeld(data: seq<Sector>, f: Inode, x: seq<Byte>, blocks: nat, pos: nat, left: nat)
    requires HoldsBlocks(data, f, x, blocks) && pos <= |x|
    ensures ReadLoop(data, f, pos, left) == x[pos..Min(pos + left, |x|)]
    decreases left
  {
    if left > 0 && pos < |x| {
      var n := ChunkSize(pos, left);
      ChunkOf(data, f, x, blocks, pos, n);
      ReadLoopHeld(data, f, x, blocks, pos + n, left - n);
      ReadLoopJoin(data, f, x, pos, left, Min(pos + left, |x|));
    }
  }

  /** diskfs_read clips the range only when its end, modulo 2^32, is past the end of the file. */
  predicate ReadsPastEnd(size: nat, offset: Word, count: Word) {
    offset < size && offset + count >= 0x1_0000_0000 && offset + count - 0x1_0000_0000 <= size
  }

  lemma ClippedSlice(x: seq<Byte>, n: nat, offset: Word, count: Word)
    requires offset < n <= |x| < 0x1_0000_0000
    ensures x[offset..Min(offset + ClippedSize(n, offset, count), |x|)] ==
            if ReadsPastEnd(n, offset, count) then x[offset..] else Slice(x[..n], offset, count)
  {
    if ReadsPastEnd(n, offset, count) {
      assert offset + count >= 0x1_0000_0000 && (offset + count) % 0x1_0000_0000 <= n;
    } else if offset + count > n {
      assert ClippedSize(n, offset, count) == n - offset;
      assert x[offset..n] == x[..n][offset..];
    } else {
      assert x[offset..offset + count] == x[..n][offset..offset + count];
    }
  }

  /** What diskfs_read returns for a live inode. */
  lemma ReadOfLive(fs: Fs, i: nat, offset: Word, count: Word)
    requires Shape(fs) && i < |fs.inodes| && FileOk(fs, i)
    ensures ReadOf(fs.data, fs.inodes[i], offset, count) ==
            if ReadsPastEnd(fs.inodes[i].size, offset, count) then Extent(fs, i)[offset..]
                else Slice(Content(fs, i), offset, count)
  {
    var n := fs.inodes[i].size;
    if offset < n {
      ExtentHolds(fs, i);
      ReadLoopHeld(fs.data, fs.inodes[i], Extent(fs, i), (n + 511) / 512, offset, ClippedSize(n, offset, count));
      ContentOfExtent(fs, i);
      ClippedSlice(Extent(fs, i), n, offset, count);
    }
  }

  /**
   A read returns the slice of the byte array unless its range wraps into a file that does not fill its
   last block.
   */
  lemma ReadIsSliceExactly(fs: Fs, i: nat, offset: Word, count: Word)
    requires Shape(fs) && i < |fs.inodes| && FileOk(fs, i)
    ensures ReadOf(fs.data, fs.inodes[i], offset, count) == Slice(Content(fs, i), offset, count) <==>
            !ReadsPastEnd(fs.inodes[i].size, offset, count) || fs.inodes[i].size % 512 == 0
  {
    ReadOfLive(fs, i, offset, count);
    if ReadsPastEnd(fs.inodes[i].size, offset, count) {
      ContentOfExtent(fs, i);
      PaddedSlice(Extent(fs, i), fs.inodes[i].size, offset, count);
    }
  }

  lemma PaddedSlice(x: seq<Byte>, n: nat, offset: nat, count: nat)
    requires offset < n && |x| == RoundUp(n) && offset + count > n
    ensures x[offset..] == Slice(x[..n], offset, count) <==> n % 512 == 0
  {
    assert |x[offset..]| == RoundUp(n) - offset && |Slice(x[..n], offset, count)| == n - offset;
    if n % 512 == 0 {
      assert x[..n] == x;
    }
  }

  // --------------------------------------------------------------------- writing

  ghost predicate Full(bits: seq<bool>) {
    forall k :: 0 <= k < |bits| ==> bits[k]
  }

  /** The lowest clear bit at or after i, or -1. */
  function FirstClear(bits: seq<bool>, i: nat): (r: int)
    requires i <= |bits|
    ensures -1 <= r < |bits|
    ensures r >= 0 ==> i <= r && !bits[r] && forall k :: i <= k < r ==> bits[k]
    ensures r < 0 ==> forall k :: i <= k < |bits| ==> bits[k]
    decreases |bits| - i
  {
    if i == |bits| then -1 else if !bits[i] then i else FirstClear(bits, i + 1)
  }

  /** An inode being written, the sectors and the block bitmap. */
  datatype Draft = Draft(f: Inode, data: seq<Sector>, used: seq<bool>)

  ghost predicate DraftOk(d: Draft) {
    d.f.Shaped() && InRange(d.f, |d.data|) && |d.used| == |d.data| && 0 < |d.data| < 0x1_0000_0000
  }

  /** The result of a round: the draft, and whether the chunk went in. */
  datatype Outcome = Outcome(d: Draft, ok: bool)

  /** One round of diskfs_write: the block is the inode's, or else the lowest free one; it fails if there is none. */
  ghost function Round(d: Draft, pos: nat, chunk: seq<Byte>): (r: Outcome)
    requires DraftOk(d) && pos / 512 < DIRECT_BLOCKS && pos % 512 + |chunk| <= 512
    ensures DraftOk(r.d) && |r.d.data| == |d.data| && r.d.f.(blocks := d.f.blocks) == d.f
  {
    var k := pos / 512;
    var b := if d.f.blocks[k] != 0 then d.f.blocks[k] else FirstClear(d.used, 0);
    if b < 0 then Outcome(d, false)
    else
      Outcome(Draft(d.f.(blocks := d.f.blocks[k := b]), d.data[b := Overwrite(d.data[b], pos % 512, chunk)],
                    if d.f.blocks[k] != 0 then d.used else d.used[b := true]), true)
  }

  /** The round of the loop with done bytes written. */
  ghost function Next(d: Draft, buffer: seq<Byte>, offset: nat, size: nat, done: nat): (r: Outcome)
    requires DraftOk(d) && done < size <= |buffer| && (offset + done) / 512 < DIRECT_BLOCKS
    ensures DraftOk(r.d) && |r.d.data| == |d.data| && r.d.f.(blocks := d.f.blocks) == d.f
  {
    Round(d, offset + done, buffer[done..done + ChunkSize(offset + done, size - done)])
  }

  /** The draft and the number of bytes a write ends with. */
  datatype Result = Result(d: Draft, count: nat)

  /** The loop of diskfs_write with done bytes written. */
  ghost function Loop(d: Draft, buffer: seq<Byte>, offset: nat, size: nat, done: nat): Result
    requires DraftOk(d) && done <= size && (offset < MAX_FILE_SIZE ==> size <= |buffer|)
    decreases size - done
  {
    if done == size || (offset + done) / 512 >= DIRECT_BLOCKS then Result(d, done)
    else if Next(d, buffer, offset, size, done).ok then
      Loop(Next(d, buffer, offset, size, done).d, buffer, offset, size, done + ChunkSize(offset + done, size - done))
    else Result(d, done)
  }

  /** The loop goes on from the next position, or a failed round was its last. */
  lemma LoopNext(d: Draft, buffer: seq<Byte>, offset: nat, size: nat, done: nat, reached: nat)
    requires DraftOk(d) && done < size <= |buffer| && (offset + done) / 512 < DIRECT_BLOCKS
    requires reached == done + ChunkSize(offset + done, size - done)
    ensures var r := Next(d, buffer, offset, size, done);
            && (r.ok ==> Loop(d, buffer, offset, size, done) == Loop(r.d, buffer, offset, size, reached))
            && (!r.ok ==> r.d == d && Loop(d, buffer, offset, size, done) == Result(d, done))
  {
  }

  lemma {:induction false} LoopOk(d: Draft, buffer: seq<Byte>, offset: nat, size: nat, done: nat)
    requires DraftOk(d) && done <= size && (offset < MAX_FILE_SIZE ==> size <= |buffer|)
    ensures var r := Loop(d, buffer, offset, size, done);
            && DraftOk(r.d) && |r.d.data| == |d.data| && r.d.f.(blocks := d.f.blocks) == d.f && done <= r.count <= size
            && (offset > MAX_FILE_SIZE ==> r.count == done)
            && (offset + done <= MAX_FILE_SIZE ==> offset + r.count <= MAX_FILE_SIZE)
    decreases size - done
  {
    if done != size && (offset + done) / 512 < DIRECT_BLOCKS && Next(d, buffer, offset, size, done).ok {
      LoopOk(Next(d, buffer, offset, size, done).d, buffer, offset, size, done + ChunkSize(offset + done, size - done));
    }
  }

  /** Size as diskfs_write clips it, in 32 bits. */
  function WriteSize(count: Word, offset: Word): (n: Word)
    ensures offset <= MAX_FILE_SIZE ==> n <= count
  {
    if (offset + count) % 0x1_0000_0000 > MAX_FILE_SIZE then (MAX_FILE_SIZE - offset) % 0x1_0000_0000 else count
  }

  /** The inode diskfs_write stores. */
  function Finished(f: Inode, offset: Word, done: nat, now: Word): Inode
    requires offset + done < 0x1_0000_0000
  {
    f.(size := if offset + done > f.size then offset + done else f.size, mtime := now)
  }

  /** diskfs_write to any inode at any offset: the new file system and the number of bytes. */
  ghost function WriteOf(fs: Fs, i: nat, buffer: seq<Byte>, offset: Word, now: Word): (Fs, nat)
    requires Shape(fs) && i < |fs.inodes| && |buffer| < 0x1_0000_0000
  {
    var size := WriteSize(|buffer|, offset);
    var d := Draft(fs.inodes[i], fs.data, fs.used);
    LoopOk(d, buffer, offset, size, 0);
    var r := Loop(d, buffer, offset, size, 0);
    (Stored(fs, i, r.d, offset, r.count, now), r.count)
  }

  // ---------------------------------------------------------- writing to a live file

  /** The file system as it will be once the draft is stored with the given size. */
  ghost function With(fs: Fs, i: nat, d: Draft, size: Word): Fs
    requires i < |fs.inodes|
  {
    fs.(inodes := fs.inodes[i := d.f.(size := size)], data := d.data, used := d.used)
  }

  /**
   A round on a live file is a chunk put into it; it fails only at the end of a file that fills its
   blocks, on a full disk.
   */
  lemma RoundSteps(fs: Fs, i: nat, d: Draft, size: Word, pos: nat, chunk: seq<Byte>)
    requires DraftOk(d) && i < |fs.inodes| && pos / 512 < DIRECT_BLOCKS && 0 < |chunk| && pos % 512 + |chunk| <= 512
    requires pos <= size
    requires FsOk(With(fs, i, d, size)) && i < |fs.live| && fs.live[i]
    ensures var r := Round(d, pos, chunk);
            && (r.ok ==> Stepped(With(fs, i, d, size), With(fs, i, r.d, Max(size, pos + |chunk|)), i, pos, chunk))
            && (r.ok && pos == size && pos % 512 == 0 ==> !Full(d.used))
            && (!r.ok ==> Full(d.used) && pos % 512 == 0 && pos == size)
  {
    var w := With(fs, i, d, size);
    assert FileOk(w, i);
    var r := Round(d, pos, chunk);
    if r.ok {
      var block := r.d.f.blocks[pos / 512];
      assert ChunkFits(w, i, pos, chunk, block);
      assert r.d.used == d.used[block := true];
      assert With(fs, i, r.d, Max(size, pos + |chunk|)).inodes == w.inodes[i := Grown(w.inodes[i], pos, |chunk|,
          block)];
      assert With(fs, i, r.d, Max(size, pos + |chunk|)) == PutChunk(w, i, pos, chunk, block);
    }
  }

  /** Why a write of count bytes at offset ended after r of them. */
  ghost predicate StoppedRightly(fs: Fs, fs': Fs, i: nat, offset: nat, count: nat, r: int) {
    && i < |fs.inodes|
    && (r < count ==>
        (offset + r) % 512 == 0 && offset + r >= fs.inodes[i].size && (offset + r == MAX_FILE_SIZE || Full(fs'.used)))
    && (r == 0 ==> fs'.used == fs.used)
    && (r > 0 && offset == fs.inodes[i].size && offset % 512 == 0 ==> !Full(fs.used))
  }

  /** The state of the loop with done bytes written into live file i. */
  ghost predicate Writing(fs: Fs, i: nat, d: Draft, buffer: seq<Byte>, offset: nat, done: nat) {
    && DraftOk(d) && i < |fs.inodes| && d.f.(blocks := fs.inodes[i].blocks) == fs.inodes[i] && done <= |buffer|
    && offset + done <= MAX_FILE_SIZE && fs.inodes[i].size <= MAX_FILE_SIZE
    && Written(fs, With(fs, i, d, Max(d.f.size, offset + done)), i, offset, buffer[..done])
    && (done == 0 ==> d.used == fs.used)
    && (done > 0 && offset == fs.inodes[i].size && offset % 512 == 0 ==> !Full(fs.used))
  }

  lemma WritingWent(fs: Fs, i: nat, d: Draft, d': Draft, buffer: seq<Byte>, offset: nat, done: nat, n: nat)
    requires Writing(fs, i, d, buffer, offset, done) && DraftOk(d') && d'.f.(blocks := d.f.blocks) == d.f && 0 < n
    requires done + n <= |buffer| && offset + done + n <= MAX_FILE_SIZE
    requires var pos, limit := offset + done, Max(d.f.size, offset + done);
             && Stepped(With(fs, i, d, limit), With(fs, i, d', Max(limit, pos + n)), i, pos, buffer[done..done + n])
             && (pos == limit && pos % 512 == 0 ==> !Full(d.used))
    ensures Writing(fs, i, d', buffer, offset, done + n)
  {
    var pos, limit := offset + done, Max(d.f.size, offset + done);
    assert Max(limit, pos + n) == Max(d'.f.size, pos + n);
    WriteMore(fs, With(fs, i, d, limit), With(fs, i, d', Max(d'.f.size, pos + n)), i, offset, buffer, done, done + n);
  }

  lemma WritingStep(fs: Fs, i: nat, d: Draft, buffer: seq<Byte>, offset: nat, size: nat, done: nat)
    requires Writing(fs, i, d, buffer, offset, done) && done < size <= |buffer| && (offset + done) / 512 < DIRECT_BLOCKS
    ensures var r := Next(d, buffer, offset, size, done);
            && (r.ok ==> Writing(fs, i, r.d, buffer, offset, done + ChunkSize(offset + done, size - done)))
            && (!r.ok ==> Full(d.used) && (offset + done) % 512 == 0 && offset + done >= fs.inodes[i].size)
  {
    var n := ChunkSize(offset + done, size - done);
    RoundSteps(fs, i, d, Max(d.f.size, offset + done), offset + done, buffer[done..done + n]);
    var r := Next(d, buffer, offset, size, done);
    if r.ok { WritingWent(fs, i, d, r.d, buffer, offset, done, n); }
  }

  /** The loop stopped at r for a reason. */
  ghost predicate LoopEnded(fs: Fs, i: nat, d: Draft, offset: nat, size: nat, r: nat)
    requires i < |fs.inodes|
  {
    r < size ==>
        (offset + r) % 512 == 0 && offset + r >= fs.inodes[i].size && (offset + r == MAX_FILE_SIZE || Full(d.used))
  }

  /** The whole loop on a live file. */
  lemma {:induction false} WritingLoop(fs: Fs, i: nat, d: Draft, buffer: seq<Byte>, offset: nat, size: nat, done: nat)
    requires Writing(fs, i, d, buffer, offset, done) && done <= size <= |buffer|
    ensures var r := Loop(d, buffer, offset, size, done);
            done <= r.count <= size && Writing(fs, i, r.d, buffer, offset, r.count)
                && LoopEnded(fs, i, r.d, offset, size, r.count)
    decreases size - done
  {
    if done < size && (offset + done) / 512 < DIRECT_BLOCKS {
      WritingStep(fs, i, d, buffer, offset, size, done);
      var r := Next(d, buffer, offset, size, done);
      if r.ok { WritingLoop(fs, i, r.d, buffer, offset, size, done + ChunkSize(offset + done, size - done)); }
    }
  }

  /** A write that was clipped ends at the maximum size. */
  lemma ClippedAtMaximum(count: Word, offset: Word)
    requires offset <= MAX_FILE_SIZE
    ensures WriteSize(count, offset) < count ==> offset + WriteSize(count, offset) == MAX_FILE_SIZE
  {
  }

  /** What diskfs_write does to a live file, from an offset at or before its end. */
  lemma WriteOfLive(fs: Fs, i: nat, buffer: seq<Byte>, offset: Word, now: Word)
    requires FsOk(fs) && i < |fs.inodes| && fs.live[i] && FileOk(fs, i) && offset <= |Content(fs, i)|
    requires |buffer| < 0x1_0000_0000
    ensures var r := WriteOf(fs, i, buffer, offset, now);
            && r.1 <= |buffer| && offset + r.1 <= MAX_FILE_SIZE && Written(fs, r.0, i, offset, buffer[..r.1])
            && StoppedRightly(fs, r.0, i, offset, |buffer|, r.1)
            && r.0.inodes[i].(blocks := fs.inodes[i].blocks, size := fs.inodes[i].size) == fs.inodes[i].(mtime := now)
  {
    var size := WriteSize(|buffer|, offset);
    var d := Draft(fs.inodes[i], fs.data, fs.used);
    StartWrite(fs, i, offset);
    assert With(fs, i, d, Max(d.f.size, offset)) == fs by { assert fs.inodes[i := fs.inodes[i]] == fs.inodes; }
    assert Writing(fs, i, d, buffer, offset, 0);
    WritingLoop(fs, i, d, buffer, offset, size, 0);
    ClippedAtMaximum(|buffer|, offset);
    var r := Loop(d, buffer, offset, size, 0);
    StoreWritten(fs, i, r.d, buffer, offset, r.count, now);
    assert WriteOf(fs, i, buffer, offset, now) == (Stored(fs, i, r.d, offset, r.count, now), r.count);
  }

  /** The file system with the draft stored. */
  ghost function Stored(fs: Fs, i: nat, d: Draft, offset: Word, done: nat, now: Word): Fs
    requires i < |fs.inodes| && offset + done < 0x1_0000_0000
  {
    fs.(inodes := fs.inodes[i := Finished(d.f, offset, done, now)], data := d.data, used := d.used)
  }

  lemma StoreWritten(fs: Fs, i: nat, d: Draft, buffer: seq<Byte>, offset: Word, done: nat, now: Word)
    requires Writing(fs, i, d, buffer, offset, done)
    ensures Written(fs, Stored(fs, i, d, offset, done, now), i, offset, buffer[..done])
  {
    var mid := With(fs, i, d, Max(d.f.size, offset + done));
    FinishWrite(fs, mid, i, offset, buffer[..done], Finished(d.f, offset, done, now));
    assert Stored(fs, i, d, offset, done, now) == mid.(inodes := mid.inodes[i := Finished(d.f, offset, done, now)]);
  }

  // --------------------------------------------------------------------- block 0

  /** A write of one chunk at the end of a file that fills its blocks is one round, into the lowest free block. */
  lemma OneRound(fs: Fs, i: nat, chunk: seq<Byte>, now: Word)
    requires AppendsOne(fs, i, chunk) && FirstClear(fs.used, 0) >= 0
    ensures var b, size := FirstClear(fs.used, 0), fs.inodes[i].size;
            var f := fs.inodes[i].(blocks := fs.inodes[i].blocks[size / 512 := b], size := size + |chunk|,
                mtime := now);
            WriteOf(fs, i, chunk, size, now) ==
            (Fs(fs.inodes[i := f], fs.live, fs.data[b := Overwrite(fs.data[b], 0, chunk)], fs.used[b := true]), |chunk|)
  {
    var f := fs.inodes[i];
    var d := Draft(f, fs.data, fs.used);
    assert WriteSize(|chunk|, f.size) == |chunk| && ChunkSize(f.size, |chunk|) == |chunk| && chunk[0..|chunk|] == chunk;
    var r := Round(d, f.size, chunk);
    assert r.ok && Next(d, chunk, f.size, |chunk|, 0) == r;
    assert Loop(d, chunk, f.size, |chunk|, 0) == Loop(r.d, chunk, f.size, |chunk|, |chunk|) == Result(r.d, |chunk|);
  }

  /**
   The file's size is a whole number of blocks below the maximum, it has no block there yet, and the
   chunk fits in one.
   */
  ghost predicate AppendsOne(fs: Fs, i: nat, chunk: seq<Byte>) {
    && Shape(fs) && i < |fs.inodes| && fs.inodes[i].size % 512 == 0 && fs.inodes[i].size < MAX_FILE_SIZE
    && fs.inodes[i].blocks[fs.inodes[i].size / 512] == 0 && 0 < |chunk| <= 512
  }

  /**
   Block number 0 means "no block": a chunk appended into a freshly allocated block is read back if and
   only if that block is not block 0, although the write reports all its bytes either way. Where it is
   block 0 the read returns nothing.
   */
  lemma BlockZeroIsLost(fs: Fs, i: nat, chunk: seq<Byte>, now: Word)
    requires AppendsOne(fs, i, chunk) && FirstClear(fs.used, 0) >= 0
    ensures var (fs', r) := WriteOf(fs, i, chunk, fs.inodes[i].size, now);
            && r == |chunk| && Shape(fs')
            && var back := ReadOf(fs'.data, fs'.inodes[i], fs.inodes[i].size, |chunk|);
            && (back == chunk <==> fs.used[0])
            && (!fs.used[0] ==> back == [])
  {
    OneRound(fs, i, chunk, now);
    var size, b := fs.inodes[i].size, FirstClear(fs.used, 0);
    var fs' := WriteOf(fs, i, chunk, size, now).0;
    var f := fs'.inodes[i];
    assert ClippedSize(f.size, size, |chunk|) == |chunk| && f.blocks[size / 512] == b;
    if b != 0 {
      assert ReadLoop(fs'.data, f, size, |chunk|) == ChunkAt(fs'.data, f, size, |chunk|) + ReadLoop(fs'.data, f,
          size + |chunk|, 0);
      assert ChunkAt(fs'.data, f, size, |chunk|) == chunk;
    }
  }

  /** The disk as diskfs_format leaves it: no block marked used, the root directory empty. */
  ghost predicate AsFormatted(fs: Fs) {
    && Shape(fs) && |fs.inodes| == MAX_INODES && EmptyFile(fs.inodes[0])
    && (forall i :: 0 <= i < MAX_INODES ==> fs.live[i] == (i == 0))
    && (forall b :: 0 <= b < |fs.used| ==> !fs.used[b])
  }

  /**
   The first write after diskfs_format, to the root directory or to any new file, is lost: it reports
   its bytes and reads back empty.
   */
  lemma FirstWriteIsLost(fs: Fs, i: nat, f: Inode, chunk: seq<Byte>, now: Word)
    requires AsFormatted(fs) && i < MAX_INODES && EmptyFile(f) && 0 < |chunk| <= 512
    ensures var fs1 := fs.(inodes := fs.inodes[i := f], live := fs.live[i := true]);
            && Shape(fs1)
            && var (fs2, r) := WriteOf(fs1, i, chunk, 0, now);
            && r == |chunk| && Shape(fs2) && ReadOf(fs2.data, fs2.inodes[i], 0, |chunk|) == []
  {
    var fs1 := fs.(inodes := fs.inodes[i := f], live := fs.live[i := true]);
    assert fs1.inodes[i] == f && !fs1.used[0];
    BlockZeroIsLost(fs1, i, chunk, now);
  }
}
