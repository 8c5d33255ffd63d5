/**
 Accounting for blocks: in a consistent file system the free-block counter is what the sizes of the
 files leave of the disk.
 */
module DiskAccount {
  import opened Words
  import opened DiskFormat
  import opened FileBlocks
  import opened DiskFiles

  /** The number of blocks a file of n bytes takes. */
  function BlockCount(n: nat): nat { (n + 511) / 512 }

  /** The blocks taken by the live files among the first n inodes. */
  ghost function Held(fs: Fs, n: nat): nat
    requires n <= |fs.inodes| && n <= |fs.live|
    decreases n, |fs.inodes|
  {
    if n == 0 then 0 else Held(fs, n - 1) + (if fs.live[n - 1] then BlockCount(fs.inodes[n - 1].size) else 0)
  }

  /** The first n block pointers of an inode. */
  ghost function Pointers(f: Inode, n: nat): set<nat>
    requires n <= |f.blocks|
  {
    set k | 0 <= k < n :: f.blocks[k]
  }

  lemma {:induction false} PointersCount(f: Inode, n: nat)
    requires n <= |f.blocks| && forall k, l :: 0 <= k < l < n ==> f.blocks[k] != f.blocks[l]
    ensures |Pointers(f, n)| == n
    decreases n
  {
    if n > 0 {
      PointersCount(f, n - 1);
      assert Pointers(f, n) == Pointers(f, n - 1) + {f.blocks[n - 1]};
    }
  }

  /** A live file's blocks are its pointers below its size, all different and none of them 0. */
  lemma FilePointers(fs: Fs, i: nat)
    requires FsOk(fs) && i < |fs.inodes| && fs.live[i]
    ensures var f := fs.inodes[i];
            && BlockCount(f.size) <= DIRECT_BLOCKS && |Pointers(f, BlockCount(f.size))| == BlockCount(f.size)
            && forall b :: b in Pointers(f, BlockCount(f.size)) <==> PointsTo(f, DIRECT_BLOCKS, b)
  {
    var f := fs.inodes[i];
    assert FileOk(fs, i) && Apart(fs, i, i);
    var n := BlockCount(f.size);
    assert forall k :: 0 <= k < DIRECT_BLOCKS ==> (f.blocks[k] != 0 <==> k < n);
    PointersCount(f, n);
  }

  ghost function AllPointers(fs: Fs, n: nat): set<nat>
    requires FsOk(fs) && n <= |fs.inodes|
    decreases n, |fs.inodes|
  {
    if n == 0 then {}
    else if !fs.live[n - 1] then AllPointers(fs, n - 1)
    else
      FilePointers(fs, n - 1);
      AllPointers(fs, n - 1) + Pointers(fs.inodes[n - 1], BlockCount(fs.inodes[n - 1].size))
  }

  /** One of the first n inodes is live and points to block b. */
  ghost predicate HeldBelow(fs: Fs, n: nat, b: nat)
    requires Shape(fs) && n <= |fs.inodes|
  {
    exists i :: 0 <= i < n && fs.live[i] && PointsTo(fs.inodes[i], DIRECT_BLOCKS, b)
  }

  lemma {:induction false} AllMembers(fs: Fs, n: nat, b: nat)
    requires FsOk(fs) && n <= |fs.inodes|
    ensures b in AllPointers(fs, n) <==> HeldBelow(fs, n, b)
    decreases n
  {
    if n > 0 {
      AllMembers(fs, n - 1, b);
      if fs.live[n - 1] { FilePointers(fs, n - 1); }
    }
  }

  lemma {:induction false} AllCount(fs: Fs, n: nat)
    requires FsOk(fs) && n <= |fs.inodes|
    ensures |AllPointers(fs, n)| == Held(fs, n)
    decreases n
  {
    if n > 0 {
      AllCount(fs, n - 1);
      if fs.live[n - 1] {
        FilePointers(fs, n - 1);
        var before, own := AllPointers(fs, n - 1), Pointers(fs.inodes[n - 1], BlockCount(fs.inodes[n - 1].size));
        forall b | b in before ensures b !in own {
          AllMembers(fs, n - 1, b);
          var i :| 0 <= i < n - 1 && fs.live[i] && PointsTo(fs.inodes[i], DIRECT_BLOCKS, b);
          assert Apart(fs, i, n - 1);
        }
        assert before !! own;
      }
    }
  }

  /** The blocks marked used. */
  ghost function Taken(bits: seq<bool>): set<nat> {
    set b | 0 <= b < |bits| && bits[b]
  }

  lemma {:induction false} TakenCount(bits: seq<bool>)
    ensures |Taken(bits)| + CountClear(bits) == |bits|
    decreases |bits|
  {
    if bits != [] {
      var n := |bits| - 1;
      TakenCount(bits[..n]);
      assert Taken(bits) == Taken(bits[..n]) + (if bits[n] then {n} else {});
    }
  }

  /** The blocks in use are block 0 and the live files' blocks. */
  lemma TakenIsHeld(fs: Fs)
    requires FsOk(fs)
    ensures Taken(fs.used) == {0} + AllPointers(fs, |fs.inodes|) && 0 !in AllPointers(fs, |fs.inodes|)
  {
    var n := |fs.inodes|;
    AllMembers(fs, n, 0);
    forall b: nat ensures b in Taken(fs.used) <==> b == 0 || b in AllPointers(fs, n) {
      AllMembers(fs, n, b);
      if 0 < b < |fs.used| && fs.used[b] {
        assert Owned(fs, b);
        var i, k :| 0 <= i < n && fs.live[i] && 0 <= k < DIRECT_BLOCKS && fs.inodes[i].blocks[k] == b;
        assert PointsTo(fs.inodes[i], DIRECT_BLOCKS, b);
      }
      if HeldBelow(fs, n, b) {
        var i :| 0 <= i < n && fs.live[i] && PointsTo(fs.inodes[i], DIRECT_BLOCKS, b);
        assert FileOk(fs, i);
      }
    }
  }

  /** The number of clear bits is the size of the disk less block 0 and the blocks that the live files' sizes need. */
  lemma FreeIsRest(fs: Fs)
    requires FsOk(fs)
    ensures CountClear(fs.used) == |fs.used| - 1 - Held(fs, |fs.inodes|)
  {
    TakenIsHeld(fs);
    TakenCount(fs.used);
    AllCount(fs, |fs.inodes|);
    assert |{0} + AllPointers(fs, |fs.inodes|)| == 1 + |AllPointers(fs, |fs.inodes|)|;
  }

  /**
   Conservation: the superblock's free counter is what the sizes of the files leave. So a run of writes,
   creations and deletions that ends with files of the sizes it began with ends with as many free blocks.
   */
  lemma FreeCounter(disk: DiskFs)
    requires disk.Valid()
    ensures disk.freeBlocks == |disk.blockBits| - 1 - Held(disk.Value(), |disk.inodes|)
  {
    FreeIsRest(disk.Value());
  }
}
