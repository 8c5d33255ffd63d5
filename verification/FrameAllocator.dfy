/**
 The physical memory manager: a bitmap of 32-bit words, one bit per 4 KiB frame, set for used
 frames, with a counter of used frames.
 */
module FrameAllocator {
  import opened Words

  /** 4 GiB in frames of 4 KiB. */
  const MAX_FRAMES: nat := 0x10_0000

  /** Addresses and sizes in units of PMM_BLOCK_SIZE. */
  function Block(bytes: nat): nat {
    bytes / 4096
  }

  // ------------------------------------------------------------ bits of a word

  const ALL_ONES: Word := 0xFFFF_FFFF

  /** (w & (1 << j)) != 0. */
  predicate Bit(w: nat, j: nat) {
    if j == 0 then w % 2 == 1 else Bit(w / 2, j - 1)
  }

  /** w | (1 << j). */
  function Or(w: nat, j: nat): nat {
    if j == 0 then w / 2 * 2 + 1 else Or(w / 2, j - 1) * 2 + w % 2
  }

  /** w & ~(1 << j). */
  function AndNot(w: nat, j: nat): nat {
    if j == 0 then w / 2 * 2 else AndNot(w / 2, j - 1) * 2 + w % 2
  }

  /** Or and AndNot add or remove 2^j exactly when bit j changes. */
  lemma {:induction false} OrAndNotValues(w: nat, j: nat)
    ensures Or(w, j) == w + (if Bit(w, j) then 0 else Pow2(j))
    ensures AndNot(w, j) == w - (if Bit(w, j) then Pow2(j) else 0)
  {
    if j > 0 {
      OrAndNotValues(w / 2, j - 1);
    }
  }

  /** Both stay within 32 bits. */
  lemma {:induction false} WithinWidth(w: nat, j: nat, n: nat)
    requires w < Pow2(n) && j < n
    ensures Or(w, j) < Pow2(n) && AndNot(w, j) < Pow2(n)
  {
    if j > 0 {
      WithinWidth(w / 2, j - 1, n - 1);
    }
  }

  lemma Halves(h: nat, low: nat)
    requires low < 2
    ensures (h * 2 + low) / 2 == h && (h * 2 + low) % 2 == low
  {
  }

  /** Setting or clearing bit j changes bit j and no other. */
  lemma {:induction false} SetAndClear(w: nat, j: nat, k: nat)
    ensures Bit(Or(w, j), k) <==> j == k || Bit(w, k)
    ensures Bit(AndNot(w, j), k) <==> j != k && Bit(w, k)
  {
    if j > 0 && k > 0 {
      SetAndClear(w / 2, j - 1, k - 1);
      Halves(Or(w / 2, j - 1), w % 2);
      Halves(AndNot(w / 2, j - 1), w % 2);
    } else if k > 0 {
      Halves(w / 2, 1);
      Halves(w / 2, 0);
    }
  }

  /** A word of n ones has every bit below n. */
  lemma {:induction false} OnesHaveBits(n: nat, k: nat)
    requires k < n
    ensures Bit(Pow2(n) - 1, k)
  {
    if k > 0 {
      assert (Pow2(n) - 1) / 2 == Pow2(n - 1) - 1;
      OnesHaveBits(n - 1, k - 1);
    }
  }

  lemma Width32()
    ensures Pow2(32) == 0x1_0000_0000
  {
    assert Pow2(8) == 0x100;
    assert Pow2(16) == 0x1_0000;
    assert Pow2(24) == 0x100_0000;
  }

  lemma AllOnesHasBits(k: nat)
    requires k < 32
    ensures Bit(ALL_ONES, k)
  {
    Width32();
    OnesHaveBits(32, k);
  }

  lemma StaysWord(w: Word, j: nat)
    requires j < 32
    ensures Or(w, j) < 0x1_0000_0000 && AndNot(w, j) < 0x1_0000_0000
  {
    Width32();
    WithinWidth(w, j, 32);
  }

  // --------------------------------------------------------------- the bitmap

  predicate Marked(words: seq<Word>, f: nat)
    requires f < 32 * |words|
  {
    Bit(words[f / 32], f % 32)
  }

  /** The marked frames below n. */
  ghost function FramesBelow(words: seq<Word>, n: nat): set<nat>
    requires n <= 32 * |words|
  {
    if n == 0 then {}
    else if Marked(words, n - 1) then FramesBelow(words, n - 1) + {n - 1}
    else FramesBelow(words, n - 1)
  }

  ghost function Frames(words: seq<Word>): set<nat> {
    FramesBelow(words, 32 * |words|)
  }

  /** How many frames below n are marked. */
  ghost function CountBelow(words: seq<Word>, n: nat): nat
    requires n <= 32 * |words|
  {
    if n == 0 then 0 else CountBelow(words, n - 1) + (if Marked(words, n - 1) then 1 else 0)
  }

  ghost function Population(words: seq<Word>): nat {
    CountBelow(words, 32 * |words|)
  }

  lemma {:induction false} CountIsSize(words: seq<Word>, n: nat)
    requires n <= 32 * |words|
    ensures CountBelow(words, n) == |FramesBelow(words, n)|
  {
    if n > 0 {
      CountIsSize(words, n - 1);
      FramesMembers(words, n - 1, n - 1);
    }
  }

  lemma {:induction false} FramesMembers(words: seq<Word>, n: nat, f: nat)
    requires n <= 32 * |words|
    ensures f in FramesBelow(words, n) <==> f < n && Marked(words, f)
  {
    if n > 0 { FramesMembers(words, n - 1, f); }
  }

  lemma AllMembers(words: seq<Word>)
    ensures forall f: nat :: f in Frames(words) <==> f < 32 * |words| && Marked(words, f)
  {
    forall f: nat ensures f in Frames(words) <==> f < 32 * |words| && Marked(words, f) {
      FramesMembers(words, 32 * |words|, f);
    }
  }

  /** The counter's view: marking a free frame adds one, unmarking a used frame takes one. */
  lemma MarkOneCounts(words: seq<Word>, f: nat)
    requires f < 32 * |words| && Or(words[f / 32], f % 32) < 0x1_0000_0000
    requires AndNot(words[f / 32], f % 32) < 0x1_0000_0000
    ensures Population(words[f / 32 := Or(words[f / 32], f % 32)]) == Population(words) + (if f in Frames(words) then 0
        else 1)
    ensures Population(words[f / 32 := AndNot(words[f / 32],
        f % 32)]) == Population(words) - (if f in Frames(words) then 1 else 0)
  {
    MarkOne(words, f);
    CountIsSize(words, 32 * |words|);
    CountIsSize(words[f / 32 := Or(words[f / 32], f % 32)], 32 * |words|);
    CountIsSize(words[f / 32 := AndNot(words[f / 32], f % 32)], 32 * |words|);
  }

  lemma MarkOne(words: seq<Word>, f: nat)
    requires f < 32 * |words| && Or(words[f / 32], f % 32) < 0x1_0000_0000
    requires AndNot(words[f / 32], f % 32) < 0x1_0000_0000
    ensures Frames(words[f / 32 := Or(words[f / 32], f % 32)]) == Frames(words) + {f}
    ensures Frames(words[f / 32 := AndNot(words[f / 32], f % 32)]) == Frames(words) - {f}
  {
    var on := words[f / 32 := Or(words[f / 32], f % 32)];
    var off := words[f / 32 := AndNot(words[f / 32], f % 32)];
    forall g: nat | g < 32 * |words|
      ensures Marked(on, g) <==> g == f || Marked(words, g)
      ensures Marked(off, g) <==> g != f && Marked(words, g)
    {
      SetAndClear(words[f / 32], f % 32, g % 32);
    }
    AllMembers(words);
    AllMembers(on);
    AllMembers(off);
  }

  /** f is the lowest frame not in use. */
  ghost predicate IsFirstFree(used: set<nat>, total: nat, f: nat) {
    f < total && f !in used && forall g: nat :: g < f ==> g in used
  }

  /** The number of frames not in use. */
  ghost function FreeCount(total: nat, used: set<nat>): nat {
    |set f: nat | f < total && f !in used|
  }

  lemma NoneFree(total: nat, used: set<nat>)
    ensures FreeCount(total, used) == 0 <==> forall f: nat :: f < total ==> f in used
  {
    var free := set f: nat | f < total && f !in used;
    if |free| == 0 {
      forall f: nat | f < total ensures f in used {
        assert f !in free;
      }
    }
  }

  lemma TakeOne(total: nat, used: set<nat>, f: nat)
    requires f < total && f !in used
    ensures FreeCount(total, used) == FreeCount(total, used + {f}) + 1
  {
    var free, free' := set g: nat | g < total && g !in used, set g: nat | g < total && g !in used + {f};
    assert free == free' + {f} && f !in free';
  }

  class Pmm {
    var bitmap: array<Word>
    var usedBlocks: Word
    const maxBlocks: nat

    ghost predicate Valid()
      reads this, bitmap
    {
      && Shaped() && usedBlocks == Population(bitmap[..])
      && (maxBlocks > 0 ==> 0 in Used())
    }

    /** One bit for each frame of at most 4 GiB of memory. */
    ghost predicate Shaped()
      reads this
    {
      maxBlocks == 32 * bitmap.Length <= MAX_FRAMES
    }

    ghost function Used(): set<nat>
      reads this, bitmap
    {
      Frames(bitmap[..])
    }

    /** The counter is the number of used frames. */
    lemma CounterExact()
      requires Valid()
      ensures usedBlocks == |Used()| && forall f :: f in Used() ==> f < maxBlocks
    {
      CountIsSize(bitmap[..], maxBlocks);
      AllMembers(bitmap[..]);
    }

    /** pmm_init for a block count that is a multiple of 32: every frame starts out used. */
    constructor (words: nat)
      requires 32 * words <= MAX_FRAMES
      ensures Valid() && maxBlocks == 32 * words && fresh(bitmap)
      ensures Used() == Range(0, maxBlocks)
    {
      bitmap := new Word[words](_ => ALL_ONES);
      usedBlocks := 32 * words;
      maxBlocks := 32 * words;
      new;
      forall f: nat | f < maxBlocks ensures Marked(bitmap[..], f) {
        AllOnesHasBits(f % 32);
      }
      AllMembers(bitmap[..]);
      forall f: nat ensures f in Used() <==> f in Range(0, maxBlocks) {
        RangeMembers(0, maxBlocks, f);
      }
      assert Used() == Range(0, maxBlocks);
      RangeSize(0, maxBlocks);
      CountIsSize(bitmap[..], maxBlocks);
    }

    method BitmapSet(f: nat)
      requires f < 32 * bitmap.Length
      modifies bitmap
      ensures Used() == old(Used()) + {f}
      ensures Population(bitmap[..]) == old(Population(bitmap[..])) + (if f in old(Used()) then 0 else 1)
    {
      StaysWord(bitmap[f / 32], f % 32);
      MarkOne(bitmap[..], f);
      MarkOneCounts(bitmap[..], f);
      bitmap[f / 32] := Or(bitmap[f / 32], f % 32);
      assert bitmap[..] == old(bitmap[..])[f / 32 := Or(old(bitmap[..])[f / 32], f % 32)];
    }

    method BitmapUnset(f: nat)
      requires f < 32 * bitmap.Length
      modifies bitmap
      ensures Used() == old(Used()) - {f}
      ensures Population(bitmap[..]) == old(Population(bitmap[..])) - (if f in old(Used()) then 1 else 0)
    {
      StaysWord(bitmap[f / 32], f % 32);
      MarkOne(bitmap[..], f);
      MarkOneCounts(bitmap[..], f);
      bitmap[f / 32] := AndNot(bitmap[f / 32], f % 32);
      assert bitmap[..] == old(bitmap[..])[f / 32 := AndNot(old(bitmap[..])[f / 32], f % 32)];
    }

    /** bitmap_first_free: the lowest clear bit, or -1; words of all ones are skipped. */
    method BitmapFirstFree() returns (r: int)
      requires maxBlocks == 32 * bitmap.Length
      ensures r >= 0 ==> IsFirstFree(Used(), maxBlocks, r)
      ensures r < 0 ==> r == -1 && forall f: nat :: f < maxBlocks ==> f in Used()
    {
      ghost var used := Used();
      AllMembers(bitmap[..]);
      for i := 0 to bitmap.Length
        invariant forall g: nat :: g < 32 * i ==> g in used
      {
        if bitmap[i] != ALL_ONES {
          for j := 0 to 32
            invariant forall g: nat :: g < 32 * i + j ==> g in used
          {
            assert (32 * i + j) / 32 == i && (32 * i + j) % 32 == j;
            if !Bit(bitmap[i], j) {
              return i * 32 + j;
            }
            assert Marked(bitmap[..], 32 * i + j);
          }
        } else {
          FullWord(bitmap[..], i);
        }
      }
      return -1;
    }

    /** pmm_alloc_block: the lowest free frame, now used; 0 (NULL) exactly when none is free. */
    method AllocBlock() returns (frame: nat)
      requires Valid()
      modifies this`usedBlocks, bitmap
      ensures Valid()
      ensures frame == 0 ==>
          Used() == old(Used()) && usedBlocks == old(usedBlocks) && forall f: nat :: f < maxBlocks ==> f in Used()
      ensures frame != 0 ==> IsFirstFree(old(Used()), maxBlocks, frame) && Used() == old(Used()) + {frame}
    {
      AllMembers(bitmap[..]);
      CountIsSize(bitmap[..], maxBlocks);
      UsedBound(Used(), maxBlocks);
      if maxBlocks - usedBlocks == 0 {
        return 0;
      }
      var f := BitmapFirstFree();
      if f == -1 {
        return 0;
      }
      Reserve(f);
      return f;
    }

    /** bitmap_set on a free frame, counted. */
    method Reserve(frame: nat)
      requires Valid() && frame < maxBlocks && frame !in Used()
      modifies this`usedBlocks, bitmap
      ensures Valid() && Used() == old(Used()) + {frame}
    {
      PopulationBound(bitmap[..], maxBlocks);
      BitmapSet(frame);
      usedBlocks := Plus(usedBlocks, 1);
    }

    /**
     pmm_free_block: the frame is free; the allocator stays valid if and only if the frame was in use and
     is not frame 0.
     */
    method FreeBlock(frame: nat)
      requires Valid() && (frame in Used() || frame < maxBlocks)
      modifies this`usedBlocks, bitmap
      ensures Used() == old(Used()) - {frame}
      ensures Valid() <==> frame in old(Used()) && frame != 0
    {
      FramesMembers(bitmap[..], maxBlocks, frame);
      FramesMembers(bitmap[..], maxBlocks, 0);
      PopulationBound(bitmap[..], maxBlocks);
      BitmapUnset(frame);
      usedBlocks := Minus(usedBlocks, 1);
    }

    /**
     pmm_init_region: the touched frames are free, except that frame 0 is marked again. The allocator
     stays valid if and only if all of them were in use and frame 0 is not among them.
     */
    method InitRegion(base: Word, size: Word)
      requires Valid() && maxBlocks > 0 && InBitmap(base, size, maxBlocks)
      modifies this`usedBlocks, bitmap
      ensures Used() == old(Used()) - Touched(base, size) + {0}
      ensures Valid() <==> Touched(base, size) <= old(Used()) && 0 !in Touched(base, size)
    {
      var align, blocks := Signed(base), Signed(size);
      ghost var used := Used();
      CounterExact();
      UsedBound(used, maxBlocks);
      RangeSize(Index(align), Index(align) + Count(blocks));
      FreeRange(Index(align), blocks);
      BitmapSet(0);
      RegionCounts(used, Touched(base, size), Count(blocks));
      CountIsSize(bitmap[..], maxBlocks);
    }

    /** The loop of pmm_init_region. */
    method FreeRange(first: nat, blocks: int)
      requires Shaped() && first + Count(blocks) <= maxBlocks
      modifies this`usedBlocks, bitmap
      ensures Used() == old(Used()) - Range(first, first + Count(blocks))
      ensures usedBlocks == Minus(old(usedBlocks), Count(blocks))
    {
      ghost var used := Used();
      ghost var total := Count(blocks);
      var left, k := blocks, 0;
      while left > 0
        invariant 0 <= k <= total && Count(left) == total - k
        invariant Used() == used - Range(first, first + k) && usedBlocks == Minus(old(usedBlocks), k)
        decreases left
      {
        RegionStep(used, first, first + k, first + total);
        BitmapUnset(first + k);
        CounterStep(old(usedBlocks), k);
        usedBlocks := Minus(usedBlocks, 1);
        left, k := left - 1, k + 1;
      }
    }

    /**
     pmm_deinit_region: the touched frames are in use; the allocator stays valid if and only if all of
     them were free.
     */
    method DeinitRegion(base: Word, size: Word)
      requires Valid() && InBitmap(base, size, maxBlocks)
      modifies this`usedBlocks, bitmap
      ensures Used() == old(Used()) + Touched(base, size)
      ensures Valid() <==> Touched(base, size) !! old(Used())
    {
      var align, blocks := Signed(base), Signed(size);
      ghost var used := Used();
      CounterExact();
      UsedBound(used, maxBlocks);
      RangeSize(Index(align), Index(align) + Count(blocks));
      ReserveRange(Index(align), blocks);
      ReserveCounts(used, Touched(base, size), Count(blocks));
      CountIsSize(bitmap[..], maxBlocks);
    }

    /** The loop of pmm_deinit_region. */
    method ReserveRange(first: nat, blocks: int)
      requires Shaped() && first + Count(blocks) <= maxBlocks
      modifies this`usedBlocks, bitmap
      ensures Used() == old(Used()) + Range(first, first + Count(blocks))
      ensures usedBlocks == Plus(old(usedBlocks), Count(blocks))
    {
      ghost var used := Used();
      ghost var total := Count(blocks);
      var left, k := blocks, 0;
      while left > 0
        invariant 0 <= k <= total && Count(left) == total - k
        invariant Used() == used + Range(first, first + k) && usedBlocks == Plus(old(usedBlocks), k)
        decreases left
      {
        RegionStep(used, first, first + k, first + total);
        BitmapSet(first + k);
        CounterStep(old(usedBlocks), k);
        usedBlocks := Plus(usedBlocks, 1);
        left, k := left - 1, k + 1;
      }
    }
  }

  // ------------------------------------------------------------------- regions

  /** 32-bit counters. */
  function Minus(x: Word, n: nat): Word { (x - n) % 0x1_0000_0000 }

  function Plus(x: Word, n: nat): Word { (x + n) % 0x1_0000_0000 }

  lemma CounterStep(x: Word, k: nat)
    ensures Minus(Minus(x, k), 1) == Minus(x, k + 1) && Plus(Plus(x, k), 1) == Plus(x, k + 1)
  {
    ModStep(x - k);
    ModStep(x + k);
  }

  /** Counting by one before or after reduction modulo 2^32 is the same. */
  lemma ModStep(a: int)
    ensures (a % 0x1_0000_0000 - 1) % 0x1_0000_0000 == (a - 1) % 0x1_0000_0000
    ensures (a % 0x1_0000_0000 + 1) % 0x1_0000_0000 == (a + 1) % 0x1_0000_0000
  {
    var m := 0x1_0000_0000;
    var q, r := a / m, a % m;
    assert a == q * m + r;
    if r == 0 {
      assert a - 1 == (q - 1) * m + (m - 1);
    }
    if r == m - 1 {
      assert a + 1 == (q + 1) * m;
    }
  }

  /** (int)x / PMM_BLOCK_SIZE: the cast to int, then a division that truncates. */
  function Signed(x: Word): int {
    if x < 0x8000_0000 then x / 4096 else -((0x1_0000_0000 - x) / 4096)
  }

  /** The int passed as a uint32_t bit number. */
  function Index(i: int): nat { i % 0x1_0000_0000 }

  /** How often a loop counting down to 0 runs. */
  function Count(blocks: int): nat { if blocks > 0 then blocks else 0 }

  /** The frames the loops of pmm_init_region and pmm_deinit_region touch. */
  ghost function Touched(base: Word, size: Word): set<nat> {
    Range(Index(Signed(base)), Index(Signed(base)) + Count(Signed(size)))
  }

  /** The frames of the region. */
  ghost function Region(base: Word, size: Word): set<nat> {
    Range(Block(base), Block(base) + Block(size))
  }

  /** The loop stays inside the bitmap. */
  predicate InBitmap(base: Word, size: Word, maxBlocks: nat) {
    Index(Signed(base)) + Count(Signed(size)) <= maxBlocks
  }

  /** The casts to int are harmless if and only if base and size are below 2^31, or the region holds no whole frame. */
  lemma TouchedIsRegionExactly(base: Word, size: Word)
    ensures Touched(base, size) == Region(base, size) <==> (base < 0x8000_0000 && size < 0x8000_0000) || size < 4096
  {
    var first, n := Index(Signed(base)), Count(Signed(size));
    if size >= 0x8000_0000 {
      assert n == 0;
      RangeMembers(Block(base), Block(base) + Block(size), Block(base));
    } else if base >= 0x8000_0000 && size >= 4096 {
      assert n > 0;
      RangeMembers(first, first + n, first);
      RangeMembers(Block(base), Block(base) + Block(size), first);
    }
  }

  lemma SetParts(a: set<nat>, b: set<nat>)
    ensures |a - b| + |a * b| == |a| && |a + b| == |a| + |b - a|
  {
    assert a == (a - b) + (a * b);
    assert a + b == a + (b - a);
  }

  /** Freeing n frames lowers the count by n exactly if all were in use; frame 0 comes back uncounted. */
  lemma RegionCounts(used: set<nat>, touched: set<nat>, n: nat)
    requires |touched| == n <= MAX_FRAMES && 0 in used && |used| <= MAX_FRAMES
    ensures Minus(|used|, n) == |used - touched + {0}| <==> touched <= used && 0 !in touched
  {
    SetParts(used, touched);
    SetParts(touched, used);
    assert used * touched == touched * used;
    if !(touched <= used) {
      var x :| x in touched && x !in used;
      assert x in touched - used;
    }
    if 0 in touched {
      assert |used - touched + {0}| == |used - touched| + 1;
    } else {
      assert used - touched + {0} == used - touched;
    }
    DriftIsZero(|used|, n, |used - touched + {0}|);
  }

  /** With counts this small, equality of the 32-bit counter is equality. */
  lemma DriftIsZero(used: nat, n: nat, left: nat)
    requires used <= MAX_FRAMES && n <= MAX_FRAMES && left <= MAX_FRAMES + 1 && used <= n + left
    ensures used < 0x1_0000_0000 && (Minus(used, n) == left <==> used - n == left)
  {
  }

  lemma ReserveCounts(used: set<nat>, touched: set<nat>, n: nat)
    requires |touched| == n <= MAX_FRAMES && |used| <= MAX_FRAMES
    ensures Plus(|used|, n) == |used + touched| <==> touched !! used
  {
    SetParts(used, touched);
    SetParts(touched, used);
    assert touched !! used <==> touched * used == {};
  }

  lemma PopulationBound(words: seq<Word>, n: nat)
    requires n <= 32 * |words|
    ensures CountBelow(words, n) <= n
  {
  }

  /** The frames lo, lo + 1, ..., hi - 1. */
  ghost function Range(lo: nat, hi: nat): set<nat>
    decreases hi
  {
    if lo >= hi then {} else Range(lo, hi - 1) + {hi - 1}
  }

  lemma {:induction false} RangeMembers(lo: nat, hi: nat, f: nat)
    ensures f in Range(lo, hi) <==> lo <= f < hi
    decreases hi
  {
    if lo < hi { RangeMembers(lo, hi - 1, f); }
  }

  lemma RegionStep(used: set<nat>, lo: nat, hi: nat, last: nat)
    requires lo <= hi < last
    ensures (used - Range(lo, hi)) - {hi} == used - Range(lo, hi + 1)
    ensures (used + Range(lo, hi)) + {hi} == used + Range(lo, hi + 1)
    ensures Range(lo, last) <= used ==> hi in used - Range(lo, hi)
    ensures Range(lo, last) !! used ==> hi !in used + Range(lo, hi)
  {
    RangeMembers(lo, hi, hi);
    RangeMembers(lo, last, hi);
  }

  lemma {:induction false} RangeSize(lo: nat, hi: nat)
    requires lo <= hi
    ensures |Range(lo, hi)| == hi - lo
    decreases hi - lo
  {
    if lo < hi {
      RangeSize(lo, hi - 1);
      RangeMembers(lo, hi - 1, hi - 1);
    }
  }

  lemma FullWord(words: seq<Word>, i: nat)
    requires i < |words| && words[i] == ALL_ONES
    ensures forall g: nat :: 32 * i <= g < 32 * (i + 1) ==> g in Frames(words)
  {
    AllMembers(words);
    forall g: nat | 32 * i <= g < 32 * (i + 1) ensures g in Frames(words) {
      AllOnesHasBits(g % 32);
      assert Marked(words, g);
    }
  }

  /** The counter reaches the block count only when every frame is used. */
  lemma UsedBound(used: set<nat>, total: nat)
    requires forall f :: f in used ==> f < total
    ensures |used| <= total
    ensures |used| == total ==> forall f: nat :: f < total ==> f in used
  {
    RangeSize(0, total);
    forall f: nat ensures f in Range(0, total) <==> f < total {
      RangeMembers(0, total, f);
    }
    var rest := Range(0, total) - used;
    assert Range(0, total) == used + rest;
    assert |used + rest| == |used| + |rest|;
    if |used| == total {
      forall f: nat | f < total ensures f in used {
        assert f in Range(0, total);
        assert rest == {};
      }
    }
  }
}
