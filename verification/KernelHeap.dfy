/**
 The kernel heap in memory: block headers linked by address and rewritten in place by
 splitting and merging. Every operation is proved against the block-list functions of
 HeapBlocks and HeapRuns, and shown to leave the payloads of live blocks untouched.
 */
module KernelHeap {
  import opened Words
  import opened HeapBlocks
  import opened HeapRuns

  /** Written below every aligned pointer, before the pointer kmalloc returned. */
  const MAGIC: Word := 0xA11C4FED

  /** Memory is a map from word-aligned addresses to 32-bit words. */
  type Memory = map<nat, Word>

  // --------------------------------------------------------- headers in memory

  /** The value of a header's next field: the following block's address, or NULL. */
  ghost function NextOf(bs: seq<Block>, i: nat): nat
    requires i < |bs|
  {
    if i + 1 < |bs| then bs[i + 1].addr else 0
  }

  /** The address of block i, or NULL past the end. */
  ghost function AddrOf(bs: seq<Block>, i: nat): nat
    requires i <= |bs|
  {
    if i < |bs| then bs[i].addr else 0
  }

  /** Header layout: size at +0, used in the low byte of +4 (three padding bytes above it), next at +8. */
  ghost predicate HeaderAt(mem: Memory, b: Block, next: nat) {
    && b.addr in mem && b.addr + 4 in mem && b.addr + 8 in mem
    && mem[b.addr] == b.size
    && mem[b.addr + 4] % 256 == (if b.used then 1 else 0)
    && mem[b.addr + 8] == next
  }

  ghost predicate HeaderOk(mem: Memory, bs: seq<Block>, i: nat)
    requires i < |bs|
  {
    HeaderAt(mem, bs[i], NextOf(bs, i))
  }

  ghost predicate Laid(mem: Memory, bs: seq<Block>) {
    forall i {:trigger HeaderOk(mem, bs, i)} :: 0 <= i < |bs| ==> HeaderOk(mem, bs, i)
  }

  ghost predicate WordIn(a: nat, lo: nat, hi: nat) {
    lo <= a < hi && a % 4 == 0
  }

  /** Every word of [lo, hi) is among the given addresses. */
  ghost predicate Backed(addresses: set<nat>, lo: nat, hi: nat) {
    forall a {:trigger WordIn(a, lo, hi)} :: WordIn(a, lo, hi) ==> a in addresses
  }

  /** Memory holds exactly the given list over the heap area. */
  ghost predicate Shape(mem: Memory, bs: seq<Block>, base: nat, size: nat) {
    && base % 4 == 0 && size % 4 == 0 && 16 <= base && HEADER < size && base + size < MOD32
    && Backed(mem.Keys, base, base + size)
    && bs != [] && Tiles(bs, base, base + size) && WordAligned(bs)
    && Laid(mem, bs)
  }

  /** The two memories differ at most inside [lo, hi). */
  ghost predicate SameOutside(m: Memory, m': Memory, lo: nat, hi: nat) {
    m'.Keys == m.Keys && forall a :: a in m && !(lo <= a < hi) ==> m'[a] == m[a]
  }

  ghost predicate SameIn(m: Memory, m': Memory, b: Block) {
    forall a :: b.addr <= a < b.End() && a in m && a in m' ==> m'[a] == m[a]
  }

  /** Nothing inside a live block, header or payload, differs between the two memories. */
  ghost predicate LiveKept(m: Memory, m': Memory, bs: seq<Block>) {
    && m'.Keys == m.Keys
    && forall b {:trigger SameIn(m, m', b)} :: b in bs && b.used ==> SameIn(m, m', b)
  }

  /** An aligned pointer p into block b, with the magic word and the original pointer just below it. */
  ghost predicate StashAt(mem: Memory, b: Block, p: nat) {
    && b.Payload() + 8 <= p < b.End() && p % 4 == 0
    && p - 8 in mem && p - 4 in mem
    && mem[p - 8] == MAGIC && mem[p - 4] == b.Payload()
  }

  /** Every recorded aligned pointer, keyed by the pointer kmalloc returned, sits in a live block. */
  ghost predicate Stashed(mem: Memory, bs: seq<Block>, stashes: map<nat, nat>) {
    forall o {:trigger stashes[o]} :: o in stashes ==>
      exists b :: b in bs && b.used && b.Payload() == o && StashAt(mem, b, stashes[o])
  }

  ghost function Without(stashes: map<nat, nat>, orig: nat): (r: map<nat, nat>)
    ensures orig !in r && forall o :: o in r ==> o in stashes && r[o] == stashes[o]
  {
    stashes - {orig}
  }

  lemma StashedKept(m: Memory, m': Memory, bs: seq<Block>, bs': seq<Block>, stashes: map<nat, nat>)
    requires Stashed(m, bs, stashes) && LiveKept(m, m', bs)
    requires forall b :: b in bs && b.used && b.Payload() in stashes ==> b in bs'
    ensures Stashed(m', bs', stashes)
  {
    forall o | o in stashes
      ensures exists b :: b in bs' && b.used && b.Payload() == o && StashAt(m', b, stashes[o])
    {
      var b :| b in bs && b.used && b.Payload() == o && StashAt(m, b, stashes[o]);
      assert SameIn(m, m', b);
      assert m'[stashes[o] - 8] == m[stashes[o] - 8] && m'[stashes[o] - 4] == m[stashes[o] - 4];
      assert b in bs' && StashAt(m', b, stashes[o]);
    }
  }

  lemma SameLive(a: seq<Block>, b: seq<Block>)
    requires Live(a) == Live(b)
    ensures forall x :: x in a && x.used ==> x in b
  {
    forall x | x in a && x.used ensures x in b {
      var i :| 0 <= i < |a| && a[i] == x;
      LiveMember(a, i);
      var j := LiveOrigin(b, x);
    }
  }

  /** Splitting block k without marking it used. */
  ghost function SplitOnly(bs: seq<Block>, k: nat, n: nat): (r: seq<Block>)
    requires k < |bs| && Fits(bs[k], n)
    ensures |r| > k && r[k].addr == bs[k].addr && !r[k].used
  {
    var b := bs[k];
    if Splits(b, n) then
      bs[..k] + [Block(b.addr, n, false), Block(b.addr + HEADER + n, b.size - n - HEADER, false)] + bs[k + 1..]
    else bs
  }

  lemma SplitThenMark(bs: seq<Block>, k: nat, n: nat)
    requires k < |bs| && Fits(bs[k], n)
    ensures var r := SplitOnly(bs, k, n); r[k := Block(r[k].addr, r[k].size, true)] == Place(bs, k, n)
  {
  }

  /** Rewriting words inside block k leaves every other header alone. */
  lemma OtherHeaders(m: Memory, m': Memory, bs: seq<Block>, lo: nat, hi: nat, k: nat)
    requires Tiles(bs, lo, hi) && Laid(m, bs) && k < |bs|
    requires SameOutside(m, m', bs[k].addr, bs[k].End())
    ensures forall i {:trigger HeaderOk(m', bs, i)} :: 0 <= i < |bs| && i != k ==> HeaderOk(m', bs, i)
  {
    forall i | 0 <= i < |bs| && i != k ensures HeaderOk(m', bs, i) {
      assert HeaderOk(m, bs, i);
      if i < k { Ordered(bs, lo, hi, i, k); } else { Ordered(bs, lo, hi, k, i); }
    }
  }

  /** A change confined to one free block keeps every live block. */
  lemma FreeChangeKeepsLive(m: Memory, m': Memory, bs: seq<Block>, lo: nat, hi: nat, k: nat)
    requires Tiles(bs, lo, hi) && k < |bs| && !bs[k].used
    requires SameOutside(m, m', bs[k].addr, bs[k].End())
    ensures LiveKept(m, m', bs)
  {
    forall b | b in bs && b.used ensures SameIn(m, m', b) {
      var i :| 0 <= i < |bs| && bs[i] == b;
      if i < k { Ordered(bs, lo, hi, i, k); } else { Ordered(bs, lo, hi, k, i); }
    }
  }

  lemma LiveKeptTrans(m: Memory, m': Memory, m'': Memory, bs: seq<Block>, bs': seq<Block>)
    requires LiveKept(m, m', bs) && LiveKept(m', m'', bs')
    requires forall x :: x in bs && x.used ==> x in bs'
    ensures LiveKept(m, m'', bs)
  {
    forall b | b in bs && b.used ensures SameIn(m, m'', b) {
      assert SameIn(m, m', b) && SameIn(m', m'', b);
    }
  }

  lemma BackedHeader(m: Memory, lo: nat, hi: nat, b: Block, n: nat)
    requires Backed(m.Keys, lo, hi) && b.addr % 4 == 0 && n % 4 == 0 && lo <= b.addr && b.End() <= hi && Splits(b, n)
    ensures b.addr + HEADER + n in m && b.addr + HEADER + n + 4 in m && b.addr + HEADER + n + 8 in m
  {
    var c := b.addr + HEADER + n;
    assert WordIn(c, lo, hi) && WordIn(c + 4, lo, hi) && WordIn(c + 8, lo, hi);
  }

  /** The five words split_block writes: a header for the remainder, then the first block's new size and next. */
  method WriteSplit(m: Memory, block: nat, n: nat, ghost b: Block, ghost next: nat) returns (m': Memory)
    requires b.addr == block && b.End() < MOD32 && !b.used && Splits(b, n) && HeaderAt(m, b, next)
    requires block + HEADER + n in m && block + HEADER + n + 4 in m && block + HEADER + n + 8 in m
    ensures SameOutside(m, m', b.addr, b.End())
    ensures HeaderAt(m', Block(b.addr, n, false), b.addr + HEADER + n)
    ensures HeaderAt(m', Block(b.addr + HEADER + n, b.size - n - HEADER, false), next)
  {
    var c := block + HEADER + n;
    m' := m[c := m[block] - n - HEADER];
    m' := m'[c + 4 := m'[c + 4] / 256 * 256];
    m' := m'[c + 8 := m'[block + 8]];
    m' := m'[block := n];
    m' := m'[block + 8 := c];
  }

  lemma SplitLaid(m: Memory, m': Memory, bs: seq<Block>, lo: nat, hi: nat, k: nat, n: nat)
    requires Tiles(bs, lo, hi) && Laid(m, bs) && k < |bs| && Fits(bs[k], n) && Splits(bs[k], n)
    requires SameOutside(m, m', bs[k].addr, bs[k].End())
    requires HeaderAt(m', Block(bs[k].addr, n, false), bs[k].addr + HEADER + n)
    requires HeaderAt(m', Block(bs[k].addr + HEADER + n, bs[k].size - n - HEADER, false), NextOf(bs, k))
    ensures Laid(m', SplitOnly(bs, k, n))
  {
    OtherHeaders(m, m', bs, lo, hi, k);
    var r := SplitOnly(bs, k, n);
    forall i | 0 <= i < |r| ensures HeaderOk(m', r, i) {
      if i < k {
        assert HeaderOk(m', bs, i) && r[i] == bs[i] && NextOf(r, i) == NextOf(bs, i);
      } else if i > k + 1 {
        assert HeaderOk(m', bs, i - 1) && r[i] == bs[i - 1] && NextOf(r, i) == NextOf(bs, i - 1);
      }
    }
  }

  lemma SplitDone(m: Memory, m': Memory, bs: seq<Block>, base: nat, size: nat, k: nat, n: nat)
    requires Shape(m, bs, base, size) && k < |bs| && Fits(bs[k], n) && Splits(bs[k], n) && n % 4 == 0
    requires SameOutside(m, m', bs[k].addr, bs[k].End())
    requires HeaderAt(m', Block(bs[k].addr, n, false), bs[k].addr + HEADER + n)
    requires HeaderAt(m', Block(bs[k].addr + HEADER + n, bs[k].size - n - HEADER, false), NextOf(bs, k))
    ensures Shape(m', SplitOnly(bs, k, n), base, size)
  {
    SplitLaid(m, m', bs, base, base + size, k, n);
    SplitShape(bs, base, base + size, k, n);
  }

  lemma SplitShape(bs: seq<Block>, lo: nat, hi: nat, k: nat, n: nat)
    requires Tiles(bs, lo, hi) && WordAligned(bs) && k < |bs| && Fits(bs[k], n) && n % 4 == 0
    ensures Tiles(SplitOnly(bs, k, n), lo, hi) && WordAligned(SplitOnly(bs, k, n))
    ensures forall x :: x in bs && x.used ==> x in SplitOnly(bs, k, n)
  {
    var r := SplitOnly(bs, k, n);
    if Splits(bs[k], n) {
      forall x | 0 <= x < |r| - 1 ensures Meets(r, x) {
        if x < k {
          assert Meets(bs, x);
        } else if x > k {
          assert Meets(bs, x - 1) && r[x + 1] == bs[x];
        }
      }
      forall x | 0 <= x < |r| ensures r[x].addr % 4 == 0 && r[x].size % 4 == 0 {
        if x > k + 1 { assert r[x] == bs[x - 1]; }
      }
      forall b | b in bs && b.used ensures b in r {
        var i :| 0 <= i < |bs| && bs[i] == b;
        if i < k { assert r[i] == b; } else { assert r[i + 1] == b; }
      }
    }
  }

  /** One step of the merging walk at block k: join with the successor, or move on. */
  lemma CoalesceJoin(bs: seq<Block>, k: nat)
    requires k + 1 < |bs| && !bs[k].used && !bs[k + 1].used
    ensures bs[..k] + Coalesce(bs[k..]) == JoinAt(bs, k)[..k] + Coalesce(JoinAt(bs, k)[k..])
  {
    var t := bs[k..];
    assert t[0] == bs[k] && t[1] == bs[k + 1];
    assert JoinAt(bs, k)[..k] == bs[..k];
    assert JoinAt(bs, k)[k..] == [Joined(t[0], t[1])] + t[2..];
  }

  lemma CoalesceSkip(bs: seq<Block>, k: nat)
    requires k + 1 < |bs| && (bs[k].used || bs[k + 1].used)
    ensures bs[..k] + Coalesce(bs[k..]) == bs[..k + 1] + Coalesce(bs[k + 1..])
  {
    var t := bs[k..];
    assert t[0] == bs[k] && t[1] == bs[k + 1];
    assert t[1..] == bs[k + 1..];
    assert bs[..k + 1] == bs[..k] + [bs[k]];
  }

  /** Joining block k with its free successor, given block k's new header. */
  lemma JoinLaid(m: Memory, m': Memory, bs: seq<Block>, lo: nat, hi: nat, k: nat)
    requires Tiles(bs, lo, hi) && Laid(m, bs) && k + 1 < |bs| && !bs[k].used && !bs[k + 1].used
    requires SameOutside(m, m', bs[k].addr, bs[k].End())
    requires HeaderAt(m', Joined(bs[k], bs[k + 1]), NextOf(bs, k + 1))
    ensures Laid(m', JoinAt(bs, k))
  {
    OtherHeaders(m, m', bs, lo, hi, k);
    var r := JoinAt(bs, k);
    forall i | 0 <= i < |r| ensures HeaderOk(m', r, i) {
      if i < k {
        assert HeaderOk(m', bs, i) && r[i] == bs[i] && NextOf(r, i) == NextOf(bs, i);
      } else if i > k {
        assert HeaderOk(m', bs, i + 1) && r[i] == bs[i + 1] && NextOf(r, i) == NextOf(bs, i + 1);
      }
    }
  }

  lemma JoinShape(bs: seq<Block>, lo: nat, hi: nat, k: nat)
    requires Tiles(bs, lo, hi) && WordAligned(bs) && k + 1 < |bs| && !bs[k].used && !bs[k + 1].used
    ensures WordAligned(JoinAt(bs, k))
  {
    var r := JoinAt(bs, k);
    forall x | 0 <= x < |r| ensures r[x].addr % 4 == 0 && r[x].size % 4 == 0 {
      if x > k { assert r[x] == bs[x + 1]; }
    }
  }

  lemma JoinKeepsUsed(bs: seq<Block>, k: nat)
    requires k + 1 < |bs| && !bs[k].used && !bs[k + 1].used
    ensures forall x :: x in bs && x.used ==> x in JoinAt(bs, k)
  {
    var r := JoinAt(bs, k);
    forall b | b in bs && b.used ensures b in r {
      var i :| 0 <= i < |bs| && bs[i] == b;
      if i < k { assert r[i] == b; } else { assert r[i - 1] == b; }
    }
  }

  /** Marking block k used or free changes only the low byte of its second header word. */
  lemma MarkLaid(m: Memory, m': Memory, bs: seq<Block>, lo: nat, hi: nat, k: nat, used: bool)
    requires Tiles(bs, lo, hi) && Laid(m, bs) && k < |bs| && HeaderOk(m, bs, k)
    requires m' == m[bs[k].addr + 4 := m[bs[k].addr + 4] / 256 * 256 + (if used then 1 else 0)]
    ensures Laid(m', bs[k := Block(bs[k].addr, bs[k].size, used)])
  {
    OtherHeaders(m, m', bs, lo, hi, k);
    var r := bs[k := Block(bs[k].addr, bs[k].size, used)];
    forall i | 0 <= i < |r| ensures HeaderOk(m', r, i) {
      assert NextOf(r, i) == NextOf(bs, i);
      assert i != k ==> HeaderOk(m', bs, i);
    }
  }

  // ------------------------------------------------------------------- class

  class Heap {
    const base: nat
    const size: nat
    var mem: Memory
    var heapUsed: Word
    ghost var blocks: seq<Block>
    ghost var slack: nat
    ghost var stashes: map<nat, nat>

    ghost function Value(): State
      reads this
    {
      State(base, base + size, blocks, heapUsed, slack)
    }

    /** What walking and rewriting the list needs. */
    ghost predicate Layout()
      reads this
    {
      Shape(mem, blocks, base, size)
    }

    ghost predicate Valid()
      reads this
    {
      Layout() && Inv(Value()) && Stashed(mem, blocks, stashes)
    }

    /** heap_init over a word-aligned area whose words are all present in memory. */
    constructor (start: nat, length: nat, initial: Memory)
      requires start % 4 == 0 && length % 4 == 0 && 16 <= start && HEADER < length && start + length < MOD32
      requires Backed(initial.Keys, start, start + length)
      ensures Valid() && Value() == Init(start, length) && stashes == map[]
      ensures mem.Keys == initial.Keys
    {
      base, size := start, length;
      heapUsed := HEADER;
      assert WordIn(start, start, start + length) && WordIn(start + 4, start, start + length)
          && WordIn(start + 8, start, start + length);
      mem := initial[start := length - HEADER][start + 4 := initial[start + 4] / 256 * 256][start + 8 := 0];
      blocks := [Block(start, length - HEADER, false)];
      slack := 0;
      stashes := map[];
      new;
      assert Value() == Init(start, length);
    }

    lemma HeaderReads(k: nat)
      requires Layout() && k < |blocks|
      ensures HeaderOk(mem, blocks, k)
      ensures base <= blocks[k].addr && blocks[k].End() <= base + size
      ensures mem[blocks[k].addr + 8] != 0 <==> k + 1 < |blocks|
      ensures k + 1 < |blocks| ==> blocks[k].End() == blocks[k + 1].addr && blocks[k + 1].addr < base + size
    {
      Inside(blocks, base, base + size, k);
      if k + 1 < |blocks| {
        Inside(blocks, base, base + size, k + 1);
        assert Meets(blocks, k);
      }
      assert HeaderOk(mem, blocks, k);
    }

    /** split_block on free block k. */
    method SplitBlock(block: nat, n: nat, ghost k: nat)
      requires Layout() && k < |blocks| && blocks[k].addr == block && Fits(blocks[k], n) && n % 4 == 0
      modifies this`mem, this`blocks
      ensures Layout() && blocks == SplitOnly(old(blocks), k, n)
      ensures SameOutside(old(mem), mem, block, old(blocks[k].End()))
    {
      HeaderReads(k);
      if mem[block] >= n + HEADER + MIN_REMAINDER {
        BackedHeader(mem, base, base + size, blocks[k], n);
        var m' := WriteSplit(mem, block, n, blocks[k], NextOf(blocks, k));
        SplitDone(mem, m', blocks, base, size, k, n);
        mem := m';
        blocks := SplitOnly(blocks, k, n);
      }
    }

    /** Absorb the free successor of free block k: its size and next field are rewritten. */
    method JoinNext(block: nat, next: nat, ghost k: nat)
      requires Layout() && k + 1 < |blocks| && blocks[k].addr == block && blocks[k + 1].addr == next
      requires !blocks[k].used && !blocks[k + 1].used
      modifies this`mem, this`blocks
      ensures Layout() && blocks == JoinAt(old(blocks), k)
      ensures LiveKept(old(mem), mem, old(blocks))
      ensures forall x :: x in old(blocks) && x.used ==> x in blocks
    {
      HeaderReads(k);
      HeaderReads(k + 1);
      ghost var bs, m := blocks, mem;
      MergeGuardNeverFires(bs, base, base + size, k);
      var newSize := (mem[block] + HEADER + mem[next]) % MOD32;
      if newSize < mem[block] || newSize >= size {
        assert false; // guard: skip the pair
      }
      mem := mem[block := newSize];
      mem := mem[block + 8 := mem[next + 8]];
      blocks := JoinAt(bs, k);
      assert HeaderAt(mem, Joined(bs[k], bs[k + 1]), NextOf(bs, k + 1));
      JoinLaid(m, mem, bs, base, base + size, k);
      JoinTiles(bs, base, base + size, k);
      JoinShape(bs, base, base + size, k);
      JoinKeepsUsed(bs, k);
      FreeChangeKeepsLive(m, mem, bs, base, base + size, k);
    }

    /** The fields of the header of block k; next is NULL exactly at the last block. */
    method ReadHeader(block: nat, ghost k: nat) returns (blockSize: Word, used: bool, next: Word)
      requires Layout() && k < |blocks| && blocks[k].addr == block
      ensures Block(block, blockSize, used) == blocks[k] && next == NextOf(blocks, k)
      ensures next != 0 <==> k + 1 < |blocks|
      ensures base <= block && block + HEADER + blockSize <= base + size
      ensures next != 0 ==> base <= next < base + size
    {
      HeaderReads(k);
      if k + 1 < |blocks| { HeaderReads(k + 1); }
      blockSize, used, next := mem[block], mem[block + 4] % 256 != 0, mem[block + 8];
    }

    /** merge_free_blocks. The range and overflow guards are unreachable. */
    method MergeFreeBlocks()
      requires Layout()
      modifies this`mem, this`blocks
      ensures Layout() && blocks == Coalesce(old(blocks))
      ensures LiveKept(old(mem), mem, old(blocks))
    {
      var block := base;
      var heapEnd := base + size;
      ghost var k := 0;
      var blockSize, used, next := ReadHeader(block, k);
      while next != 0
        invariant Layout()
        invariant k < |blocks| && block == blocks[k].addr && used == blocks[k].used && next == NextOf(blocks, k)
        invariant next != 0 <==> k + 1 < |blocks|
        invariant base <= block < heapEnd && (next != 0 ==> base <= next < heapEnd)
        invariant Coalesce(old(blocks)) == blocks[..k] + Coalesce(blocks[k..])
        invariant LiveKept(old(mem), mem, old(blocks))
        invariant forall x :: x in old(blocks) && x.used ==> x in blocks
        decreases |blocks| - k
      {
        if block < base || block >= heapEnd || next < base || next >= heapEnd {
          assert false; // guards: break
        }
        var _, nextUsed, nextNext := ReadHeader(next, k + 1);
        ghost var m, bs := mem, blocks;
        if !used && !nextUsed {
          CoalesceJoin(bs, k);
          JoinNext(block, next, k);
          LiveKeptTrans(old(mem), m, mem, old(blocks), bs);
        } else {
          CoalesceSkip(bs, k);
          block := next;
          k := k + 1;
        }
        blockSize, used, next := ReadHeader(block, k);
      }
      assert blocks[..k] + blocks[k..] == blocks;
    }

    /** find_best_fit: the address of the best-fitting block, or NULL. */
    method FindBestFit(n: nat) returns (best: nat)
      requires Layout() && n < MOD32
      ensures var k := BestFit(blocks, n); best == if k >= 0 then blocks[k].addr else 0
    {
      best := 0;
      var block := base;
      var bestDiff: nat := 0xFFFFFFFF;
      ghost var k := 0;
      ghost var bi := -1;
      while block != 0
        invariant k <= |blocks| && block == AddrOf(blocks, k) && (block == 0 ==> k == |blocks|)
        invariant bi == BestFitUpTo(blocks, n, k)
        invariant bi < 0 ==> best == 0 && bestDiff == 0xFFFFFFFF
        invariant bi >= 0 ==> best == blocks[bi].addr && bestDiff == blocks[bi].size - n
        decreases |blocks| - k
      {
        var blockSize, used, next := ReadHeader(block, k);
        if !used && blockSize >= n {
          var diff := blockSize - n;
          if diff < bestDiff {
            best := block;
            bestDiff := diff;
            bi := k;
            if diff == 0 {
              ExactFitIsFinal(blocks, n, k + 1);
              return;
            }
          }
        }
        block := next;
        k := k + 1;
      }
    }

    /** The common tail of both kmalloc branches. */
    method TakeBlock(block: nat, n: nat, ghost k: nat) returns (ptr: nat)
      requires Valid() && k < |blocks| && blocks[k].addr == block && Fits(blocks[k], n) && n % 4 == 0
      modifies this`mem, this`blocks, this`heapUsed, this`slack
      ensures Valid() && Value() == PlaceAt(old(Value()), k, n) && ptr == old(blocks[k].Payload())
      ensures LiveKept(old(mem), mem, old(blocks))
    {
      ghost var bs := blocks;
      PlaceAtKeeps(Value(), k, n);
      SplitAndMark(block, n, k);
      heapUsed := (heapUsed + n + HEADER) % MOD32;
      slack := slack + Slack(bs[k], n);
      ptr := block + HEADER;
    }

    /** The header writes of kmalloc. */
    method SplitAndMark(block: nat, n: nat, ghost k: nat)
      requires Layout() && Stashed(mem, blocks, stashes)
      requires k < |blocks| && blocks[k].addr == block && Fits(blocks[k], n) && n % 4 == 0
      modifies this`mem, this`blocks
      ensures Layout() && Stashed(mem, blocks, stashes) && blocks == Place(old(blocks), k, n)
      ensures LiveKept(old(mem), mem, old(blocks))
    {
      ghost var m, bs := mem, blocks;
      SplitBlock(block, n, k);
      Mark(block, true, k);
      SplitThenMark(bs, k, n);
      FreeChangeKeepsLive(m, mem, bs, base, base + size, k);
      PlaceKeepsUsed(bs, k, n);
      StashedKept(m, mem, bs, blocks, stashes);
    }

    /** block->used = 1 or 0: one byte of the header. */
    method Mark(block: nat, used: bool, ghost k: nat)
      requires Layout() && k < |blocks| && blocks[k].addr == block
      modifies this`mem, this`blocks
      ensures Layout() && blocks == old(blocks)[k := Block(block, old(blocks)[k].size, used)]
      ensures SameOutside(old(mem), mem, block + 4, block + 8)
    {
      HeaderReads(k);
      ghost var m, bs := mem, blocks;
      mem := mem[block + 4 := mem[block + 4] / 256 * 256 + (if used then 1 else 0)];
      blocks := bs[k := Block(block, bs[k].size, used)];
      MarkLaid(m, mem, bs, base, base + size, k, used);
      RetagTiles(bs, base, base + size, k, used);
    }

    /** kmalloc. The retry after merging cannot find a block that the first search missed. */
    method Kmalloc(request: nat) returns (ptr: nat)
      requires Valid() && request < MOD32
      modifies this`mem, this`blocks, this`heapUsed, this`slack
      ensures Valid() && (Value(), ptr) == Malloc(old(Value()), request)
      ensures LiveKept(old(mem), mem, old(blocks))
    {
      if request == 0 {
        return 0;
      }
      var n := (request + 3) % MOD32 / 4 * 4;
      ghost var s := Value();
      var block := FindBestFit(n);
      if block != 0 {
        ptr := TakeBlock(block, n, BestFit(blocks, n));
        return;
      }
      BestFitAddr(blocks, base, base + size, n);
      MergeFreeBlocks();
      CoalesceFixed(s.blocks);
      SameLive(s.blocks, blocks);
      StashedKept(old(mem), mem, s.blocks, blocks, stashes);
      block := FindBestFit(n);
      ptr := 0;
      if block != 0 {
        assert false;
      }
    }

    /** A store by the owner of live block k into its payload, away from the block's stash. */
    method Store(a: nat, v: Word, ghost k: nat)
      requires Valid() && k < |blocks| && blocks[k].used && blocks[k].Payload() <= a < blocks[k].End() && a % 4 == 0
      requires blocks[k].Payload() in stashes ==>
          a != stashes[blocks[k].Payload()] - 8 && a != stashes[blocks[k].Payload()] - 4
      modifies this`mem
      ensures Valid() && mem == old(mem)[a := v] && a in old(mem)
    {
      ghost var m := mem;
      HeaderReads(k);
      assert WordIn(a, base, base + size);
      mem := mem[a := v];
      PayloadWrite(m, mem, blocks, base, base + size, k, stashes);
    }

    /** Record an aligned pointer p for live block k: the magic word and the original pointer below p. */
    method WriteStash(orig: Word, p: nat, ghost k: nat)
      requires Valid() && k < |blocks| && blocks[k].used && p % 4 == 0
      requires blocks[k].Payload() == orig && orig + 8 <= p < blocks[k].End()
      modifies this`mem, this`stashes
      ensures Valid() && stashes == old(stashes)[orig := p]
      ensures SameOutside(old(mem), mem, p - 8, p)
    {
      ghost var m := mem;
      ghost var others := stashes - {orig};
      HeaderReads(k);
      assert WordIn(p - 8, base, base + size) && WordIn(p - 4, base, base + size);
      mem := mem[p - 8 := MAGIC];
      mem := mem[p - 4 := orig];
      assert Stashed(m, blocks, others);
      PayloadWrite(m, mem, blocks, base, base + size, k, others);
      stashes := stashes[orig := p];
      assert StashAt(mem, blocks[k], p) && blocks[k] in blocks;
      forall o | o in stashes
        ensures exists b :: b in blocks && b.used && b.Payload() == o && StashAt(mem, b, stashes[o])
      {
        if o != orig { assert others[o] == stashes[o]; }
      }
    }

    /** kmalloc_aligned. The request must leave room for the alignment and the stash in 32 bits. */
    method KmallocAligned(request: nat, align: nat) returns (p: nat)
      requires Valid() && request < MOD32 && align < MOD32
      requires PowerOfTwo(align) ==> request + align + 8 <= MOD32 - 4
      modifies this`mem, this`blocks, this`heapUsed, this`slack, this`stashes
      ensures Valid()
      ensures !PowerOfTwo(align) ==> p == 0 && Value() == old(Value())
      ensures PowerOfTwo(align) ==> Value() == Malloc(old(Value()), request + align + 8).0
      ensures PowerOfTwo(align) ==> (p == 0 <==> Malloc(old(Value()), request + align + 8).1 == 0)
      ensures p == 0 ==> stashes == old(stashes)
      ensures p != 0 ==>
                var orig := Malloc(old(Value()), request + align + 8).1;
                && p % align == 0 && orig + 8 <= p < orig + 8 + align
                && p + request <= orig + Round4(request + align + 8)
                && stashes == old(stashes)[orig := p] && Target(p) == orig
      ensures LiveKept(old(mem), mem, old(blocks))
    {
      if align == 0 || !PowerOfTwo(align) {
        NothingChanged(mem, blocks);
        return 0;
      }
      var total := (request + align + 8) % MOD32;
      assert total == request + align + 8;
      p := KmallocStashed(total, request, align);
    }

    /** kmalloc_aligned past the checks, for a total that did not wrap. */
    method KmallocStashed(total: nat, request: nat, align: nat) returns (p: nat)
      requires Valid() && PowerOfTwo(align) && total == request + align + 8 && total <= MOD32 - 4
      modifies this`mem, this`blocks, this`heapUsed, this`slack, this`stashes
      ensures Valid() && Value() == Malloc(old(Value()), total).0
      ensures p == 0 <==> Malloc(old(Value()), total).1 == 0
      ensures p == 0 ==> stashes == old(stashes)
      ensures p != 0 ==>
                var orig := Malloc(old(Value()), total).1;
                && p % align == 0 && orig + 8 <= p < orig + 8 + align
                && p + request <= orig + Round4(total)
                && stashes == old(stashes)[orig := p] && Target(p) == orig
      ensures LiveKept(old(mem), mem, old(blocks))
    {
      ghost var s, m := Value(), mem;
      var ptr := Kmalloc(total);
      if ptr == 0 {
        return 0;
      }
      ghost var k := GrantedBlock(s, total);
      ghost var m1 := mem;
      p := AlignAndStash(ptr, request, align, k);
      StashKeepsOldLive(s, m, m1, mem, k, p);
    }

    /** Compute the aligned pointer inside live block k, which has room for it, and record it. */
    method AlignAndStash(ptr: nat, request: nat, align: nat, ghost k: nat) returns (p: nat)
      requires Valid() && k < |blocks| && blocks[k].used && blocks[k].Payload() == ptr
      requires PowerOfTwo(align) && request + align + 8 <= blocks[k].size
      modifies this`mem, this`stashes
      ensures Valid() && p % align == 0 && ptr + 8 <= p && p + request < ptr + request + align + 8
      ensures p <= blocks[k].End()
      ensures stashes == old(stashes)[ptr := p] && Target(p) == ptr
      ensures SameOutside(old(mem), mem, p - 8, p)
    {
      HeaderReads(k);
      WordAlignedBlock(blocks, k);
      AlignedInside(ptr, request, align);
      p := AlignUp(ptr, align);
      WriteStash(ptr, p, k);
      TargetOfStash(ptr, k);
    }

    /** The pointer whose block kfree(ptr) releases: ptr itself, or the original of a recorded aligned pointer. */
    ghost function Target(ptr: nat): nat
      reads this
    {
      if ptr in stashes.Values && Find(blocks, ptr) < 0 then var o :| o in stashes && stashes[o] == ptr; o else ptr
    }

    lemma TargetOfStash(orig: nat, k: nat)
      requires Valid() && orig in stashes && k < |blocks| && blocks[k].used && blocks[k].Payload() == orig
      ensures Find(blocks, stashes[orig]) < 0 && Target(stashes[orig]) == orig
    {
      var p := stashes[orig];
      assert p in stashes.Values;
      forall o | o in stashes && stashes[o] == p ensures o == orig && mem[p - 4] == orig && Find(blocks, p) < 0 {
        var i := StashInfo(o);
        var j := StashInfo(orig);
      }
    }

    lemma StashInfo(o: nat) returns (k: nat)
      requires Valid() && o in stashes
      ensures k < |blocks| && blocks[k].used && blocks[k].Payload() == o && StashAt(mem, blocks[k], stashes[o])
      ensures Find(blocks, o) == k && Find(blocks, stashes[o]) < 0
      ensures base <= blocks[k].addr && o < stashes[o] < base + size
    {
      var b :| b in blocks && b.used && b.Payload() == o && StashAt(mem, b, stashes[o]);
      k :| 0 <= k < |blocks| && blocks[k] == b;
      HeaderReads(k);
      FindUnique(Value(), k);
      var j := Find(blocks, stashes[o]);
      if j >= 0 {
        if j < k { Ordered(blocks, base, base + size, j, k); }
            else if k < j { Ordered(blocks, base, base + size, k, j); }
      }
    }

    /** kfree decides from the word at ptr - 8 alone; it is the magic word exactly for aligned pointers. */
    lemma MagicTellsAligned(ptr: nat)
      requires Valid() && base <= ptr < base + size
      requires Find(blocks, ptr) >= 0 || ptr in stashes.Values
      ensures ptr >= 8 && ptr - 8 in mem && ptr - 4 in mem
      ensures mem[ptr - 8] == MAGIC <==> Find(blocks, ptr) < 0
      ensures Target(ptr) == if mem[ptr - 8] == MAGIC then mem[ptr - 4] else ptr
      ensures Find(blocks, Target(ptr)) >= 0 && base + HEADER <= Target(ptr) < base + size
    {
      var j := Find(blocks, ptr);
      if j >= 0 {
        HeaderReads(j);
      } else {
        var o :| o in stashes && stashes[o] == ptr;
        var k := StashInfo(o);
        TargetOfStash(o, k);
      }
    }

    /** The block of a pointer's target is freed through its own pointer or through its aligned pointer. */
    lemma TargetFrees(ptr: nat)
      requires Valid() && (base <= ptr < base + size ==> Find(blocks, ptr) >= 0 || ptr in stashes.Values)
      ensures base <= ptr < base + size ==>
          Target(ptr) == ptr || (Target(ptr) in stashes && stashes[Target(ptr)] == ptr)
      ensures !(base <= ptr < base + size) ==> Target(ptr) == ptr && Free(Value(), Target(ptr)) == Value()
    {
      if !(base <= ptr < base + size) && ptr in stashes.Values {
        var o :| o in stashes && stashes[o] == ptr;
        var k := StashInfo(o);
      }
    }

    /** heap_validate. */
    method HeapValidate()
      requires Layout()
      modifies this`mem, this`blocks
      ensures Layout() && blocks == Validated(old(blocks))
      ensures LiveKept(old(mem), mem, old(blocks))
    {
      var block := base;
      ghost var k := 0;
      while block != 0
        invariant mem == old(mem) && blocks == old(blocks)
        invariant k <= |blocks| && block == AddrOf(blocks, k) && (block == 0 ==> k == |blocks|)
        invariant forall i :: 0 <= i < k && i < |blocks| - 1 ==> blocks[i].used || blocks[i].size != 0
        decreases |blocks| - k
      {
        var blockSize, used, next := ReadHeader(block, k);
        if block < base || block >= base + size {
          assert false; // guard: break
        }
        if !used && blockSize == 0 && next != 0 {
          assert NeedsRepair(blocks);
          MergeFreeBlocks();
          return;
        }
        block := next;
        k := k + 1;
      }
    }

    /**
     kfree of NULL, of a pointer outside the heap, of a payload pointer, or of a live aligned pointer.
     It releases the block k of the pointer's target and nothing else; k is -1 when there is none.
     */
    method Kfree(ptr: nat) returns (ghost k: int)
      requires Valid() && ptr < MOD32
      requires base <= ptr < base + size ==> Find(blocks, ptr) >= 0 || ptr in stashes.Values
      modifies this`mem, this`blocks, this`heapUsed, this`stashes
      ensures Valid() && -1 <= k < |old(blocks)|
      ensures k >= 0 <==> base <= ptr < base + size
      ensures k < 0 ==> mem == old(mem) && Value() == old(Value()) && stashes == old(stashes)
      ensures k >= 0 ==>
                && old(blocks)[k].Payload() == old(Target(ptr)) && base <= old(Target(ptr)) < base + size
                && Value() == FreeAt(old(Value()), k) == Free(old(Value()), old(Target(ptr)))
                && (old(blocks)[k].used ==> stashes == Without(old(stashes), old(blocks)[k].Payload()))
                && (!old(blocks)[k].used ==> stashes == old(stashes))
                && LiveKept(old(mem), mem, Release(old(blocks), k))
    {
      if ptr == 0 || ptr < base || ptr >= base + size {
        return -1;
      }
      MagicTellsAligned(ptr);
      var target := ptr;
      if mem[ptr - 8] == MAGIC {
        var orig := mem[ptr - 4];
        if orig < base || orig >= base + size {
          assert false; // guard: return
        }
        target := orig;
      }
      k := Find(blocks, target);
      FreeIsFreeAt(Value(), k);
      var block := target - HEADER;
      var blockSize, used, _ := ReadHeader(block, k);
      if used {
        ReleaseBlock(block, blockSize, k);
      } else {
        NothingChanged(mem, Release(blocks, k));
      }
    }

    /** merge_free_blocks followed by heap_validate, which finds nothing left to merge. */
    method Consolidate()
      requires Layout() && Stashed(mem, blocks, stashes)
      modifies this`mem, this`blocks
      ensures Layout() && Stashed(mem, blocks, stashes)
      ensures blocks == Coalesce(old(blocks)) == Validated(Coalesce(old(blocks)))
      ensures LiveKept(old(mem), mem, old(blocks))
    {
      ghost var m, bs := mem, blocks;
      MergeFreeBlocks();
      ghost var m1, merged := mem, blocks;
      CoalesceKeeps(bs, base, base + size);
      SameLive(bs, merged);
      ValidatedFixed(merged);
      HeapValidate();
      LiveKeptTrans(m, m1, mem, bs, merged);
      StashedKept(m, mem, bs, merged, stashes);
    }

    /** Take block k out of use: its used byte, its share of heap_used and its stash. */
    method Retire(block: nat, blockSize: Word, ghost k: nat)
      requires Layout() && Stashed(mem, blocks, stashes) && k < |blocks| && blocks[k] == Block(block, blockSize, true)
      modifies this`mem, this`blocks, this`heapUsed, this`stashes
      ensures Layout() && Stashed(mem, blocks, stashes) && blocks == Release(old(blocks), k)
      ensures heapUsed == (old(heapUsed) - (blockSize + HEADER)) % MOD32
      ensures stashes == Without(old(stashes), old(blocks)[k].Payload())
      ensures LiveKept(old(mem), mem, Release(old(blocks), k))
    {
      ghost var m, bs := mem, blocks;
      heapUsed := (heapUsed - (blockSize + HEADER)) % MOD32;
      Mark(block, false, k);
      MarkKeepsLive(m, mem, bs, base, base + size, k);
      stashes := Without(stashes, bs[k].Payload());
      ReleaseStashed(m, mem, bs, base, base + size, k, stashes);
    }

    /** The used branch of kfree. */
    method ReleaseBlock(block: nat, blockSize: Word, ghost k: nat)
      requires Valid() && k < |blocks| && blocks[k] == Block(block, blockSize, true)
      modifies this`mem, this`blocks, this`heapUsed, this`stashes
      ensures Valid() && Value() == FreeAt(old(Value()), k)
      ensures stashes == Without(old(stashes), old(blocks)[k].Payload())
      ensures LiveKept(old(mem), mem, Release(old(blocks), k))
    {
      ghost var m := mem;
      FreeAtInv(Value(), k);
      Retire(block, blockSize, k);
      ghost var m1, released := mem, blocks;
      Consolidate();
      LiveKeptTrans(m, m1, mem, released, released);
    }

    /** heap_defragment. */
    method Defrag()
      requires Valid()
      modifies this`mem, this`blocks
      ensures Valid() && Value() == Defragment(old(Value())) == old(Value())
      ensures LiveKept(old(mem), mem, old(blocks))
    {
      ghost var m, bs := mem, blocks;
      CoalesceFixed(bs);
      MergeFreeBlocks();
      StashedKept(m, mem, bs, blocks, stashes);
    }

    /** heap_get_fragmentation over at most 10000 blocks; the restart branch is unreachable. */
    method GetFragmentation() returns (count: nat, largest: nat)
      requires Valid() && Positive(blocks)
      ensures var seen := if |blocks| <= 10000 then blocks else blocks[..10000];
              && count == CountFree(seen)
              && (forall i :: 0 <= i < |seen| && !seen[i].used ==> seen[i].size <= largest)
              && (if count == 0 then largest == 0 else exists i ::
                  0 <= i < |seen| && !seen[i].used && seen[i].size == largest)
    {
      count, largest := 0, 0;
      var block := base;
      var iterations := 0;
      assert blocks[..0] == [];
      while block != 0 && iterations < 10000
        invariant iterations <= |blocks| && iterations <= 10000
        invariant block == AddrOf(blocks, iterations) && (block == 0 ==> iterations == |blocks|)
        invariant count == CountFree(blocks[..iterations])
        invariant forall i :: 0 <= i < iterations && !blocks[i].used ==> blocks[i].size <= largest
        invariant if count == 0 then largest == 0 else exists i ::
            0 <= i < iterations && !blocks[i].used && blocks[i].size == largest
        decreases |blocks| - iterations
      {
        var blockSize, used, next := ReadHeader(block, iterations);
        if block < base || block >= base + size {
          assert false; // guard: break
        }
        if blockSize == 0 && next != 0 {
          assert false; // restart
        }
        CountFreeNext(blocks, iterations);
        if !used {
          count := count + 1;
          if blockSize > largest {
            largest := blockSize;
          }
        }
        block := next;
        iterations := iterations + 1;
      }
      assert iterations == |blocks| ==> blocks[..iterations] == blocks;
    }
  }

  // ----------------------------------------------------------- aligned pointers

  predicate PowerOfTwo(n: nat) {
    n == 1 || (n > 1 && n % 2 == 0 && PowerOfTwo(n / 2))
  }

  /** x & ~(a - 1) for a power of two: the largest multiple of a not above x. */
  function FloorTo(x: nat, a: nat): (r: nat)
    requires a > 0
    ensures x - a < r <= x
  {
    x - x % a
  }

  lemma FloorIsMultiple(x: nat, a: nat)
    requires a > 0
    ensures FloorTo(x, a) == x / a * a && FloorTo(x, a) % a == 0
  {
    MultipleMod(x / a, a);
  }

  lemma MultipleMod(q: nat, a: nat)
    requires a > 0
    ensures (q * a) % a == 0
  {
    var p := q * a;
    var d, r := p / a, p % a;
    assert p == d * a + r;
    if q > d {
      AtLeast(q - d, a);
      Distribute(q, d, a);
    } else if q < d {
      AtLeast(d - q, a);
      Distribute(d, q, a);
    }
  }

  lemma AtLeast(n: nat, a: nat)
    requires n >= 1
    ensures n * a >= a
  {
  }

  lemma Distribute(x: nat, y: nat, a: nat)
    requires x >= y
    ensures (x - y) * a == x * a - y * a
  {
  }

  lemma MultipleOfFour(q: nat, a: nat)
    requires a % 4 == 0
    ensures (q * a) % 4 == 0
  {
    var b := a / 4;
    assert q * a == (q * b) * 4;
  }

  /** Rounding up from a word boundary to any power of two stays on a word boundary. */
  lemma AlignedWord(addr: nat, align: nat)
    requires PowerOfTwo(align) && addr % 4 == 0
    ensures FloorTo(addr + 8 + align - 1, align) % 4 == 0
  {
    if align == 1 {
      FloorOne(addr + 8);
    } else if align == 2 {
      FloorTwo(addr + 9);
    } else {
      PowerMultipleOfFour(align);
      FloorFour(addr + 8 + align - 1, align);
    }
  }

  lemma FloorOne(x: nat)
    ensures FloorTo(x, 1) == x
  {
  }

  lemma FloorTwo(x: nat)
    requires x % 4 == 1
    ensures FloorTo(x, 2) % 4 == 0
  {
  }

  lemma FloorFour(x: nat, a: nat)
    requires a > 0 && a % 4 == 0
    ensures FloorTo(x, a) % 4 == 0
  {
    FloorIsMultiple(x, a);
    MultipleOfFour(x / a, a);
  }

  lemma PowerMultipleOfFour(align: nat)
    requires PowerOfTwo(align) && align > 2
    ensures align % 4 == 0
  {
    assert PowerOfTwo(align / 2) && align / 2 % 2 == 0;
  }

  /** The aligned pointer kmalloc_aligned computes, in 32 bits. */
  function AlignUp(addr: nat, align: nat): nat
    requires align > 0
  {
    FloorTo((addr + 8 + align - 1) % MOD32, align)
  }

  /** Without wrap-around the aligned pointer clears the stash and leaves room for the request. */
  lemma AlignedInside(addr: nat, request: nat, align: nat)
    requires PowerOfTwo(align) && addr % 4 == 0 && addr + request + align + 8 < MOD32
    ensures var p := AlignUp(addr, align);
            p % align == 0 && p % 4 == 0 && addr + 8 <= p && p + request < addr + request + align + 8
  {
    var x := addr + 8 + align - 1;
    assert x % MOD32 == x;
    FloorIsMultiple(x, align);
    AlignedWord(addr, align);
  }

  /**
   The exact condition for kmalloc_aligned: the block kmalloc grants for the wrapped total holds
   the aligned range if and only if request + align + 8 needs no more than 2^32 - 4.
   */
  lemma AlignedRangeExactly(addr: nat, request: nat, align: nat, blockSize: nat)
    requires PowerOfTwo(align) && align < MOD32 && request < MOD32 && addr % 4 == 0 && addr + blockSize < MOD32
    requires var n := Round4((request + align + 8) % MOD32); n <= blockSize < n + 28
    ensures var p := AlignUp(addr, align);
            addr + 8 <= p && p + request <= addr + blockSize <==> request + align + 8 <= MOD32 - 4
  {
    var total := request + align + 8;
    HalfRange(align);
    RoundUp(total % MOD32);
    if total <= MOD32 - 4 {
      assert total % MOD32 == total;
      AlignedInside(addr, request, align);
    } else if total >= MOD32 {
      assert total % MOD32 == total - MOD32;
    }
  }

  /** For instance 2^32 - 15 bytes aligned to 8: the total wraps to 1, and the block holds 4 bytes or a few more. */
  lemma AlignedRequestOverruns(addr: nat, blockSize: nat)
    requires addr % 4 == 0 && 4 <= blockSize < 4 + HEADER + MIN_REMAINDER && addr + 64 < MOD32
    ensures Round4((MOD32 - 15 + 8 + 8) % MOD32) == 4 && AlignUp(addr, 8) + (MOD32 - 15) > addr + blockSize
  {
    FloorIsMultiple(addr + 15, 8);
  }

  lemma {:induction false} PowerBelow(a: nat, k: nat)
    requires PowerOfTwo(a) && a < Pow2(k + 1)
    ensures a <= Pow2(k)
  {
    if a > 1 && k > 0 { PowerBelow(a / 2, k - 1); }
  }

  /** A power of two below 2^32 is at most 2^31. */
  lemma HalfRange(align: nat)
    requires PowerOfTwo(align) && align < MOD32
    ensures align <= MOD32 / 2
  {
    assert Pow2(8) == 0x100;
    assert Pow2(16) == 0x1_0000;
    assert Pow2(24) == 0x100_0000;
    assert Pow2(31) == 0x8000_0000;
    PowerBelow(align, 31);
  }

  lemma WordAlignedBlock(bs: seq<Block>, k: nat)
    requires WordAligned(bs) && k < |bs|
    ensures bs[k].addr % 4 == 0 && bs[k].Payload() % 4 == 0
  {
  }

  // ------------------------------------------------------------- small frames

  /** The block a successful kmalloc granted. */
  lemma GrantedBlock(s: State, total: nat) returns (k: nat)
    requires Inv(s) && total <= MOD32 - 4 && Malloc(s, total).1 != 0
    ensures var (t, p) := Malloc(s, total);
            && k < |s.blocks| && !s.blocks[k].used && s.blocks[k].Payload() == p
            && k < |t.blocks| && t.blocks[k].used && t.blocks[k].Payload() == p
            && total <= Round4(total) <= t.blocks[k].size <= s.blocks[k].size
  {
    k := MallocAddsOne(s, total);
    RoundUp(total);
  }

  function CountFree(bs: seq<Block>): nat {
    if bs == [] then 0 else CountFree(bs[..|bs| - 1]) + (if bs[|bs| - 1].used then 0 else 1)
  }

  lemma CountFreeNext(bs: seq<Block>, k: nat)
    requires k < |bs|
    ensures CountFree(bs[..k + 1]) == CountFree(bs[..k]) + (if bs[k].used then 0 else 1)
  {
    assert bs[..k + 1][..k] == bs[..k];
  }

  lemma NothingChanged(m: Memory, bs: seq<Block>)
    ensures LiveKept(m, m, bs)
  {
  }

  /** Clearing the used byte of block k keeps every other live block. */
  lemma MarkKeepsLive(m: Memory, m': Memory, bs: seq<Block>, lo: nat, hi: nat, k: nat)
    requires Tiles(bs, lo, hi) && k < |bs|
    requires SameOutside(m, m', bs[k].addr + 4, bs[k].addr + 8)
    ensures LiveKept(m, m', Release(bs, k))
  {
    RetagTiles(bs, lo, hi, k, false);
    FreeChangeKeepsLive(m, m', Release(bs, k), lo, hi, k);
  }

  lemma ReleaseStashed(m: Memory, m': Memory, bs: seq<Block>, lo: nat, hi: nat, k: nat, stashes: map<nat, nat>)
    requires Tiles(bs, lo, hi) && k < |bs| && Stashed(m, bs, stashes) && bs[k].Payload() !in stashes
    requires LiveKept(m, m', Release(bs, k))
    ensures Stashed(m', Release(bs, k), stashes)
  {
    var r := Release(bs, k);
    forall o | o in stashes
      ensures exists b :: b in r && b.used && b.Payload() == o && StashAt(m', b, stashes[o])
    {
      var b :| b in bs && b.used && b.Payload() == o && StashAt(m, b, stashes[o]);
      var i :| 0 <= i < |bs| && bs[i] == b;
      assert r[i] == b;
      assert SameIn(m, m', b);
      assert StashAt(m', b, stashes[o]);
    }
  }

  /** Writing the stash of a block that was free before the call keeps every block that was live then. */
  lemma StashKeepsOldLive(s: State, m: Memory, m1: Memory, m2: Memory, k: nat, p: nat)
    requires Inv(s) && k < |s.blocks| && LiveKept(m, m1, s.blocks) && p >= 8
    requires !s.blocks[k].used && s.blocks[k].addr <= p - 8 && p <= s.blocks[k].End()
    requires SameOutside(m1, m2, p - 8, p)
    ensures LiveKept(m, m2, s.blocks)
  {
    FreeChangeKeepsLive(m1, m2, s.blocks, s.lo, s.hi, k);
    LiveKeptTrans(m, m1, m2, s.blocks, s.blocks);
  }

  /** Writes confined to the payload of live block k, off its stash, keep every header and stash. */
  lemma PayloadWrite(m: Memory, m': Memory, bs: seq<Block>, lo: nat, hi: nat, k: nat, stashes: map<nat, nat>)
    requires Tiles(bs, lo, hi) && Laid(m, bs) && Stashed(m, bs, stashes) && k < |bs| && bs[k].used
    requires SameOutside(m, m', bs[k].Payload(), bs[k].End())
    requires bs[k].Payload() in stashes ==>
               var p := stashes[bs[k].Payload()];
               forall a :: a in m && (a == p - 8 || a == p - 4) ==> m'[a] == m[a]
    ensures Laid(m', bs) && Stashed(m', bs, stashes)
  {
    OtherHeaders(m, m', bs, lo, hi, k);
    assert HeaderOk(m, bs, k);
    assert HeaderOk(m', bs, k);
    forall o | o in stashes
      ensures exists b :: b in bs && b.used && b.Payload() == o && StashAt(m', b, stashes[o])
    {
      var b :| b in bs && b.used && b.Payload() == o && StashAt(m, b, stashes[o]);
      var i :| 0 <= i < |bs| && bs[i] == b;
      if i < k { Ordered(bs, lo, hi, i, k); } else if k < i { Ordered(bs, lo, hi, k, i); }
      assert StashAt(m', b, stashes[o]);
    }
  }

  lemma PlaceKeepsUsed(bs: seq<Block>, k: nat, n: nat)
    requires k < |bs| && Fits(bs[k], n)
    ensures forall x :: x in bs && x.used ==> x in Place(bs, k, n)
  {
    var r := Place(bs, k, n);
    forall b | b in bs && b.used ensures b in r {
      var i :| 0 <= i < |bs| && bs[i] == b;
      if i < k || !Splits(bs[k], n) { assert r[i] == b; } else { assert r[i + 1] == b; }
    }
  }

  lemma BestFitAddr(bs: seq<Block>, lo: nat, hi: nat, n: nat)
    requires Tiles(bs, lo, hi) && lo > 0
    ensures BestFit(bs, n) >= 0 ==> bs[BestFit(bs, n)].addr > 0
  {
    if BestFit(bs, n) >= 0 { Inside(bs, lo, hi, BestFit(bs, n)); }
  }
}
