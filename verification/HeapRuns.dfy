/**
 kmalloc, kfree and heap_defragment as functions on a heap value, and the facts that
 hold after every run of them: the layout invariant, exact failure, and what the
 heap_used counter really counts.
 */
module HeapRuns {
  import opened HeapBlocks

  /**
   `used` is the 32-bit heap_used counter. `slack` is a history variable: the bytes handed
   out beyond the rounded request, summed over all allocations ever made.
   */
  datatype State = State(lo: nat, hi: nat, blocks: seq<Block>, used: nat, slack: nat)

  ghost predicate Inv(s: State) {
    && 16 <= s.lo && s.lo + HEADER < s.hi < MOD32
    && Tiles(s.blocks, s.lo, s.hi)
    && NoAdjacentFree(s.blocks)
    && s.used == (HEADER + LiveBytes(s.blocks) - s.slack) % MOD32
  }

  /** heap_init: one free block over the whole area. */
  function Init(lo: nat, size: nat): (s: State)
    requires 16 <= lo && HEADER < size && lo + size < MOD32
    ensures Inv(s) && Positive(s.blocks) && Live(s.blocks) == []
  {
    var bs := [Block(lo, size - HEADER, false)];
    assert bs[1..] == [];
    State(lo, lo + size, bs, HEADER, 0)
  }

  /** (size + 3) & ~3 in 32 bits; sizes above 2^32 - 4 wrap to 0. */
  function Round4(size: nat): nat {
    (size + 3) % MOD32 / 4 * 4
  }

  lemma RoundUp(size: nat)
    requires size < MOD32
    ensures Round4(size) % 4 == 0
    ensures size <= MOD32 - 4 ==> size <= Round4(size) < size + 4
    ensures size > MOD32 - 4 ==> Round4(size) == 0
  {
  }

  function PlaceAt(s: State, k: nat, n: nat): State
    requires k < |s.blocks| && Fits(s.blocks[k], n)
  {
    s.(blocks := Place(s.blocks, k, n), used := (s.used + n + HEADER) % MOD32, slack := s.slack + Slack(s.blocks[k], n))
  }

  /** kmalloc: the new heap and the returned pointer, 0 for NULL. */
  function Malloc(s: State, size: nat): (State, nat) {
    if size == 0 then (s, 0)
    else
      var n := Round4(size);
      var k := BestFit(s.blocks, n);
      if k >= 0 then (PlaceAt(s, k, n), s.blocks[k].Payload())
      else
        var merged := s.(blocks := Coalesce(s.blocks));
        var k' := BestFit(merged.blocks, n);
        if k' >= 0 then (PlaceAt(merged, k', n), merged.blocks[k'].Payload())
        else (merged, 0)
  }

  /** The index of the block whose payload starts at ptr, or -1. */
  function Find(bs: seq<Block>, ptr: nat): (r: int)
    ensures -1 <= r < |bs|
    ensures r >= 0 ==> bs[r].Payload() == ptr
    ensures r < 0 ==> forall i :: 0 <= i < |bs| ==> bs[i].Payload() != ptr
  {
    if bs == [] then -1
    else if bs[|bs| - 1].Payload() == ptr then |bs| - 1
    else Find(bs[..|bs| - 1], ptr)
  }

  /** The condition heap_validate looks for: a free block of size 0 that has a successor. */
  predicate NeedsRepair(bs: seq<Block>) {
    exists i :: 0 <= i < |bs| - 1 && !bs[i].used && bs[i].size == 0
  }

  function Validated(bs: seq<Block>): seq<Block> {
    if NeedsRepair(bs) then Coalesce(bs) else bs
  }

  /** kfree of the payload pointer of block k. */
  function FreeAt(s: State, k: nat): State
    requires k < |s.blocks|
  {
    if s.blocks[k].used then
      s.(blocks := Validated(Coalesce(Release(s.blocks, k))), used := (s.used - (s.blocks[k].size + HEADER)) % MOD32)
    else s
  }

  /** kfree of a pointer that is NULL, outside the heap, or the payload pointer of some block. */
  function Free(s: State, ptr: nat): State {
    var k := Find(s.blocks, ptr);
    if s.lo <= ptr < s.hi && k >= 0 then FreeAt(s, k) else s
  }

  function Defragment(s: State): State {
    s.(blocks := Coalesce(s.blocks))
  }

  // ------------------------------------------------------------- single steps

  lemma PlaceAtKeeps(s: State, k: nat, n: nat)
    requires Inv(s) && k < |s.blocks| && Fits(s.blocks[k], n)
    ensures Inv(PlaceAt(s, k, n))
  {
    PlaceTiles(s.blocks, s.lo, s.hi, k, n);
    PlaceLive(s.blocks, k, n);
    ModAdd(HEADER + LiveBytes(s.blocks) - s.slack, n + HEADER);
  }

  lemma ModAdd(x: int, d: int)
    ensures (x % MOD32 + d) % MOD32 == (x + d) % MOD32
  {
  }

  /**
   kmalloc keeps the invariant, and the merge-and-retry path never matters: the list it
   starts from is already coalesced, so a failed first search fails again and changes nothing.
   */
  lemma MallocKeeps(s: State, size: nat)
    requires Inv(s)
    ensures Inv(Malloc(s, size).0)
    ensures Malloc(s, size).1 == 0 ==> Malloc(s, size).0 == s
    ensures size != 0 && BestFit(s.blocks, Round4(size)) < 0 ==> Malloc(s, size) == (s, 0)
  {
    CoalesceFixed(s.blocks);
    var k := BestFit(s.blocks, Round4(size));
    if size != 0 && k >= 0 {
      PlaceAtKeeps(s, k, Round4(size));
    }
  }

  /** kmalloc returns NULL exactly for size 0 or when no place in the heap can take the rounded request. */
  lemma MallocFailsExactly(s: State, size: nat)
    requires Inv(s)
    ensures Malloc(s, size).1 == 0 <==>
            size == 0 || !exists a :: VacantFor(s.blocks, s.lo, s.hi, a, Round4(size))
  {
    MallocKeeps(s, size);
    FitsIffVacant(s.blocks, s.lo, s.hi, Round4(size));
  }

  /**
   A successful kmalloc adds one live block that starts 12 bytes below the returned pointer,
   holds the rounded request, wastes less than 28 bytes, and leaves the other live blocks alone.
   Its block was a smallest sufficient free one, the first of those; it is split if and only if it
   has 28 bytes to spare, and the rest is then a free block behind it.
   */
  lemma MallocAddsOne(s: State, size: nat) returns (k: nat)
    requires Inv(s) && Malloc(s, size).1 != 0
    ensures var (t, p) := Malloc(s, size);
            && k < |s.blocks| && Fits(s.blocks[k], Round4(size)) && s.blocks[k].Payload() == p
            && k < |t.blocks| && t.blocks[k].size <= s.blocks[k].size && t.blocks[k].used && t.blocks[k].Payload() == p
            && Round4(size) <= t.blocks[k].size < Round4(size) + 28 && p == t.blocks[k].addr + 12
            && Live(t.blocks) == Live(s.blocks[..k]) + [t.blocks[k]] + Live(s.blocks[k + 1..])
            && Live(s.blocks) == Live(s.blocks[..k]) + Live(s.blocks[k + 1..])
            && t.slack - s.slack == t.blocks[k].size - Round4(size)
            && t.used == (s.used + Round4(size) + 12) % MOD32
            && if s.blocks[k].size < Round4(size) + 28 then
                 |t.blocks| == |s.blocks| && t.blocks[k].size == s.blocks[k].size
               else
                 && |t.blocks| == |s.blocks| + 1 && t.blocks[k].size == Round4(size) && !t.blocks[k + 1].used
                 && t.blocks[k + 1].End() == s.blocks[k].End()
    ensures forall i :: 0 <= i < |s.blocks| && Fits(s.blocks[i], Round4(size)) ==>
              s.blocks[k].size <= s.blocks[i].size && (i < k ==> s.blocks[k].size < s.blocks[i].size)
  {
    var n := Round4(size);
    MallocKeeps(s, size);
    BestFitIsBest(s.blocks, n, |s.blocks|);
    k := BestFit(s.blocks, n);
    PlaceKeeps(s.blocks, s.lo, s.hi, k, n);
  }

  /** No block of size 0 appears, unless a request above 2^32 - 4 wraps to 0 and splits a block. */
  lemma MallocPositive(s: State, size: nat)
    requires Inv(s) && Positive(s.blocks) && 0 < size < MOD32
    ensures Positive(Malloc(s, size).0.blocks) <==>
            size <= MOD32 - 4 || (forall k | k == BestFit(s.blocks, 0) :: k < 0 || !Splits(s.blocks[k], 0))
  {
    RoundUp(size);
    MallocKeeps(s, size);
    var k := BestFit(s.blocks, Round4(size));
    if k >= 0 {
      PlaceKeeps(s.blocks, s.lo, s.hi, k, Round4(size));
    }
  }

  lemma ValidatedFixed(bs: seq<Block>)
    requires NoAdjacentFree(bs)
    ensures Validated(bs) == bs
    ensures Positive(bs) ==> !NeedsRepair(bs)
  {
    CoalesceFixed(bs);
  }

  /** kfree removes exactly its block from the live ones; heap_validate finds nothing left to do. */
  lemma FreeKeeps(s: State, k: nat)
    requires Inv(s) && k < |s.blocks| && s.blocks[k].used
    ensures var t := FreeAt(s, k);
            && Inv(t) && t.slack == s.slack
            && t.blocks == Coalesce(Release(s.blocks, k))
            && Live(s.blocks) == Live(s.blocks[..k]) + [s.blocks[k]] + Live(s.blocks[k + 1..])
            && Live(t.blocks) == Live(s.blocks[..k]) + Live(s.blocks[k + 1..])
            && (Positive(s.blocks) ==> Positive(t.blocks) && !NeedsRepair(t.blocks))
  {
    ReleaseKeeps(s.blocks, s.lo, s.hi, k);
    var r := Release(s.blocks, k);
    CoalesceKeeps(r, s.lo, s.hi);
    ValidatedFixed(Coalesce(r));
    ModAdd(HEADER + LiveBytes(s.blocks) - s.slack, -(s.blocks[k].size + HEADER));
  }

  /**
   kfree of a payload pointer inside the heap that belongs to a live block takes exactly that block off
   the live ones, and its bytes and header off the counter; any other pointer changes nothing.
   */
  lemma FreeExactly(s: State, ptr: nat) returns (k: int)
    requires Inv(s)
    ensures k < 0 <==>
            ptr >= s.hi || forall i :: 0 <= i < |s.blocks| && s.blocks[i].used ==> s.blocks[i].Payload() != ptr
    ensures k < 0 ==> Free(s, ptr) == s
    ensures k >= 0 ==>
              var t := Free(s, ptr);
              && k < |s.blocks| && s.blocks[k].used && s.blocks[k].Payload() == ptr && Inv(t)
              && Live(s.blocks) == Live(s.blocks[..k]) + [s.blocks[k]] + Live(s.blocks[k + 1..])
              && Live(t.blocks) == Live(s.blocks[..k]) + Live(s.blocks[k + 1..])
              && t.used == (s.used - s.blocks[k].size - 12) % MOD32
  {
    k := -1;
    var j := Find(s.blocks, ptr);
    if j >= 0 && s.blocks[j].used && ptr < s.hi {
      k := j;
      FreeIsFreeAt(s, k);
      FreeKeeps(s, k);
    }
    forall i | 0 <= i < |s.blocks| && s.blocks[i].used && s.blocks[i].Payload() == ptr ensures i == j {
      FindUnique(s, i);
    }
  }

  lemma FreeAtInv(s: State, k: nat)
    requires Inv(s) && k < |s.blocks| && s.blocks[k].used
    ensures Inv(FreeAt(s, k))
  {
    FreeKeeps(s, k);
  }

  lemma FindUnique(s: State, k: nat)
    requires Inv(s) && k < |s.blocks|
    ensures Find(s.blocks, s.blocks[k].Payload()) == k
  {
    var j := Find(s.blocks, s.blocks[k].Payload());
    if j < k {
      Ordered(s.blocks, s.lo, s.hi, j, k);
    } else if k < j {
      Ordered(s.blocks, s.lo, s.hi, k, j);
    }
  }

  /** Freeing a payload pointer frees exactly the block it belongs to. */
  lemma FreeIsFreeAt(s: State, k: nat)
    requires Inv(s) && k < |s.blocks| && s.blocks[k].Payload() < s.hi
    ensures Free(s, s.blocks[k].Payload()) == FreeAt(s, k)
  {
    FindUnique(s, k);
    Inside(s.blocks, s.lo, s.hi, k);
  }

  lemma FreeAtUndoesPlaceAt(s: State, k: nat, n: nat)
    requires Inv(s) && k < |s.blocks| && Fits(s.blocks[k], n)
    ensures FreeAt(PlaceAt(s, k, n), k).blocks == s.blocks
  {
    var t := PlaceAt(s, k, n);
    FreeUndoesPlace(s.blocks, s.lo, s.hi, k, n);
    assert Coalesce(Release(t.blocks, k)) == s.blocks;
    ValidatedFixed(s.blocks);
  }

  /** kfree after kmalloc gives back exactly the block list before it. */
  lemma FreeUndoesMalloc(s: State, size: nat)
    requires Inv(s) && Positive(s.blocks) && Malloc(s, size).1 != 0
    ensures Free(Malloc(s, size).0, Malloc(s, size).1).blocks == s.blocks
  {
    MallocKeeps(s, size);
    var k := BestFit(s.blocks, Round4(size));
    var t := PlaceAt(s, k, Round4(size));
    Inside(s.blocks, s.lo, s.hi, k);
    assert t.blocks[k].Payload() == s.blocks[k].Payload();
    FindUnique(t, k);
    FreeAtUndoesPlaceAt(s, k, Round4(size));
  }

  /** Payloads of two live blocks never meet, and no live payload meets any header. */
  lemma PayloadsDisjoint(s: State, i: nat, j: nat)
    requires Inv(s) && i < |s.blocks| && j < |s.blocks| && i != j
    ensures s.lo <= s.blocks[i].addr && s.blocks[i].End() <= s.hi
    ensures s.blocks[i].End() <= s.blocks[j].addr || s.blocks[j].End() <= s.blocks[i].addr
  {
    Inside(s.blocks, s.lo, s.hi, i);
    if i < j { Ordered(s.blocks, s.lo, s.hi, i, j); } else { Ordered(s.blocks, s.lo, s.hi, j, i); }
  }

  /**
   The overflow guard of merge_free_blocks never fires: the joined size fits in 32 bits,
   is larger than the first block's and stays below the heap size.
   */
  lemma MergeGuardNeverFires(bs: seq<Block>, lo: nat, hi: nat, k: nat)
    requires Tiles(bs, lo, hi) && hi < MOD32 && k + 1 < |bs|
    ensures var joined := bs[k].size + HEADER + bs[k + 1].size;
            bs[k].size < joined < hi - lo && joined % MOD32 == joined
  {
    Inside(bs, lo, hi, k);
    Inside(bs, lo, hi, k + 1);
    assert Meets(bs, k);
  }

  // -------------------------------------------------------------- whole runs

  datatype Op = OpMalloc(size: nat) | OpFree(ptr: nat) | OpDefragment

  function Step(s: State, op: Op): State {
    match op
    case OpMalloc(size) => Malloc(s, size).0
    case OpFree(ptr) => Free(s, ptr)
    case OpDefragment => Defragment(s)
  }

  function Run(s: State, ops: seq<Op>): State
    decreases |ops|
  {
    if ops == [] then s else Run(Step(s, ops[0]), ops[1..])
  }

  predicate SizesInRange(ops: seq<Op>) {
    forall i :: 0 <= i < |ops| && ops[i].OpMalloc? ==> ops[i].size <= MOD32 - 4
  }

  lemma StepKeeps(s: State, op: Op)
    requires Inv(s)
    ensures Inv(Step(s, op)) && Step(s, op).lo == s.lo && Step(s, op).hi == s.hi
    ensures Positive(s.blocks) && (op.OpMalloc? ==> op.size <= MOD32 - 4) ==> Positive(Step(s, op).blocks)
    ensures s.slack <= Step(s, op).slack <= s.slack + 27
    ensures !op.OpMalloc? ==> Step(s, op).slack == s.slack
  {
    match op
    case OpMalloc(size) =>
      MallocKeeps(s, size);
      if Positive(s.blocks) && 0 < size <= MOD32 - 4 { MallocPositive(s, size); }
    case OpFree(ptr) =>
      var k := Find(s.blocks, ptr);
      if k >= 0 && s.blocks[k].used { FreeKeeps(s, k); }
    case OpDefragment =>
      CoalesceFixed(s.blocks);
  }

  ghost function CountMallocs(ops: seq<Op>): nat {
    if ops == [] then 0 else (if ops[0].OpMalloc? then 1 else 0) + CountMallocs(ops[1..])
  }

  /**
   After every run of allocations, frees and defragmentations the blocks tile the heap with
   maximal gaps, no block is empty when every size was at most 2^32 - 4, and heap_used is
   the live bytes plus one header minus the accumulated slack, modulo 2^32.
   */
  lemma {:induction false} RunKeeps(s: State, ops: seq<Op>)
    requires Inv(s)
    ensures var t := Run(s, ops);
            && Inv(t) && t.lo == s.lo && t.hi == s.hi
            && (Positive(s.blocks) && SizesInRange(ops) ==> Positive(t.blocks) && !NeedsRepair(t.blocks))
            && s.slack <= t.slack <= s.slack + 27 * CountMallocs(ops)
    decreases |ops|
  {
    if ops == [] {
    } else {
      StepKeeps(s, ops[0]);
      assert SizesInRange(ops) ==> SizesInRange(ops[1..]);
      RunKeeps(Step(s, ops[0]), ops[1..]);
    }
  }

  /** heap_used reports the true usage exactly when the accumulated slack vanishes modulo 2^32. */
  lemma UsedIsExact(s: State)
    requires Inv(s)
    ensures s.used == HEADER + LiveBytes(s.blocks) <==> s.slack % MOD32 == 0
  {
    LiveBytesBound(s.blocks, s.lo, s.hi);
    var truth := HEADER + LiveBytes(s.blocks);
    if s.slack % MOD32 == 0 {
      assert truth - s.slack == truth + (-(s.slack / MOD32)) * MOD32;
      ModShift(truth, -(s.slack / MOD32));
    } else if s.used == truth {
      var q := (truth - s.slack) / MOD32;
      assert truth - s.slack == q * MOD32 + truth;
      assert s.slack == (-q) * MOD32;
      ModShift(0, -q);
    }
  }

  lemma ModShift(x: int, q: int)
    requires 0 <= x < MOD32
    ensures (x + q * MOD32) % MOD32 == x
  {
  }

  lemma {:induction false} LiveBytesBound(bs: seq<Block>, lo: nat, hi: nat)
    requires Tiles(bs, lo, hi)
    ensures lo + LiveBytes(bs) <= hi
    decreases |bs|
  {
    if bs != [] {
      TailTiles(bs, lo, hi);
      LiveBytesBound(bs[1..], bs[0].End(), hi);
    }
  }

  /** One unsplit allocation and its release leave heap_used below zero, wrapped around to 2^32 - 4. */
  lemma UsedCounterWraps()
    ensures var s := Init(4096, 32);
            Run(s, [OpMalloc(4), OpFree(4096 + HEADER)]).used == MOD32 - 4
  {
    var s := Init(4096, 32);
    var ops := [OpMalloc(4), OpFree(4096 + HEADER)];
    assert BestFitUpTo(s.blocks, 4, 1) == 0 by { assert BestFitUpTo(s.blocks, 4, 0) == -1; }
    var t := Step(s, ops[0]);
    assert t.blocks == [Block(4096, 20, true)] && t.used == 28;
    assert Find(t.blocks, 4096 + HEADER) == 0;
    assert Step(t, ops[1]).used == (28 - 32) % MOD32;
    assert ops[1..][1..] == [];
    assert Run(s, ops) == Run(t, ops[1..]) == Run(Step(t, ops[1]), []);
  }

  /** A granted request gets as many bytes as it asked for if and only if it asked for at most 2^32 - 4. */
  lemma GrantSufficesExactly(s: State, size: nat) returns (k: nat)
    requires Inv(s) && 0 < size < MOD32 && Malloc(s, size).1 != 0
    ensures var (t, p) := Malloc(s, size);
            && k < |t.blocks| && t.blocks[k].used && t.blocks[k].Payload() == p
            && (size <= t.blocks[k].size <==> size <= MOD32 - 4)
  {
    k := MallocAddsOne(s, size);
    RoundUp(size);
  }

  /** A size above 2^32 - 4 rounds to 0: whenever any block is free it is granted, with fewer than 28 bytes. */
  lemma HugeRequestGranted(s: State, size: nat, i: nat) returns (k: nat)
    requires Inv(s) && MOD32 - 4 < size < MOD32 && i < |s.blocks| && !s.blocks[i].used
    ensures var (t, p) := Malloc(s, size);
            && p != 0 && k < |t.blocks| && t.blocks[k].used && t.blocks[k].Payload() == p
            && t.blocks[k].size < 28
  {
    RoundUp(size);
    BestFitIsBest(s.blocks, 0, |s.blocks|);
    assert Fits(s.blocks[i], 0);
    k := MallocAddsOne(s, size);
  }
}
