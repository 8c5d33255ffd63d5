/**
 Runs of calls on the heap in memory: any mix of kmalloc, kmalloc_aligned, kfree, heap_defragment and
 stores by the owners of blocks. A live block stays where it is, and each of its words holds what was
 last stored there, until the block is freed.
 */
module HeapCalls {
  import opened Words
  import opened HeapBlocks
  import opened HeapRuns
  import opened KernelHeap

  datatype Call =
    | CallMalloc(size: nat)
    | CallAligned(size: nat, align: nat)
    | CallFree(ptr: nat)
    | CallDefragment
    | CallStore(addr: nat, value: Word)

  /** The heap at one moment: its list, its memory, and the aligned pointers handed out. */
  datatype Snapshot = Snapshot(state: State, mem: Memory, stashes: map<nat, nat>)

  ghost function Now(h: Heap): Snapshot
    reads h
  {
    Snapshot(h.Value(), h.mem, h.stashes)
  }

  /** Address a belongs to the payload of live block b and not to its stash. */
  ghost predicate OwnWord(s: Snapshot, b: Block, a: nat) {
    && b.used && b.Payload() <= a < b.End() && a % 4 == 0
    && (b.Payload() in s.stashes ==> a + 8 != s.stashes[b.Payload()] && a + 4 != s.stashes[b.Payload()])
  }

  /** What a caller may do: 32-bit sizes, pointers it was given, stores into its own blocks. */
  ghost predicate Allowed(s: Snapshot, c: Call) {
    match c
    case CallMalloc(size) => size < MOD32
    case CallAligned(size, align) =>
        size < MOD32 && align < MOD32 && (PowerOfTwo(align) ==> size + align + 8 <= MOD32 - 4)
    case CallFree(ptr) =>
        ptr < MOD32 && (s.state.lo <= ptr < s.state.hi ==> Find(s.state.blocks, ptr) >= 0 || ptr in s.stashes.Values)
    case CallDefragment => true
    case CallStore(addr, value) => exists b :: b in s.state.blocks && OwnWord(s, b, addr)
  }

  /** The call frees block b, through its pointer or through its aligned pointer. */
  ghost predicate Frees(s: Snapshot, c: Call, b: Block) {
    c.CallFree? && (c.ptr == b.Payload() || (b.Payload() in s.stashes && s.stashes[b.Payload()] == c.ptr))
  }

  /** Block b is there before and after, with the same words but for a store of this call. */
  ghost predicate Keeps(s: Snapshot, c: Call, t: Snapshot, b: Block) {
    && b in t.state.blocks
    && forall a :: b.addr <= a < b.End() && a in s.mem && a in t.mem ==>
         t.mem[a] == if c.CallStore? && c.addr == a then c.value else s.mem[a]
  }

  /** The payload pointer that a freed pointer stands for: itself, or the one its stash was made for. */
  ghost predicate StandsFor(s: Snapshot, ptr: nat, p: nat) {
    if ptr in s.stashes.Values && Find(s.state.blocks, ptr) < 0 then p in s.stashes && s.stashes[p] == ptr else p == ptr
  }

  /** p is the payload pointer of a live block. */
  ghost predicate LivePointer(s: State, p: nat) {
    s.lo <= p < s.hi && Find(s.blocks, p) >= 0 && s.blocks[Find(s.blocks, p)].used
  }

  /** The step on the block list. */
  ghost predicate Steps(s: Snapshot, c: Call, t: State) {
    match c
    case CallMalloc(size) => t == Malloc(s.state, size).0
    case CallAligned(size, align) =>
        t == if PowerOfTwo(align) then Malloc(s.state, size + align + 8).0 else s.state
    case CallFree(ptr) => exists p :: StandsFor(s, ptr, p) && t == Free(s.state, p)
    case CallDefragment => t == s.state
    case CallStore(_, _) => t == s.state
  }

  /** Aligned pointers: a granted aligned request adds one, a free takes away its block's, nothing else does. */
  ghost predicate Stashes(s: Snapshot, c: Call, t: Snapshot) {
    match c
    case CallAligned(size, align) =>
      var orig := if PowerOfTwo(align) then Malloc(s.state, size + align + 8).1 else 0;
      if orig == 0 then t.stashes == s.stashes
      else exists p :: p % align == 0 && orig + 8 <= p < orig + 8 + align && t.stashes == s.stashes[orig := p]
    case CallFree(ptr) =>
      exists p :: StandsFor(s, ptr, p)
        && t.stashes == if LivePointer(s.state, p) then Without(s.stashes, p) else s.stashes
    case _ => t.stashes == s.stashes
  }

  /** What one call does. */
  ghost predicate Moves(s: Snapshot, c: Call, t: Snapshot) {
    && t.mem.Keys == s.mem.Keys && Steps(s, c, t.state) && Stashes(s, c, t)
    && forall b {:trigger Keeps(s, c, t, b)} :: b in s.state.blocks && b.used && !Frees(s, c, b) ==> Keeps(s, c, t, b)
  }

  // -------------------------------------------------------------------- one call

  lemma MallocKeepsUsed(s: State, size: nat)
    requires Inv(s)
    ensures forall b :: b in s.blocks && b.used ==> b in Malloc(s, size).0.blocks
  {
    var n := Round4(size);
    CoalesceFixed(s.blocks);
    if size != 0 && BestFit(s.blocks, n) >= 0 {
      PlaceKeepsUsed(s.blocks, BestFit(s.blocks, n), n);
    }
  }

  /** Live blocks that stayed in the list and kept their words. */
  lemma KeptBlocks(s: Snapshot, c: Call, t: Snapshot)
    requires LiveKept(s.mem, t.mem, s.state.blocks) && !c.CallStore?
    requires forall b :: b in s.state.blocks && b.used ==> b in t.state.blocks
    ensures forall b {:trigger Keeps(s, c, t, b)} :: b in s.state.blocks && b.used ==> Keeps(s, c, t, b)
  {
    forall b | b in s.state.blocks && b.used ensures Keeps(s, c, t, b) {
      assert SameIn(s.mem, t.mem, b);
    }
  }

  /** Every live block but k survives a free of block k. */
  lemma FreeKeepsUsed(s: State, k: nat, b: Block)
    requires Inv(s) && k < |s.blocks| && b in s.blocks && b.used && b != s.blocks[k]
    ensures b in Release(s.blocks, k) && b in FreeAt(s, k).blocks
  {
    var i :| 0 <= i < |s.blocks| && s.blocks[i] == b;
    assert Release(s.blocks, k)[i] == b;
    if s.blocks[k].used {
      FreeKeeps(s, k);
      ReleaseKeeps(s.blocks, s.lo, s.hi, k);
      CoalesceKeeps(Release(s.blocks, k), s.lo, s.hi);
      SameLive(Release(s.blocks, k), FreeAt(s, k).blocks);
    }
  }

  lemma FreedBlocks(s: Snapshot, c: Call, t: Snapshot, k: nat)
    requires Inv(s.state) && c.CallFree? && k < |s.state.blocks| && t.state == FreeAt(s.state, k)
    requires LiveKept(s.mem, t.mem, Release(s.state.blocks, k))
    requires (s.state.blocks[k].used ==> Frees(s, c, s.state.blocks[k]))
    ensures forall b {:trigger Keeps(s, c, t, b)} :: b in s.state.blocks && b.used && !Frees(s, c, b) ==>
        Keeps(s, c, t, b)
  {
    forall b | b in s.state.blocks && b.used && !Frees(s, c, b) ensures Keeps(s, c, t, b) {
      FreeKeepsUsed(s.state, k, b);
      assert SameIn(s.mem, t.mem, b);
    }
  }

  /** Any allowed call: the heap stays valid and moves as described. */
  method Perform(h: Heap, c: Call)
    requires h.Valid() && Allowed(Now(h), c)
    modifies h
    ensures h.Valid() && Moves(old(Now(h)), c, Now(h))
  {
    ghost var s := Now(h);
    match c {
      case CallMalloc(size) =>
        var _ := h.Kmalloc(size);
        MallocKeepsUsed(s.state, size);
        KeptBlocks(s, c, Now(h));
      case CallAligned(size, align) =>
        PerformAligned(h, size, align);
      case CallFree(ptr) =>
        PerformFree(h, ptr);
      case CallDefragment =>
        h.Defrag();
        KeptBlocks(s, c, Now(h));
      case CallStore(addr, value) =>
        PerformStore(h, addr, value);
    }
  }

  method PerformAligned(h: Heap, size: nat, align: nat)
    requires h.Valid() && Allowed(Now(h), CallAligned(size, align))
    modifies h
    ensures h.Valid() && Moves(old(Now(h)), CallAligned(size, align), Now(h))
  {
    ghost var s := Now(h);
    var p := h.KmallocAligned(size, align);
    AlignedMoves(s, size, align, Now(h), p);
  }

  /** What kmalloc_aligned does is what the call may do. */
  lemma AlignedMoves(s: Snapshot, size: nat, align: nat, t: Snapshot, p: nat)
    requires Inv(s.state) && t.mem.Keys == s.mem.Keys && LiveKept(s.mem, t.mem, s.state.blocks)
    requires !PowerOfTwo(align) ==> p == 0 && t.state == s.state
    requires PowerOfTwo(align) ==>
        && t.state == Malloc(s.state, size + align + 8).0 && (p == 0 <==> Malloc(s.state, size + align + 8).1 == 0)
    requires p == 0 ==> t.stashes == s.stashes
    requires p != 0 ==>
        var orig := Malloc(s.state, size + align + 8).1;
        p % align == 0 && orig + 8 <= p < orig + 8 + align && t.stashes == s.stashes[orig := p]
    ensures Moves(s, CallAligned(size, align), t)
  {
    if PowerOfTwo(align) { MallocKeepsUsed(s.state, size + align + 8); }
    KeptBlocks(s, CallAligned(size, align), t);
  }

  method PerformFree(h: Heap, ptr: nat)
    requires h.Valid() && Allowed(Now(h), CallFree(ptr))
    modifies h
    ensures h.Valid() && Moves(old(Now(h)), CallFree(ptr), Now(h))
  {
    ghost var s := Now(h);
    ghost var target := h.Target(ptr);
    h.TargetFrees(ptr);
    assert StandsFor(s, ptr, target);
    ghost var k := h.Kfree(ptr);
    if k < 0 { NothingChanged(s.mem, s.state.blocks); }
    FreeMoves(s, ptr, target, Now(h), k);
  }

  /** What kfree does to block k, or to nothing, is what the call may do. */
  lemma FreeMoves(s: Snapshot, ptr: nat, p: nat, t: Snapshot, k: int)
    requires Inv(s.state) && StandsFor(s, ptr, p) && -1 <= k < |s.state.blocks| && t.mem.Keys == s.mem.Keys
    requires k < 0 ==>
        t.state == s.state == Free(s.state, p) && t.stashes == s.stashes && !LivePointer(s.state, p)
        && LiveKept(s.mem, t.mem, s.state.blocks)
    requires k >= 0 ==>
        && s.state.blocks[k].Payload() == p && s.state.lo <= p < s.state.hi && t.state == FreeAt(s.state, k)
        && t.stashes == (if s.state.blocks[k].used then Without(s.stashes, p) else s.stashes)
        && (p == ptr || (p in s.stashes && s.stashes[p] == ptr)) && LiveKept(s.mem, t.mem, Release(s.state.blocks, k))
    ensures Moves(s, CallFree(ptr), t)
  {
    FreeAccount(s, ptr, p, t, k);
    if k >= 0 { FreedBlocks(s, CallFree(ptr), t, k); } else { KeptBlocks(s, CallFree(ptr), t); }
  }

  /** The list and the aligned pointers after kfree. */
  lemma FreeAccount(s: Snapshot, ptr: nat, p: nat, t: Snapshot, k: int)
    requires Inv(s.state) && StandsFor(s, ptr, p) && -1 <= k < |s.state.blocks|
    requires k < 0 ==> t.state == Free(s.state, p) && t.stashes == s.stashes && !LivePointer(s.state, p)
    requires k >= 0 ==>
        && s.state.blocks[k].Payload() == p && s.state.lo <= p < s.state.hi && t.state == FreeAt(s.state, k)
        && t.stashes == if s.state.blocks[k].used then Without(s.stashes, p) else s.stashes
    ensures Steps(s, CallFree(ptr), t.state) && Stashes(s, CallFree(ptr), t)
  {
    if k >= 0 {
      FindUnique(s.state, k);
      FreeIsFreeAt(s.state, k);
    }
  }

  method PerformStore(h: Heap, addr: nat, value: Word)
    requires h.Valid() && Allowed(Now(h), CallStore(addr, value))
    modifies h
    ensures h.Valid() && Moves(old(Now(h)), CallStore(addr, value), Now(h))
  {
    ghost var s := Now(h);
    ghost var b :| b in s.state.blocks && OwnWord(s, b, addr);
    ghost var k :| 0 <= k < |s.state.blocks| && s.state.blocks[k] == b;
    h.Store(addr, value, k);
    ghost var t := Now(h);
    assert t.mem.Keys == s.mem.Keys;
    forall x | x in s.state.blocks && x.used ensures Keeps(s, CallStore(addr, value), t, x) {
    }
  }

  // -------------------------------------------------------------------- whole runs

  ghost predicate IsRun(run: seq<Snapshot>, calls: seq<Call>) {
    && |run| == |calls| + 1
    && forall k {:trigger calls[k]} :: 0 <= k < |calls| ==>
        Allowed(run[k], calls[k]) && Moves(run[k], calls[k], run[k + 1])
  }

  lemma TailRun(run: seq<Snapshot>, calls: seq<Call>)
    requires IsRun(run, calls) && calls != []
    ensures IsRun(run[1..], calls[1..]) && Moves(run[0], calls[0], run[1]) && Allowed(run[0], calls[0])
  {
    assert calls[0] == calls[0];
    forall k {:trigger calls[1..][k]} | 0 <= k < |calls[1..]|
      ensures Allowed(run[1..][k], calls[1..][k]) && Moves(run[1..][k], calls[1..][k], run[1..][k + 1])
    {
      assert calls[1..][k] == calls[k + 1];
    }
  }

  /** The rounded size does not wrap. */
  predicate SizeInRange(c: Call) {
    && (c.CallMalloc? ==> c.size <= MOD32 - 4)
    && (c.CallAligned? && PowerOfTwo(c.align) ==> c.size + c.align + 8 <= MOD32 - 4)
  }

  lemma CallKeeps(s: Snapshot, c: Call, t: State)
    requires Inv(s.state) && Steps(s, c, t)
    ensures Inv(t) && t.lo == s.state.lo && t.hi == s.state.hi
    ensures Positive(s.state.blocks) && SizeInRange(c) ==> Positive(t.blocks)
  {
    match c
    case CallMalloc(size) => MallocCallKeeps(s.state, size, t);
    case CallAligned(size, align) => if PowerOfTwo(align) { MallocCallKeeps(s.state, size + align + 8, t); }
    case CallFree(ptr) => FreeCallKeeps(s, ptr, t);
    case CallDefragment =>
    case CallStore(_, _) =>
  }

  lemma MallocCallKeeps(s: State, size: nat, t: State)
    requires Inv(s) && t == Malloc(s, size).0
    ensures Inv(t) && t.lo == s.lo && t.hi == s.hi
    ensures Positive(s.blocks) && size <= MOD32 - 4 ==> Positive(t.blocks)
  {
    StepKeeps(s, OpMalloc(size));
  }

  lemma FreeCallKeeps(s: Snapshot, ptr: nat, t: State)
    requires Inv(s.state) && Steps(s, CallFree(ptr), t)
    ensures Inv(t) && t.lo == s.state.lo && t.hi == s.state.hi && (Positive(s.state.blocks) ==> Positive(t.blocks))
  {
    var p :| StandsFor(s, ptr, p) && t == Free(s.state, p);
    StepKeeps(s.state, OpFree(p));
  }

  predicate SizesFit(calls: seq<Call>) {
    forall k :: 0 <= k < |calls| ==> SizeInRange(calls[k])
  }

  /** The block list at the end of a run of calls: the invariant, and no empty block unless a size wrapped. */
  ghost predicate Sound(s: State, t: State, fits: bool) {
    Inv(t) && t.lo == s.lo && t.hi == s.hi && (Positive(s.blocks) && fits ==> Positive(t.blocks))
  }

  /** Every snapshot of every run satisfies the invariant of the block list. */
  lemma {:induction false} RunKeepsHeap(run: seq<Snapshot>, calls: seq<Call>)
    requires IsRun(run, calls) && Inv(run[0].state)
    ensures Sound(run[0].state, run[|calls|].state, SizesFit(calls))
    decreases |calls|
  {
    if calls != [] {
      var rest := calls[1..];
      TailRun(run, calls);
      CallKeeps(run[0], calls[0], run[1].state);
      assert SizesFit(calls) ==> SizeInRange(calls[0]) && SizesFit(rest);
      RunKeepsHeap(run[1..], rest);
      assert run[1..][|rest|] == run[|calls|];
    }
  }

  /** The last value stored at a, or what was there before. */
  function LastStored(calls: seq<Call>, a: nat, before: Word): Word
    decreases |calls|
  {
    if calls == [] then before
    else LastStored(calls[1..], a, if calls[0].CallStore? && calls[0].addr == a then calls[0].value else before)
  }

  /** No call of the run frees the block. */
  ghost predicate NeverFreed(run: seq<Snapshot>, calls: seq<Call>, b: Block)
    requires |run| == |calls| + 1
  {
    forall k :: 0 <= k < |calls| ==> !Frees(run[k], calls[k], b)
  }

  /**
   Over any run of calls a live block that is not freed stays in the list, and each of its words holds
   the value last stored there, whatever is allocated, freed or merged around it.
   */
  lemma {:induction false} LiveUntilFreed(run: seq<Snapshot>, calls: seq<Call>, b: Block, a: nat)
    requires IsRun(run, calls) && b in run[0].state.blocks && b.used && NeverFreed(run, calls, b)
    requires b.addr <= a < b.End() && a in run[0].mem
    ensures var last := run[|calls|];
        b in last.state.blocks && a in last.mem && last.mem[a] == LastStored(calls, a, run[0].mem[a])
    decreases |calls|
  {
    if calls != [] {
      TailRun(run, calls);
      var s, t := run[0], run[1];
      assert !Frees(s, calls[0], b);
      assert Keeps(s, calls[0], t, b);
      assert a in t.mem by { assert a in t.mem.Keys; }
      assert NeverFreed(run[1..], calls[1..], b);
      LiveUntilFreed(run[1..], calls[1..], b, a);
    }
  }
}
