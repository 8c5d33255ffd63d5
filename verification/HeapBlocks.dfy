/**
 The block list of the kernel heap as a value: what best-fit placement, splitting,
 freeing and coalescing do to the sequence of blocks, and what every run of them keeps.
 Addresses and sizes are in bytes.
 */
module HeapBlocks {

  /** sizeof(struct heap_block) with 32-bit pointers: size, used byte and padding, next. */
  const HEADER: nat := 12

  /** A block is split only when the remainder holds a header and this many bytes. */
  const MIN_REMAINDER: nat := 16

  /** uint32_t arithmetic wraps at this modulus. */
  const MOD32: nat := 0x1_0000_0000

  datatype Block = Block(addr: nat, size: nat, used: bool) {
    function Payload(): nat { addr + HEADER }

    function End(): nat { addr + HEADER + size }
  }

  /** Block i ends where its successor begins. */
  ghost predicate Meets(bs: seq<Block>, i: nat)
    requires i + 1 < |bs|
  {
    bs[i].End() == bs[i + 1].addr
  }

  /** Block i and its successor are not both free. */
  ghost predicate Separated(bs: seq<Block>, i: nat)
    requires i + 1 < |bs|
  {
    bs[i].used || bs[i + 1].used
  }

  /** The blocks cover [lo, hi) from end to end, in address order, without holes. */
  ghost predicate Tiles(bs: seq<Block>, lo: nat, hi: nat) {
    && (bs == [] ==> lo == hi)
    && (bs != [] ==> bs[0].addr == lo && bs[|bs| - 1].End() == hi)
    && forall i {:trigger Meets(bs, i)} :: 0 <= i < |bs| - 1 ==> Meets(bs, i)
  }

  /** No two neighbouring blocks are both free: every free block is a maximal gap. */
  ghost predicate NoAdjacentFree(bs: seq<Block>) {
    forall i {:trigger Separated(bs, i)} :: 0 <= i < |bs| - 1 ==> Separated(bs, i)
  }

  ghost predicate Positive(bs: seq<Block>) {
    forall i :: 0 <= i < |bs| ==> bs[i].size > 0
  }

  /** Every address and size is a multiple of the word size. */
  ghost predicate WordAligned(bs: seq<Block>) {
    forall i :: 0 <= i < |bs| ==> bs[i].addr % 4 == 0 && bs[i].size % 4 == 0
  }

  /** The allocated blocks, in address order. */
  ghost function Live(bs: seq<Block>): seq<Block> {
    if bs == [] then []
    else if bs[0].used then [bs[0]] + Live(bs[1..])
    else Live(bs[1..])
  }

  /** Bytes taken by allocated blocks, headers included. */
  ghost function LiveBytes(bs: seq<Block>): nat {
    if bs == [] then 0
    else (if bs[0].used then HEADER + bs[0].size else 0) + LiveBytes(bs[1..])
  }

  // ---------------------------------------------------------------- geometry

  lemma {:induction false} Ordered(bs: seq<Block>, lo: nat, hi: nat, i: nat, j: nat)
    requires Tiles(bs, lo, hi) && i < j < |bs|
    ensures bs[i].End() <= bs[j].addr
    decreases j - i
  {
    var k := j - 1;
    assert Meets(bs, k);
    if i < k {
      Ordered(bs, lo, hi, i, k);
    }
  }

  lemma Inside(bs: seq<Block>, lo: nat, hi: nat, i: nat)
    requires Tiles(bs, lo, hi) && i < |bs|
    ensures lo <= bs[i].addr && bs[i].End() <= hi
  {
    if i > 0 { Ordered(bs, lo, hi, 0, i); }
    if i < |bs| - 1 { Ordered(bs, lo, hi, i, |bs| - 1); }
  }

  /** Every address of the heap lies in exactly one block. */
  lemma {:induction false} Covered(bs: seq<Block>, lo: nat, hi: nat, a: nat) returns (i: nat)
    requires Tiles(bs, lo, hi) && lo <= a < hi
    ensures i < |bs| && bs[i].addr <= a < bs[i].End()
  {
    i := 0;
    while bs[i].End() <= a
      invariant i < |bs| && bs[i].addr <= a
      decreases |bs| - i
    {
      assert i + 1 < |bs| ==> Meets(bs, i);
      i := i + 1;
    }
  }

  lemma {:induction false} LiveAppend(a: seq<Block>, b: seq<Block>)
    ensures Live(a + b) == Live(a) + Live(b)
    ensures LiveBytes(a + b) == LiveBytes(a) + LiveBytes(b)
  {
    if a == [] {
      assert a + b == b;
    } else {
      assert (a + b)[1..] == a[1..] + b;
      LiveAppend(a[1..], b);
    }
  }

  lemma {:induction false} LiveAt(bs: seq<Block>, i: nat)
    requires i < |bs|
    ensures Live(bs) == Live(bs[..i]) + Live([bs[i]]) + Live(bs[i + 1..])
    ensures LiveBytes(bs) == LiveBytes(bs[..i]) + LiveBytes([bs[i]]) + LiveBytes(bs[i + 1..])
  {
    assert bs == bs[..i] + ([bs[i]] + bs[i + 1..]);
    LiveAppend(bs[..i], [bs[i]] + bs[i + 1..]);
    LiveAppend([bs[i]], bs[i + 1..]);
  }

  lemma LiveOne(b: Block)
    ensures Live([b]) == (if b.used then [b] else [])
    ensures LiveBytes([b]) == (if b.used then HEADER + b.size else 0)
  {
    assert [b][1..] == [];
  }

  lemma {:induction false} LiveMember(bs: seq<Block>, i: nat)
    requires i < |bs| && bs[i].used
    ensures bs[i] in Live(bs)
  {
    LiveAt(bs, i);
    assert Live([bs[i]]) == [bs[i]];
  }

  lemma {:induction false} LiveOrigin(bs: seq<Block>, b: Block) returns (i: nat)
    requires b in Live(bs)
    ensures i < |bs| && bs[i] == b && b.used
  {
    if bs[0].used && bs[0] == b {
      i := 0;
    } else {
      var k := LiveOrigin(bs[1..], b);
      i := k + 1;
    }
  }

  /** With maximal gaps, the whole layout is determined by which blocks are live. */
  lemma {:induction false} LayoutDetermined(a: seq<Block>, b: seq<Block>, lo: nat, hi: nat)
    requires Tiles(a, lo, hi) && Tiles(b, lo, hi)
    requires NoAdjacentFree(a) && NoAdjacentFree(b)
    requires Live(a) == Live(b)
    ensures a == b
    decreases |a|
  {
    if a == [] {
      if b != [] { Inside(b, lo, hi, 0); }
    } else if b == [] {
      Inside(a, lo, hi, 0);
    } else {
      FirstLive(a, lo, hi);
      FirstLive(b, lo, hi);
      assert a[0] == b[0];
      LiveHead(a);
      LiveHead(b);
      TailTiles(a, lo, hi);
      TailTiles(b, lo, hi);
      LayoutDetermined(a[1..], b[1..], a[0].End(), hi);
      assert a == [a[0]] + a[1..] && b == [b[0]] + b[1..];
    }
  }

  lemma LiveHead(bs: seq<Block>)
    requires bs != []
    ensures Live(bs[1..]) == if bs[0].used then Live(bs)[1..] else Live(bs)
  {
  }

  lemma TailTiles(bs: seq<Block>, lo: nat, hi: nat)
    requires bs != [] && Tiles(bs, lo, hi)
    ensures Tiles(bs[1..], bs[0].End(), hi)
    ensures NoAdjacentFree(bs) ==> NoAdjacentFree(bs[1..])
  {
    var t := bs[1..];
    forall i | 0 <= i < |t| - 1
      ensures Meets(t, i) && (NoAdjacentFree(bs) ==> Separated(t, i))
    {
      assert Meets(bs, i + 1) && (NoAdjacentFree(bs) ==> Separated(bs, i + 1));
    }
    if t != [] { assert Meets(bs, 0); }
  }

  /** A leading free block ends where the first live block begins, or at the end of the heap. */
  lemma FirstLive(bs: seq<Block>, lo: nat, hi: nat)
    requires bs != [] && Tiles(bs, lo, hi) && NoAdjacentFree(bs)
    ensures bs[0].used ==> Live(bs) != [] && Live(bs)[0] == bs[0]
    ensures !bs[0].used ==> bs[0].End() == (if Live(bs) == [] then hi else Live(bs)[0].addr)
  {
    if !bs[0].used && |bs| > 1 {
      assert Meets(bs, 0) && Separated(bs, 0);
      assert Live(bs) == Live(bs[1..]);
      assert bs[1..][0] == bs[1];
    } else if !bs[0].used {
      assert bs[1..] == [];
    }
  }

  // --------------------------------------------------------------- coalescing

  function Joined(a: Block, b: Block): Block {
    Block(a.addr, a.size + HEADER + b.size, false)
  }

  function JoinAt(bs: seq<Block>, k: nat): seq<Block>
    requires k + 1 < |bs|
  {
    bs[..k] + [Joined(bs[k], bs[k + 1])] + bs[k + 2..]
  }

  /** merge_free_blocks: one left-to-right pass that absorbs each free successor of a free block. */
  function Coalesce(bs: seq<Block>): seq<Block>
    decreases |bs|
  {
    if |bs| <= 1 then bs
    else if !bs[0].used && !bs[1].used then Coalesce([Joined(bs[0], bs[1])] + bs[2..])
    else [bs[0]] + Coalesce(bs[1..])
  }

  lemma JoinTiles(bs: seq<Block>, lo: nat, hi: nat, k: nat)
    requires Tiles(bs, lo, hi) && k + 1 < |bs| && !bs[k].used && !bs[k + 1].used
    ensures Tiles(JoinAt(bs, k), lo, hi)
    ensures Live(JoinAt(bs, k)) == Live(bs)
    ensures LiveBytes(JoinAt(bs, k)) == LiveBytes(bs)
  {
    var r := JoinAt(bs, k);
    assert Meets(bs, k);
    forall i | 0 <= i < |r| - 1
      ensures Meets(r, i)
    {
      if i < k {
        assert Meets(bs, i);
      } else {
        assert Meets(bs, i + 1) && r[i + 1] == bs[i + 2];
      }
    }
    LiveAt(r, k);
    assert r[..k] == bs[..k] && r[k + 1..] == bs[k + 2..];
    LiveAt(bs, k);
    LiveAt(bs[k + 1..], 0);
    assert bs[k + 1..][..0] == [] && bs[k + 1..][1..] == bs[k + 2..];
  }

  /** Coalescing keeps the tiling and leaves no two free neighbours. */
  lemma {:induction false} CoalesceTiles(bs: seq<Block>, lo: nat, hi: nat)
    requires Tiles(bs, lo, hi)
    ensures Tiles(Coalesce(bs), lo, hi) && NoAdjacentFree(Coalesce(bs))
    ensures bs != [] ==> Coalesce(bs) != [] && Coalesce(bs)[0].used == bs[0].used
    decreases |bs|
  {
    if |bs| <= 1 {
    } else if !bs[0].used && !bs[1].used {
      var m := [Joined(bs[0], bs[1])] + bs[2..];
      JoinTiles(bs, lo, hi, 0);
      assert JoinAt(bs, 0) == m;
      CoalesceTiles(m, lo, hi);
    } else {
      TailTiles(bs, lo, hi);
      CoalesceTiles(bs[1..], bs[0].End(), hi);
      ConsTiles(bs[0], Coalesce(bs[1..]), hi);
    }
  }

  lemma ConsTiles(b: Block, t: seq<Block>, hi: nat)
    requires Tiles(t, b.End(), hi) && NoAdjacentFree(t) && (t != [] ==> b.used || t[0].used)
    ensures Tiles([b] + t, b.addr, hi) && NoAdjacentFree([b] + t)
  {
    var r := [b] + t;
    forall i | 0 <= i < |r| - 1
      ensures Meets(r, i) && Separated(r, i)
    {
      if i > 0 {
        assert Meets(t, i - 1) && Separated(t, i - 1);
      }
    }
  }

  /** Coalescing touches no live block. */
  lemma {:induction false} CoalesceLive(bs: seq<Block>)
    ensures Live(Coalesce(bs)) == Live(bs) && LiveBytes(Coalesce(bs)) == LiveBytes(bs)
    decreases |bs|
  {
    if |bs| <= 1 {
    } else if !bs[0].used && !bs[1].used {
      var m := [Joined(bs[0], bs[1])] + bs[2..];
      CoalesceLive(m);
      assert m[1..] == bs[1..][1..];
    } else {
      CoalesceLive(bs[1..]);
      assert Coalesce(bs)[1..] == Coalesce(bs[1..]);
    }
  }

  lemma {:induction false} CoalesceShape(bs: seq<Block>)
    ensures Positive(bs) ==> Positive(Coalesce(bs))
    ensures WordAligned(bs) ==> WordAligned(Coalesce(bs))
    decreases |bs|
  {
    if |bs| <= 1 {
    } else if !bs[0].used && !bs[1].used {
      var m := [Joined(bs[0], bs[1])] + bs[2..];
      assert forall i :: 1 <= i < |m| ==> m[i] == bs[i + 1];
      CoalesceShape(m);
    } else {
      CoalesceShape(bs[1..]);
      var c := Coalesce(bs);
      assert forall i :: 1 <= i < |c| ==> c[i] == Coalesce(bs[1..])[i - 1];
    }
  }

  lemma CoalesceKeeps(bs: seq<Block>, lo: nat, hi: nat)
    requires Tiles(bs, lo, hi)
    ensures var c := Coalesce(bs);
            && Tiles(c, lo, hi) && NoAdjacentFree(c) && Live(c) == Live(bs) && LiveBytes(c) == LiveBytes(bs)
            && (Positive(bs) ==> Positive(c)) && (WordAligned(bs) ==> WordAligned(c))
  {
    CoalesceTiles(bs, lo, hi);
    CoalesceLive(bs);
    CoalesceShape(bs);
  }

  /** A list without free neighbours is left alone. */
  lemma {:induction false} CoalesceFixed(bs: seq<Block>)
    requires NoAdjacentFree(bs)
    ensures Coalesce(bs) == bs
    decreases |bs|
  {
    if |bs| > 1 {
      assert Separated(bs, 0);
      var t := bs[1..];
      forall i | 0 <= i < |t| - 1 ensures Separated(t, i) {
        assert Separated(bs, i + 1);
      }
      CoalesceFixed(t);
      assert bs == [bs[0]] + t;
    }
  }

  // --------------------------------------------------------------- placement

  predicate Fits(b: Block, n: nat) {
    !b.used && b.size >= n
  }

  /** find_best_fit over the first k blocks: the first smallest free block of at least n bytes, or -1. */
  function BestFitUpTo(bs: seq<Block>, n: nat, k: nat): (r: int)
    requires k <= |bs|
    ensures -1 <= r < k
    ensures r >= 0 ==> Fits(bs[r], n)
  {
    if k == 0 then -1
    else
      var b := BestFitUpTo(bs, n, k - 1);
      if Fits(bs[k - 1], n) && (b < 0 || bs[k - 1].size < bs[b].size) then k - 1 else b
  }

  function BestFit(bs: seq<Block>, n: nat): int {
    BestFitUpTo(bs, n, |bs|)
  }

  /** The choice is a smallest sufficient free block, the first among equals; -1 only if none suffices. */
  lemma {:induction false} BestFitIsBest(bs: seq<Block>, n: nat, k: nat)
    requires k <= |bs|
    ensures var r := BestFitUpTo(bs, n, k);
            && (r < 0 ==> forall i :: 0 <= i < k ==> !Fits(bs[i], n))
            && (r >= 0 ==> forall i :: 0 <= i < k && Fits(bs[i], n) ==>
                                         bs[r].size <= bs[i].size && (i < r ==> bs[r].size < bs[i].size))
  {
    if k > 0 {
      BestFitIsBest(bs, n, k - 1);
    }
  }

  /** An exact fit cannot be improved on, so stopping there loses nothing. */
  lemma {:induction false} ExactFitIsFinal(bs: seq<Block>, n: nat, k: nat)
    requires k <= |bs| && BestFitUpTo(bs, n, k) >= 0 && bs[BestFitUpTo(bs, n, k)].size == n
    ensures BestFit(bs, n) == BestFitUpTo(bs, n, k)
    decreases |bs| - k
  {
    if k < |bs| {
      assert BestFitUpTo(bs, n, k + 1) == BestFitUpTo(bs, n, k);
      ExactFitIsFinal(bs, n, k + 1);
    }
  }

  predicate Splits(b: Block, n: nat) {
    b.size >= n + HEADER + MIN_REMAINDER
  }

  /** Allocate n bytes in block i, splitting off the remainder when it is large enough. */
  function Place(bs: seq<Block>, i: nat, n: nat): (r: seq<Block>)
    requires i < |bs| && Fits(bs[i], n)
    ensures |r| > i && r[i].addr == bs[i].addr && r[i].used && r[i].size >= n
  {
    var b := bs[i];
    if Splits(b, n) then
      bs[..i] + [Block(b.addr, n, true), Block(b.addr + HEADER + n, b.size - n - HEADER, false)] + bs[i + 1..]
    else
      bs[i := Block(b.addr, b.size, true)]
  }

  /** Bytes of the allocated block beyond those asked for, which heap_used does not count. */
  function Slack(b: Block, n: nat): (s: nat)
    requires b.size >= n
    ensures s < HEADER + MIN_REMAINDER
  {
    if Splits(b, n) then 0 else b.size - n
  }

  lemma PlaceTiles(bs: seq<Block>, lo: nat, hi: nat, i: nat, n: nat)
    requires Tiles(bs, lo, hi) && NoAdjacentFree(bs) && i < |bs| && Fits(bs[i], n)
    ensures Tiles(Place(bs, i, n), lo, hi) && NoAdjacentFree(Place(bs, i, n))
  {
    var r := Place(bs, i, n);
    forall x | 0 <= x < |r| - 1
      ensures Meets(r, x) && Separated(r, x)
    {
      if x < i || !Splits(bs[i], n) {
        assert Meets(bs, x) && Separated(bs, x);
      } else if x > i {
        assert Meets(bs, x - 1) && Separated(bs, x - 1) && r[x + 1] == bs[x];
      }
    }
  }

  lemma {:induction false} PlaceLive(bs: seq<Block>, i: nat, n: nat)
    requires i < |bs| && Fits(bs[i], n)
    ensures var r := Place(bs, i, n);
            && Live(r) == Live(bs[..i]) + [r[i]] + Live(bs[i + 1..])
            && Live(bs) == Live(bs[..i]) + Live(bs[i + 1..])
            && LiveBytes(r) == LiveBytes(bs) + HEADER + n + Slack(bs[i], n)
  {
    var r := Place(bs, i, n);
    LiveAt(bs, i);
    LiveOne(bs[i]);
    LiveAt(r, i);
    LiveOne(r[i]);
    assert r[..i] == bs[..i];
    PlaceRest(bs, i, n);
  }

  /** Behind the placed block nothing live is new. */
  lemma PlaceRest(bs: seq<Block>, i: nat, n: nat)
    requires i < |bs| && Fits(bs[i], n)
    ensures var rest := Place(bs, i, n)[i + 1..];
            Live(rest) == Live(bs[i + 1..]) && LiveBytes(rest) == LiveBytes(bs[i + 1..])
  {
    var r := Place(bs, i, n);
    if Splits(bs[i], n) {
      assert r[i + 1..] == [r[i + 1]] + bs[i + 1..];
      LiveAppend([r[i + 1]], bs[i + 1..]);
      LiveOne(r[i + 1]);
    } else {
      assert r[i + 1..] == bs[i + 1..];
    }
  }

  /** Placing keeps sizes positive exactly when it asks for at least one byte or does not split. */
  lemma PlaceShape(bs: seq<Block>, i: nat, n: nat)
    requires i < |bs| && Fits(bs[i], n)
    ensures Positive(bs) ==> (Positive(Place(bs, i, n)) <==> n > 0 || !Splits(bs[i], n))
    ensures WordAligned(bs) && n % 4 == 0 ==> WordAligned(Place(bs, i, n))
  {
    var r := Place(bs, i, n);
    assert Splits(bs[i], n) ==> r[i].size == n;
    forall x | 0 <= x < |r| && x != i
      ensures Positive(bs) ==> r[x].size > 0
      ensures WordAligned(bs) && n % 4 == 0 ==> r[x].addr % 4 == 0 && r[x].size % 4 == 0
    {
      if Splits(bs[i], n) && x > i + 1 { assert r[x] == bs[x - 1]; }
    }
  }

  lemma PlaceKeeps(bs: seq<Block>, lo: nat, hi: nat, i: nat, n: nat)
    requires Tiles(bs, lo, hi) && NoAdjacentFree(bs) && i < |bs| && Fits(bs[i], n)
    ensures var r := Place(bs, i, n);
            && Tiles(r, lo, hi)
            && NoAdjacentFree(r)
            && Live(r) == Live(bs[..i]) + [r[i]] + Live(bs[i + 1..])
            && Live(bs) == Live(bs[..i]) + Live(bs[i + 1..])
            && LiveBytes(r) == LiveBytes(bs) + HEADER + n + Slack(bs[i], n)
            && (Positive(bs) ==> (Positive(r) <==> n > 0 || !Splits(bs[i], n)))
            && (WordAligned(bs) && n % 4 == 0 ==> WordAligned(r))
  {
    PlaceTiles(bs, lo, hi, i, n);
    PlaceLive(bs, i, n);
    PlaceShape(bs, i, n);
  }

  /** The list with block i no longer in use, before coalescing. */
  function Release(bs: seq<Block>, i: nat): seq<Block>
    requires i < |bs|
  {
    bs[i := Block(bs[i].addr, bs[i].size, false)]
  }

  lemma RetagTiles(bs: seq<Block>, lo: nat, hi: nat, i: nat, used: bool)
    requires Tiles(bs, lo, hi) && i < |bs|
    ensures Tiles(bs[i := Block(bs[i].addr, bs[i].size, used)], lo, hi)
  {
    var r := bs[i := Block(bs[i].addr, bs[i].size, used)];
    forall x | 0 <= x < |r| - 1 ensures Meets(r, x) {
      assert Meets(bs, x);
    }
  }

  lemma {:induction false} ReleaseKeeps(bs: seq<Block>, lo: nat, hi: nat, i: nat)
    requires Tiles(bs, lo, hi) && i < |bs| && bs[i].used
    ensures var r := Release(bs, i);
            && Tiles(r, lo, hi)
            && Live(r) == Live(bs[..i]) + Live(bs[i + 1..])
            && Live(bs) == Live(bs[..i]) + [bs[i]] + Live(bs[i + 1..])
            && LiveBytes(bs) == LiveBytes(r) + HEADER + bs[i].size
            && (Positive(bs) ==> Positive(r))
            && (WordAligned(bs) ==> WordAligned(r))
  {
    var r := Release(bs, i);
    RetagTiles(bs, lo, hi, i, false);
    LiveAt(bs, i);
    LiveAt(r, i);
    LiveOne(bs[i]);
    LiveOne(r[i]);
    assert r[..i] == bs[..i] && r[i + 1..] == bs[i + 1..];
  }

  /** Freeing the block an allocation took gives back exactly the list before it. */
  lemma FreeUndoesPlace(bs: seq<Block>, lo: nat, hi: nat, i: nat, n: nat)
    requires Tiles(bs, lo, hi) && NoAdjacentFree(bs) && i < |bs| && Fits(bs[i], n)
    ensures Coalesce(Release(Place(bs, i, n), i)) == bs
  {
    var r := Place(bs, i, n);
    PlaceKeeps(bs, lo, hi, i, n);
    ReleaseKeeps(r, lo, hi, i);
    LiveAt(r, i);
    assert r[..i] == bs[..i];
    var tail := r[i + 1..];
    assert Live(tail) == Live(bs[i + 1..]) by {
      if Splits(bs[i], n) { assert tail[1..] == bs[i + 1..] && !tail[0].used; }
    }
    var c := Coalesce(Release(r, i));
    CoalesceKeeps(Release(r, i), lo, hi);
    LayoutDetermined(c, bs, lo, hi);
  }

  // ------------------------------------------------------------ completeness

  /** A header and n bytes at address a lie in the heap and meet no live block, header or payload. */
  ghost predicate VacantFor(bs: seq<Block>, lo: nat, hi: nat, a: nat, n: nat) {
    && lo <= a && a + HEADER + n <= hi
    && forall i :: 0 <= i < |bs| && bs[i].used ==> a + HEADER + n <= bs[i].addr || bs[i].End() <= a
  }

  /** Best fit fails exactly when nowhere in the heap is there room for a header and n bytes. */
  lemma {:induction false} FitsIffVacant(bs: seq<Block>, lo: nat, hi: nat, n: nat)
    requires Tiles(bs, lo, hi) && NoAdjacentFree(bs)
    ensures BestFit(bs, n) >= 0 <==> exists a :: VacantFor(bs, lo, hi, a, n)
  {
    BestFitIsBest(bs, n, |bs|);
    var k := BestFit(bs, n);
    if k >= 0 {
      Inside(bs, lo, hi, k);
      forall i | 0 <= i < |bs| && bs[i].used
        ensures bs[k].addr + HEADER + n <= bs[i].addr || bs[i].End() <= bs[k].addr
      {
        if i < k { Ordered(bs, lo, hi, i, k); } else { Ordered(bs, lo, hi, k, i); }
      }
      assert VacantFor(bs, lo, hi, bs[k].addr, n);
    }
    if a :| VacantFor(bs, lo, hi, a, n) {
      var i := Covered(bs, lo, hi, a);
      assert !bs[i].used;
      if i + 1 < |bs| {
        assert Meets(bs, i) && Separated(bs, i);
      }
      assert Fits(bs[i], n);
    }
  }
}
