/**
 vmm_clone_address_space: a copy of the user half on fresh frames, and what its two failure paths
 give back.
 */
module CloneSpaces {
  import opened Words
  import opened FrameAllocator
  import opened PageTables
  import opened AddressSpaces

  /** Entry e of the copy stands for entry e0 of the original: same flags, a fresh frame, equal contents. */
  ghost predicate Copied(mem0: Memory, used0: set<nat>, mem: Memory, e0: nat, e: nat) {
    && (Present(e) <==> Present(e0))
    && (Present(e0) ==>
          && FlagsOf(e) == FlagsOf(e0) && FrameOf(e) !in used0
          && FrameOf(e0) < |mem0| && FrameOf(e) < |mem| && mem[FrameOf(e)] == mem0[FrameOf(e0)])
  }

  /** The first n entries of table t copy those of table ts. */
  ghost predicate CopiedBelow(mem0: Memory, used0: set<nat>, mem: Memory, ts: nat, t: nat, n: nat) {
    forall k {:trigger WordAt(mem, t, k)} {:trigger WordAt(mem0, ts, k)} :: 0 <= k < n ==>
        Copied(mem0, used0, mem, WordAt(mem0, ts, k), WordAt(mem, t, k))
  }

  ghost predicate DistinctBelow(mem: Memory, t: nat, n: nat) {
    forall k, l :: 0 <= k < l < n && Present(WordAt(mem, t, k)) && Present(WordAt(mem, t, l)) ==>
      FrameOf(WordAt(mem, t, k)) != FrameOf(WordAt(mem, t, l))
  }

  /** The frames named by the present entries below n of table t. */
  ghost function PagesBelow(mem: Memory, t: nat, n: nat): set<nat> {
    set k | 0 <= k < n && Present(WordAt(mem, t, k)) :: FrameOf(WordAt(mem, t, k))
  }

  lemma PagesBelowNext(mem: Memory, mem': Memory, t: nat, n: nat)
    requires forall k :: 0 <= k < n ==> WordAt(mem', t, k) == WordAt(mem, t, k)
    ensures PagesBelow(mem', t, n + 1) ==
            PagesBelow(mem, t, n) + (if Present(WordAt(mem', t, n)) then {FrameOf(WordAt(mem', t, n))} else {})
  {
    var a, b := PagesBelow(mem', t, n + 1), PagesBelow(mem, t, n);
    forall f | f in b ensures f in a {
      var k :| 0 <= k < n && Present(WordAt(mem, t, k)) && FrameOf(WordAt(mem, t, k)) == f;
      assert Present(WordAt(mem', t, k)) && FrameOf(WordAt(mem', t, k)) == f;
    }
    forall f | f in a ensures f in b || (Present(WordAt(mem', t, n)) && f == FrameOf(WordAt(mem', t, n))) {
      var k :| 0 <= k < n + 1 && Present(WordAt(mem', t, k)) && FrameOf(WordAt(mem', t, k)) == f;
      assert k < n ==> Present(WordAt(mem, t, k)) && FrameOf(WordAt(mem, t, k)) == f;
    }
  }

  /** The state of the inner loop: the half-written table t and its pages are pending, all else is as before. */
  ghost predicate Copying(w0: World, w: World, ts: nat, t: nat, j: nat) {
    && t !in w0.used && t < |w0.mem| && j <= 1024
    && w.spaces == w0.spaces && w.rest == w0.rest
    && PagesBelow(w.mem, t, j) !! w0.used && t !in PagesBelow(w.mem, t, j)
    && w.pending == w0.pending + {t} + PagesBelow(w.mem, t, j)
    && w.used == w0.used + {t} + PagesBelow(w.mem, t, j)
    && Unchanged(w0.mem, w.mem, w0.used)
    && CopiedBelow(w0.mem, w0.used, w.mem, ts, t, j) && DistinctBelow(w.mem, t, j)
  }

  /** A new table, nothing copied yet. */
  lemma CopyStart(w: World, ts: nat, t: nat)
    requires t !in w.used && t < |w.mem|
    ensures Copying(w, Reserve(w, t), ts, t, 0)
  {
    assert PagesBelow(w.mem, t, 0) == {};
  }

  /** An absent entry is copied as 0. */
  lemma CopyAbsent(w0: World, w: World, ts: nat, t: nat, j: nat)
    requires Copying(w0, w, ts, t, j) && j < 1024 && !Present(WordAt(w0.mem, ts, j)) && |w.mem| == |w0.mem|
    ensures Copying(w0, w.(mem := Put(w.mem, t, j, 0)), ts, t, j + 1)
  {
    var mem' := Put(w.mem, t, j, 0);
    WroteEntry(w.mem, t, j, 0);
    PagesBelowNext(w.mem, mem', t, j);
    forall k | 0 <= k < j + 1 ensures Copied(w0.mem, w0.used, mem', WordAt(w0.mem, ts, k), WordAt(mem', t, k)) {
      if k < j {
        assert Copied(w0.mem, w0.used, w.mem, WordAt(w0.mem, ts, k), WordAt(w.mem, t, k));
        if Present(WordAt(w.mem, t, k)) { PageElsewhere(w, t, j, k); }
      }
    }
    assert DistinctBelow(mem', t, j + 1);
  }

  lemma WroteEntry(mem: Memory, t: nat, j: nat, v: Word)
    requires t < |mem| && j < 1024
    ensures WordAt(Put(mem, t, j, v), t, j) == v
    ensures forall k :: 0 <= k < j ==> WordAt(Put(mem, t, j, v), t, k) == WordAt(mem, t, k)
    ensures forall f {:trigger Put(mem, t, j, v)[f]} :: 0 <= f < |mem| && f != t ==> Put(mem, t, j, v)[f] == mem[f]
  {
  }

  lemma PageElsewhere(w: World, t: nat, j: nat, k: nat)
    requires t !in PagesBelow(w.mem, t, j) && 0 <= k < j && Present(WordAt(w.mem, t, k))
    ensures FrameOf(WordAt(w.mem, t, k)) != t
  {
    assert FrameOf(WordAt(w.mem, t, k)) in PagesBelow(w.mem, t, j);
  }

  /** A present entry gets a fresh frame f with the same contents and flags. */
  lemma CopyPresent(w0: World, w: World, ts: nat, t: nat, j: nat, f: nat)
    requires Copying(w0, w, ts, t, j) && j < 1024 && Present(WordAt(w0.mem, ts, j)) && |w.mem| == |w0.mem|
    requires f !in w.used && f < |w.mem|
    requires FrameOf(WordAt(w0.mem, ts, j)) in w0.used && FrameOf(WordAt(w0.mem, ts, j)) < |w0.mem|
    ensures var e := WordAt(w0.mem, ts, j);
            Copying(w0, Reserve(w, f).(mem := Put(w.mem[f := w.mem[FrameOf(e)]], t, j, Entry(f, FlagsOf(e)))), ts, t,
                j + 1)
  {
    var e := WordAt(w0.mem, ts, j);
    var v := Entry(f, FlagsOf(e));
    WordParts(e);
    EntryParts(f, FlagsOf(e));
    var mem1 := w.mem[f := w.mem[FrameOf(e)]];
    var mem' := Put(mem1, t, j, v);
    WroteEntry(mem1, t, j, v);
    assert forall k: nat :: WordAt(mem1, t, k) == WordAt(w.mem, t, k);
    PagesBelowNext(w.mem, mem', t, j);
    assert w.mem[FrameOf(e)] == w0.mem[FrameOf(e)];
    forall k | 0 <= k < j + 1 ensures Copied(w0.mem, w0.used, mem', WordAt(w0.mem, ts, k), WordAt(mem', t, k)) {
      if k < j {
        assert Copied(w0.mem, w0.used, w.mem, WordAt(w0.mem, ts, k), WordAt(w.mem, t, k));
        if Present(WordAt(w.mem, t, k)) {
          PageElsewhere(w, t, j, k);
          assert FrameOf(WordAt(w.mem, t, k)) in PagesBelow(w.mem, t, j);
        }
      }
    }
    forall k | 0 <= k < j && Present(WordAt(mem', t, k)) ensures FrameOf(WordAt(mem', t, k)) != f {
      assert FrameOf(WordAt(w.mem, t, k)) in PagesBelow(w.mem, t, j);
    }
    assert DistinctBelow(mem', t, j + 1);
  }

  /** A finished table is ready to be linked. */
  lemma CopyDone(w0: World, w: World, ts: nat, t: nat)
    requires Copying(w0, w, ts, t, 1024)
    ensures PagesBelow(w.mem, t, 1024) == PagesOf(w.mem, t) && ReadyToLink(w, t)
  {
    assert PagesBelow(w.mem, t, 1024) == PagesOf(w.mem, t);
    forall j | 0 <= j < 1024 && Present(WordAt(w.mem, t, j))
      ensures FrameOf(WordAt(w.mem, t, j)) in w.pending && FrameOf(WordAt(w.mem, t, j)) != t
    {
      assert FrameOf(WordAt(w.mem, t, j)) in PagesBelow(w.mem, t, 1024);
    }
  }

  // --------------------------------------------------------- how many frames it takes

  /** The number of present entries among the first n of table t. */
  ghost function PresentBelow(mem: Memory, t: nat, n: nat): nat
    decreases n, t
  {
    if n == 0 then 0 else PresentBelow(mem, t, n - 1) + (if Present(WordAt(mem, t, n - 1)) then 1 else 0)
  }

  /** A directory, and a frame for each table of d below entry i and for each page of those tables. */
  ghost function CloneNeed(mem: Memory, d: nat, i: nat): nat
    decreases i, d
  {
    if i == 0 then 1
    else
      var e := WordAt(mem, d, i - 1);
      CloneNeed(mem, d, i - 1) + (if Present(e) then 1 + PresentBelow(mem, FrameOf(e), 1024) else 0)
  }

  lemma {:induction false} SamePresent(mem: Memory, mem': Memory, t: nat, n: nat)
    requires forall k :: 0 <= k < n ==> WordAt(mem', t, k) == WordAt(mem, t, k)
    ensures PresentBelow(mem', t, n) == PresentBelow(mem, t, n)
  {
    if n > 0 { SamePresent(mem, mem', t, n - 1); }
  }

  lemma {:induction false} PresentGrows(mem: Memory, t: nat, k: nat, n: nat)
    requires k < n
    ensures PresentBelow(mem, t, k) + (if Present(WordAt(mem, t, k)) then 1 else 0) <= PresentBelow(mem, t, n)
    decreases n
  {
    if k < n - 1 { PresentGrows(mem, t, k, n - 1); }
  }

  lemma {:induction false} NeedGrows(mem: Memory, d: nat, k: nat, n: nat)
    requires k < n
    ensures var e := WordAt(mem, d, k);
            CloneNeed(mem, d, k) + (if Present(e) then 1 + PresentBelow(mem, FrameOf(e), 1024) else 0)
                <= CloneNeed(mem, d, n)
    decreases n
  {
    if k < n - 1 { NeedGrows(mem, d, k, n - 1); }
  }

  /** The frames of d that the walk over its tables has passed at (i, j), and its directory. */
  ghost function PassedFrames(w: World, d: nat, i: nat, j: nat): set<nat> {
    set f | f in w.used && (f == d || Freed(w, d, i, j, f))
  }

  lemma PassOne(w: World, d: nat, i: nat, j: nat, i': nat, j': nat, r: Role)
    requires Owns(w) && d in w.spaces && Live(w.mem, w.spaces, r) && !Passed(r, d, i, j) && r != Dir(d)
    requires forall q :: Live(w.mem, w.spaces, q) ==> (Passed(q, d, i', j') <==> Passed(q, d, i, j) || q == r)
    ensures |PassedFrames(w, d, i', j')| == |PassedFrames(w, d, i, j)| + 1
  {
    var f := RoleFrame(w.mem, r);
    assert Placed(w, r) && Distinct(w, r, Dir(d));
    forall q | Live(w.mem, w.spaces, q) && Passed(q, d, i, j) ensures RoleFrame(w.mem, q) != f {
      assert Distinct(w, q, r);
    }
    assert f !in PassedFrames(w, d, i, j);
    forall g ensures Freed(w, d, i', j', g) <==> Freed(w, d, i, j, g) || f == g {
      FreedNext(w, d, i, j, i', j', r, g);
    }
    assert PassedFrames(w, d, i', j') == PassedFrames(w, d, i, j) + {f};
  }

  lemma PassNone(w: World, d: nat, i: nat, j: nat, i': nat, j': nat)
    requires forall q :: Live(w.mem, w.spaces, q) ==> (Passed(q, d, i', j') <==> Passed(q, d, i, j))
    ensures PassedFrames(w, d, i', j') == PassedFrames(w, d, i, j)
  {
    forall g ensures Freed(w, d, i', j', g) <==> Freed(w, d, i, j, g) {
      if Freed(w, d, i', j', g) {
        var q :| Live(w.mem, w.spaces, q) && Passed(q, d, i', j') && RoleFrame(w.mem, q) == g;
        assert Passed(q, d, i, j);
      }
      if Freed(w, d, i, j, g) {
        var q :| Live(w.mem, w.spaces, q) && Passed(q, d, i, j) && RoleFrame(w.mem, q) == g;
        assert Passed(q, d, i', j');
      }
    }
  }

  lemma {:induction false} PassTable(w: World, d: nat, i: nat, j: nat)
    requires Owns(w) && d in w.spaces && Live(w.mem, w.spaces, Table(d, i)) && j <= 1024
    ensures |PassedFrames(w, d, i, j)| ==
            |PassedFrames(w, d, i, 0)| + PresentBelow(w.mem, FrameOf(WordAt(w.mem, d, i)), j)
    decreases j
  {
    if j > 0 {
      PassTable(w, d, i, j - 1);
      if Present(WordAt(w.mem, FrameOf(WordAt(w.mem, d, i)), j - 1)) {
        PassOne(w, d, i, j - 1, i, j, Page(d, i, j - 1));
      } else {
        PassNone(w, d, i, j - 1, i, j);
      }
    }
  }

  lemma {:induction false} PassTables(w: World, d: nat, i: nat)
    requires Owns(w) && d in w.spaces && i <= USER_ENTRIES
    ensures |PassedFrames(w, d, i, 0)| == CloneNeed(w.mem, d, i)
    decreases i
  {
    if i == 0 {
      assert Placed(w, Dir(d));
      assert PassedFrames(w, d, i, 0) == {d};
    } else {
      PassTables(w, d, i - 1);
      if Present(WordAt(w.mem, d, i - 1)) {
        PassTable(w, d, i - 1, 1024);
        PassOne(w, d, i - 1, 1024, i, 0, Table(d, i - 1));
      } else {
        PassNone(w, d, i - 1, 0, i, 0);
      }
    }
  }

  /** A copy takes as many frames as the original has. */
  lemma NeedIsOwned(w: World, d: nat)
    requires Owns(w) && d in w.spaces
    ensures CloneNeed(w.mem, d, USER_ENTRIES) == |set f | f in w.used && BelongsTo(w, d, f)|
  {
    PassTables(w, d, USER_ENTRIES);
    assert PassedFrames(w, d, USER_ENTRIES, 0) == set f | f in w.used && BelongsTo(w, d, f) by {
      forall f ensures BelongsTo(w, d, f) <==> f == d || Freed(w, d, USER_ENTRIES, 0, f) {
        OwnedIsPassed(w, d, f);
      }
    }
  }

  datatype Outcome = Done | NoDirectory | NoTable | NoPage

  /**
   The allocation that finds no frame: all frames free at the start have gone into the directory, the
   tables before entry i and, for a page, into table i and its pages before entry `stop`.
   */
  ghost predicate StopsAt(w: World, src: nat, why: Outcome, i: nat, stop: nat) {
    var ts := FrameOf(WordAt(w.mem, src, i));
    match why
    case Done => false
    case NoDirectory => Spare(w) == 0
    case NoTable => i < USER_ENTRIES && Present(WordAt(w.mem, src, i)) && Spare(w) == CloneNeed(w.mem, src, i)
    case NoPage =>
      && i < USER_ENTRIES && Present(WordAt(w.mem, src, i)) && stop < 1024 && Present(WordAt(w.mem, ts, stop))
      && Spare(w) == CloneNeed(w.mem, src, i) + 1 + PresentBelow(w.mem, ts, stop)
  }

  /** Such a stop means fewer free frames than the copy takes. */
  lemma StopsShort(w: World, src: nat, why: Outcome, i: nat, stop: nat)
    requires StopsAt(w, src, why, i, stop)
    ensures Spare(w) < CloneNeed(w.mem, src, USER_ENTRIES)
  {
    NeedGrows(w.mem, src, 0, USER_ENTRIES);
    if i < USER_ENTRIES { NeedGrows(w.mem, src, i, USER_ENTRIES); }
    if stop < 1024 { PresentGrows(w.mem, FrameOf(WordAt(w.mem, src, i)), stop, 1024); }
  }

  /** The state before the call determines which allocation fails. */
  lemma StopIsDetermined(w: World, src: nat, why: Outcome, i: nat, stop: nat, why': Outcome, i': nat, stop': nat)
    requires StopsAt(w, src, why, i, stop) && StopsAt(w, src, why', i', stop')
    ensures why == why' && (why != NoDirectory ==> i == i') && (why == NoPage ==> stop == stop')
  {
    StopInTable(w, src, why, i, stop);
    StopInTable(w, src, why', i', stop');
    if why != NoDirectory && why' != NoDirectory {
      if i < i' { NeedGrows(w.mem, src, i, i'); }
      if i' < i { NeedGrows(w.mem, src, i', i); }
      var ts := FrameOf(WordAt(w.mem, src, i));
      if stop < stop' { PresentGrows(w.mem, ts, stop, stop'); }
      if stop' < stop { PresentGrows(w.mem, ts, stop', stop); }
    }
  }

  lemma StopInTable(w: World, src: nat, why: Outcome, i: nat, stop: nat)
    requires StopsAt(w, src, why, i, stop)
    ensures CloneNeed(w.mem, src, i) >= 1
    ensures why != NoDirectory ==>
        CloneNeed(w.mem, src, i) <= Spare(w) <
        CloneNeed(w.mem, src, i) + 1 + PresentBelow(w.mem, FrameOf(WordAt(w.mem, src, i)), 1024)
  {
    if i > 0 { NeedGrows(w.mem, src, 0, i); }
    if stop < 1024 { PresentGrows(w.mem, FrameOf(WordAt(w.mem, src, i)), stop, 1024); }
  }

  /** One iteration of the inner loop; false if no frame is free for the page. */
  method CopyEntry(v: Vmm, ts: nat, t: nat, j: nat, ghost w0: World) returns (ok: bool)
    requires v.Valid() && Copying(w0, v.Value(), ts, t, j) && j < 1024 && |w0.mem| == |v.mem| && ts < |v.mem|
    requires ts in w0.used
    requires v.mem[ts] == w0.mem[ts]
    requires Present(WordAt(w0.mem, ts, j)) ==>
        FrameOf(WordAt(w0.mem, ts, j)) in w0.used && FrameOf(WordAt(w0.mem, ts, j)) < |w0.mem|
    modifies v`mem, v`pending, v.pmm`usedBlocks, v.pmm.bitmap
    ensures v.Valid()
    ensures ok ==> Copying(w0, v.Value(), ts, t, j + 1)
    ensures !ok ==> v.Value() == old(v.Value())
    ensures !ok <==> Present(WordAt(w0.mem, ts, j)) && Spare(old(v.Value())) == 0
    ensures ok ==> Spare(old(v.Value())) == Spare(v.Value()) + if Present(WordAt(w0.mem, ts, j)) then 1 else 0
  {
    ghost var w := v.Value();
    if Present(v.mem[ts][j]) {
      ok := CopyPage(v, ts, t, j, w0);
    } else {
      CopyAbsent(w0, w, ts, t, j);
      FillOwns(w, t, v.mem[t][j := 0]);
      v.mem := Put(v.mem, t, j, 0);
      KernelKept(w.mem, v.mem, v.kernelDir, v.rest);
      ok := true;
    }
  }

  /** The branch for a present entry: a fresh frame with the same contents, entered with the same flags. */
  method CopyPage(v: Vmm, ts: nat, t: nat, j: nat, ghost w0: World) returns (ok: bool)
    requires v.Valid() && Copying(w0, v.Value(), ts, t, j) && j < 1024 && |w0.mem| == |v.mem| && ts < |v.mem|
    requires ts in w0.used
    requires v.mem[ts] == w0.mem[ts] && Present(v.mem[ts][j])
    requires FrameOf(WordAt(w0.mem, ts, j)) in w0.used && FrameOf(WordAt(w0.mem, ts, j)) < |w0.mem|
    modifies v`mem, v`pending, v.pmm`usedBlocks, v.pmm.bitmap
    ensures v.Valid()
    ensures ok ==> Copying(w0, v.Value(), ts, t, j + 1)
    ensures !ok ==> v.Value() == old(v.Value())
    ensures !ok <==> Spare(old(v.Value())) == 0
    ensures ok ==> Spare(old(v.Value())) == Spare(v.Value()) + 1
  {
    ghost var w := v.Value();
    var e := v.mem[ts][j];
    var f := v.AllocFrame();
    if f == 0 {
      return false;
    }
    CopyPresent(w0, w, ts, t, j, f);
    FillCopy(v, t, j, f, e);
    return true;
  }

  /** The contents of the page go to frame f, and f with the page's flags into entry j of table t. */
  method FillCopy(v: Vmm, t: nat, j: nat, f: nat, e: Word)
    requires v.Valid() && t in v.pending && f in v.pending && t != f && j < 1024 && FrameOf(e) < |v.mem|
    requires Entry(f, FlagsOf(e)) < 0x1_0000_0000
    modifies v`mem
    ensures v.Valid() && v.mem == Put(old(v.mem)[f := old(v.mem)[FrameOf(e)]], t, j, Entry(f, FlagsOf(e)))
  {
    ghost var w1 := v.Value();
    FillOwns(w1, f, v.mem[FrameOf(e)]);
    v.mem := v.mem[f := v.mem[FrameOf(e)]];
    ghost var w2 := v.Value();
    FillOwns(w2, t, v.mem[t][j := Entry(f, FlagsOf(e))]);
    v.mem := Put(v.mem, t, j, Entry(f, FlagsOf(e)));
    KernelKept(w1.mem, v.mem, v.kernelDir, v.rest);
  }

  /** What a finished table of the copy looks like, against the state before it was begun. */
  ghost predicate TableCloned(w0: World, w: World, src: nat, dst: nat, i: nat) {
    && w.spaces == w0.spaces && w.rest == w0.rest && w.pending == w0.pending && w0.used <= w.used
    && |w.mem| == |w0.mem| && Unchanged(w0.mem, w.mem, w0.used - {dst})
    && (forall k :: 0 <= k < 1024 && k != i ==> WordAt(w.mem, dst, k) == WordAt(w0.mem, dst, k))
    && Present(WordAt(w.mem, dst, i)) && FlagsOf(WordAt(w.mem, dst, i)) == FlagsOf(WordAt(w0.mem, src, i))
    && CopiedBelow(w0.mem, w0.used, w.mem, FrameOf(WordAt(w0.mem, src, i)), FrameOf(WordAt(w.mem, dst, i)), 1024)
  }

  /** What a page allocation failure at entry `stop` leaves behind: exactly the pages copied so far, unlinked. */
  ghost predicate TableAbandoned(w0: World, w: World, src: nat, i: nat, t: nat, stop: nat) {
    var ts := FrameOf(WordAt(w0.mem, src, i));
    && w.spaces == w0.spaces && w.rest == w0.rest && stop < 1024 && Present(WordAt(w0.mem, ts, stop))
    && PagesBelow(w.mem, t, stop) !! w0.used
    && w.used == w0.used + PagesBelow(w.mem, t, stop) && w.pending == w0.pending + PagesBelow(w.mem, t, stop)
    && Unchanged(w0.mem, w.mem, w0.used)
    && CopiedBelow(w0.mem, w0.used, w.mem, ts, t, stop) && DistinctBelow(w.mem, t, stop)
  }

  lemma SourcePages(w: World, src: nat, i: nat, j: nat)
    requires Owns(w) && src in w.spaces && i < USER_ENTRIES && Present(WordAt(w.mem, src, i)) && j < 1024
    ensures FrameOf(WordAt(w.mem, src, i)) in w.used && FrameOf(WordAt(w.mem, src, i)) < |w.mem|
    ensures var e := WordAt(w.mem, FrameOf(WordAt(w.mem, src, i)), j); Present(e) ==>
        FrameOf(e) in w.used && FrameOf(e) < |w.mem|
  {
    assert Placed(w, Table(src, i));
    if Present(WordAt(w.mem, FrameOf(WordAt(w.mem, src, i)), j)) {
      assert Placed(w, Page(src, i, j));
    }
  }

  lemma LinkedClone(w0: World, w: World, src: nat, dst: nat, i: nat, t: nat)
    requires Owns(w0) && src in w0.spaces && dst in w0.spaces && i < USER_ENTRIES && src != dst
    requires Present(WordAt(w0.mem, src, i)) && !Present(WordAt(w0.mem, dst, i))
    requires Owns(w) && |w.mem| == |w0.mem| && Copying(w0, w, FrameOf(WordAt(w0.mem, src, i)), t, 1024)
    ensures dst < |w.mem| && t < |w.mem|
    ensures var flags := FlagsOf(WordAt(w0.mem, src, i));
            var w' := Link(w, dst, i, t, flags).(pending := w0.pending);
            flags < 4096 && Owns(w') && TableCloned(w0, w', src, dst, i)
  {
    var ts := FrameOf(WordAt(w0.mem, src, i));
    var flags := FlagsOf(WordAt(w0.mem, src, i));
    WordParts(WordAt(w0.mem, src, i));
    EntryParts(t, flags);
    assert Placed(w0, Dir(dst));
    assert w.mem[dst] == w0.mem[dst];
    CopyDone(w0, w, ts, t);
    LinkOwns(w, dst, i, t, flags);
    assert w.pending - {t} - PagesOf(w.mem, t) == w0.pending;
    var w' := Link(w, dst, i, t, flags).(pending := w0.pending);
    forall k | 0 <= k < 1024 ensures Copied(w0.mem, w0.used, w'.mem, WordAt(w0.mem, ts, k), WordAt(w'.mem, t, k)) {
      assert Copied(w0.mem, w0.used, w.mem, WordAt(w0.mem, ts, k), WordAt(w.mem, t, k));
      PutWord(w.mem, dst, i, Entry(t, flags), t, k);
    }
    PutWord(w.mem, dst, i, Entry(t, flags), dst, i);
    forall k | 0 <= k < 1024 && k != i ensures WordAt(w'.mem, dst, k) == WordAt(w0.mem, dst, k) {
      PutWord(w.mem, dst, i, Entry(t, flags), dst, k);
    }
  }

  lemma AbandonedBy(w0: World, w: World, src: nat, i: nat, t: nat, j: nat)
    requires Owns(w0) && |w.mem| == |w0.mem| && Copying(w0, w, FrameOf(WordAt(w0.mem, src, i)), t, j) && j < 1024
    requires Present(WordAt(w0.mem, FrameOf(WordAt(w0.mem, src, i)), j))
    ensures TableAbandoned(w0, Release(w, t), src, i, t, j)
  {
    assert w.used - {t} == w0.used + PagesBelow(w.mem, t, j);
    assert w.pending - {t} == w0.pending + PagesBelow(w.mem, t, j);
  }

  /** The body of the outer loop for a present directory entry. */
  method CloneTable(v: Vmm, src: nat, dst: nat, i: nat) returns (r: Outcome, ghost t: nat, ghost stop: nat)
    requires v.Valid() && src in v.spaces && dst in v.spaces && src != dst && i < USER_ENTRIES
    requires Present(WordAt(v.mem, src, i)) && !Present(WordAt(v.mem, dst, i))
    modifies v`mem, v`pending, v.pmm`usedBlocks, v.pmm.bitmap
    ensures v.Valid()
    ensures r == Done ==> TableCloned(old(v.Value()), v.Value(), src, dst, i)
    ensures r == NoTable ==> v.Value() == old(v.Value())
    ensures r == NoPage ==> TableAbandoned(old(v.Value()), v.Value(), src, i, t, stop)
    ensures r != NoDirectory && (r == NoTable <==> Spare(old(v.Value())) == 0)
    ensures var w0, ts := old(v.Value()), FrameOf(WordAt(old(v.mem), src, i));
            && (r == NoPage ==> Spare(w0) == 1 + PresentBelow(w0.mem, ts, stop))
            && (r == Done ==> Spare(w0) == Spare(v.Value()) + 1 + PresentBelow(w0.mem, ts, 1024))
  {
    ghost var w0 := v.Value();
    t, stop := 0, 0;
    assert Placed(w0, Dir(src)) && Placed(w0, Dir(dst));
    SourcePages(w0, src, i, 0);
    var ts := FrameOf(v.mem[src][i]);
    var flags := FlagsOf(v.mem[src][i]);
    var table := v.AllocFrame();
    if table == 0 {
      return NoTable, t, stop;
    }
    t := table;
    CopyStart(w0, ts, table);
    var ok, j := CopyTable(v, src, i, ts, table, w0);
    stop := j;
    if !ok {
      AbandonedBy(w0, v.Value(), src, i, table, j);
      v.FreePending(table);
      return NoPage, t, stop;
    }
    LinkCopy(v, src, dst, i, table, flags, w0);
    return Done, t, stop;
  }

  /** Entry i of the new directory, once its table is complete. */
  method LinkCopy(v: Vmm, src: nat, dst: nat, i: nat, table: nat, flags: nat, ghost w0: World)
    requires v.Valid() && Owns(w0) && src in w0.spaces && dst in w0.spaces && src != dst && i < USER_ENTRIES
    requires Present(WordAt(w0.mem, src, i)) && !Present(WordAt(w0.mem, dst, i))
    requires flags == FlagsOf(WordAt(w0.mem, src, i))
    requires |v.mem| == |w0.mem| && Copying(w0, v.Value(), FrameOf(WordAt(w0.mem, src, i)), table, 1024)
    modifies v`mem, v`pending
    ensures v.Valid() && TableCloned(w0, v.Value(), src, dst, i) && |v.mem| == |old(v.mem)|
  {
    LinkedClone(w0, v.Value(), src, dst, i, table);
    assert Placed(w0, Dir(dst));
    ghost var m := v.mem;
    v.mem := Put(v.mem, dst, i, Entry(table, flags));
    v.pending := w0.pending;
    KernelKept(m, v.mem, v.kernelDir, v.rest);
  }

  /** The inner loop: every entry of the source's table, up to the first page no frame is free for. */
  method CopyTable(v: Vmm, src: nat, i: nat, ts: nat, table: nat, ghost w0: World) returns (ok: bool, stop: nat)
    requires v.Valid() && Owns(w0) && src in w0.spaces && i < USER_ENTRIES && Present(WordAt(w0.mem, src, i))
    requires ts == FrameOf(WordAt(w0.mem, src, i)) && |v.mem| == |w0.mem| && Copying(w0, v.Value(), ts, table, 0)
    requires Spare(w0) == Spare(v.Value()) + 1
    modifies v`mem, v`pending, v.pmm`usedBlocks, v.pmm.bitmap
    ensures v.Valid() && |v.mem| == |w0.mem| && stop <= 1024 && Copying(w0, v.Value(), ts, table, stop)
    ensures Spare(w0) == Spare(v.Value()) + 1 + PresentBelow(w0.mem, ts, stop)
    ensures ok ==> stop == 1024
    ensures !ok ==> stop < 1024 && Present(WordAt(w0.mem, ts, stop)) && Spare(v.Value()) == 0
  {
    SourcePages(w0, src, i, 0);
    for j := 0 to 1024
      modifies v`mem, v`pending, v.pmm`usedBlocks, v.pmm.bitmap
      invariant v.Valid() && |v.mem| == |w0.mem| && Copying(w0, v.Value(), ts, table, j)
      invariant Spare(w0) == Spare(v.Value()) + 1 + PresentBelow(w0.mem, ts, j)
    {
      SourcePages(w0, src, i, j);
      assert v.mem[ts] == w0.mem[ts];
      ok := CopyEntry(v, ts, table, j, w0);
      if !ok {
        return false, j;
      }
    }
    return true, 1024;
  }

  // ---------------------------------------------------------------- the outer loop

  /** Directory entry k of dst mirrors entry k of src as it was at the start. */
  ghost predicate EntryMirrored(w0: World, mem: Memory, src: nat, dst: nat, k: nat) {
    var e0, e := WordAt(w0.mem, src, k), WordAt(mem, dst, k);
    && (Present(e) <==> Present(e0))
    && (Present(e0) ==> FlagsOf(e) == FlagsOf(e0) && CopiedBelow(w0.mem, w0.used, mem, FrameOf(e0), FrameOf(e), 1024))
  }

  ghost predicate Cloning(w0: World, w: World, src: nat, dst: nat, i: nat) {
    && dst !in w0.used && dst !in w0.spaces && w.spaces == w0.spaces + {dst} && w.rest == w0.rest
        && w.pending == w0.pending && w0.used <= w.used
    && |w.mem| == |w0.mem| && Unchanged(w0.mem, w.mem, w0.used)
    && (forall k {:trigger EntryMirrored(w0, w.mem, src, dst, k)} :: 0 <= k < i ==>
        EntryMirrored(w0, w.mem, src, dst, k))
    && (forall k :: i <= k < USER_ENTRIES ==> !Present(WordAt(w.mem, dst, k)))
  }

  /** Finishing table i keeps the tables before it and the source as they were. */
  lemma CloningNext(w0: World, w: World, w': World, src: nat, dst: nat, i: nat)
    requires Owns(w0) && Owns(w) && src in w0.spaces && i < USER_ENTRIES && Cloning(w0, w, src, dst, i)
    requires Present(WordAt(w0.mem, src, i)) && TableCloned(w, w', src, dst, i)
    ensures Cloning(w0, w', src, dst, i + 1)
  {
    assert Placed(w0, Dir(src)) && Placed(w, Dir(dst));
    assert w.mem[src] == w0.mem[src];
    forall f | f in w0.used && 0 <= f < |w0.mem| ensures w'.mem[f] == w0.mem[f] {
      assert w.mem[f] == w0.mem[f];
    }
    forall k | 0 <= k < i ensures EntryMirrored(w0, w'.mem, src, dst, k) {
      assert EntryMirrored(w0, w.mem, src, dst, k);
      if Present(WordAt(w0.mem, src, k)) { KeptMirror(w0, w, w', src, dst, i, k); }
    }
    assert EntryMirrored(w0, w'.mem, src, dst, i) by { NewMirror(w0, w, w', src, dst, i); }
  }

  lemma KeptMirror(w0: World, w: World, w': World, src: nat, dst: nat, i: nat, k: nat)
    requires Owns(w) && dst in w.spaces && k < i < USER_ENTRIES && EntryMirrored(w0, w.mem, src, dst, k)
    requires Present(WordAt(w0.mem, src, k)) && TableCloned(w, w', src, dst, i)
    ensures EntryMirrored(w0, w'.mem, src, dst, k)
  {
    var t := FrameOf(WordAt(w.mem, dst, k));
    assert Placed(w, Table(dst, k)) && Distinct(w, Table(dst, k), Dir(dst));
    assert w'.mem[t] == w.mem[t];
    var ts := FrameOf(WordAt(w0.mem, src, k));
    forall j | 0 <= j < 1024 ensures Copied(w0.mem, w0.used, w'.mem, WordAt(w0.mem, ts, j), WordAt(w'.mem, t, j)) {
      assert Copied(w0.mem, w0.used, w.mem, WordAt(w0.mem, ts, j), WordAt(w.mem, t, j));
      if Present(WordAt(w.mem, t, j)) {
        assert Placed(w, Page(dst, k, j)) && Distinct(w, Page(dst, k, j), Dir(dst));
        assert w'.mem[FrameOf(WordAt(w.mem, t, j))] == w.mem[FrameOf(WordAt(w.mem, t, j))];
      }
    }
  }

  lemma NewMirror(w0: World, w: World, w': World, src: nat, dst: nat, i: nat)
    requires Owns(w0) && src in w0.spaces && i < USER_ENTRIES && Cloning(w0, w, src, dst, i)
    requires Present(WordAt(w0.mem, src, i)) && TableCloned(w, w', src, dst, i)
    ensures EntryMirrored(w0, w'.mem, src, dst, i)
  {
    assert Placed(w0, Dir(src));
    assert w.mem[src] == w0.mem[src];
    SourcePages(w0, src, i, 0);
    var ts, t := FrameOf(WordAt(w0.mem, src, i)), FrameOf(WordAt(w'.mem, dst, i));
    assert w.mem[ts] == w0.mem[ts];
    forall j | 0 <= j < 1024 ensures Copied(w0.mem, w0.used, w'.mem, WordAt(w0.mem, ts, j), WordAt(w'.mem, t, j)) {
      assert Copied(w.mem, w.used, w'.mem, WordAt(w.mem, ts, j), WordAt(w'.mem, t, j));
      SourcePages(w0, src, i, j);
      if Present(WordAt(w0.mem, ts, j)) {
        assert w.mem[FrameOf(WordAt(w0.mem, ts, j))] == w0.mem[FrameOf(WordAt(w0.mem, ts, j))];
      }
    }
  }

  lemma CloningSkip(w0: World, w: World, src: nat, dst: nat, i: nat)
    requires Cloning(w0, w, src, dst, i) && i < USER_ENTRIES && !Present(WordAt(w0.mem, src, i))
    ensures Cloning(w0, w, src, dst, i + 1)
  {
    assert EntryMirrored(w0, w.mem, src, dst, i);
  }

  /** The finished copy, page by page: same presence and flags, fresh frames, equal contents. */
  lemma ClonedFlat(w0: World, w: World, src: nat, dst: nat, page: nat)
    requires Cloning(w0, w, src, dst, USER_ENTRIES) && page < USER_PAGES
    ensures Copied(w0.mem, w0.used, w.mem, Lookup(w0.mem, src, page), Lookup(w.mem, dst, page))
  {
    assert EntryMirrored(w0, w.mem, src, dst, page / 1024);
    if Present(WordAt(w0.mem, src, page / 1024)) {
      var ts, t := FrameOf(WordAt(w0.mem, src, page / 1024)), FrameOf(WordAt(w.mem, dst, page / 1024));
      assert WordAt(w.mem, t, page % 1024) == Lookup(w.mem, dst, page);
    }
  }

  /** After a failed clone is torn down, only the written-off frames are still taken. */
  lemma FailureAccount(w0: World, w: World, lost: set<nat>)
    requires Owns(w0) && Owns(w) && w.spaces == w0.spaces && w.rest == w0.rest + lost && w.pending == w0.pending
    requires lost !! w0.used && (forall f :: f in lost ==> f < |w0.mem|) && Unchanged(w0.mem, w.mem, w0.used)
    ensures w.used == w0.used + lost
  {
    var w1 := w0.(used := w0.used + lost, rest := w0.rest + lost);
    assert Owns(w1) by {
      assert forall r :: Placed(w0, r) ==> Placed(w1, r);
      assert forall r, q :: Distinct(w0, r, q) ==> Distinct(w1, r, q);
      assert forall g :: HasOwner(w0, g) ==> HasOwner(w1, g);
    }
    UnchangedSame(w0, w.mem);
    UsedIsDetermined(w1, w);
  }

  /** The abandoned pages are copies of the source's first entries of table i, as it was at the start. */
  lemma AbandonedCopies(w0: World, w: World, w': World, src: nat, dst: nat, i: nat, t: nat, stop: nat)
    requires Owns(w0) && src in w0.spaces && i < USER_ENTRIES && Cloning(w0, w, src, dst, i)
    requires Present(WordAt(w0.mem, src, i)) && TableAbandoned(w, w', src, i, t, stop)
    ensures CopiedBelow(w0.mem, w0.used, w'.mem, FrameOf(WordAt(w0.mem, src, i)), t, stop)
    ensures Present(WordAt(w0.mem, FrameOf(WordAt(w0.mem, src, i)), stop))
    ensures PagesBelow(w'.mem, t, stop) !! w0.used
    ensures forall f :: f in PagesBelow(w'.mem, t, stop) ==> f < |w0.mem|
  {
    assert Placed(w0, Dir(src));
    assert w.mem[src] == w0.mem[src];
    SourcePages(w0, src, i, 0);
    var ts := FrameOf(WordAt(w0.mem, src, i));
    assert w.mem[ts] == w0.mem[ts];
    forall j | 0 <= j < stop ensures Copied(w0.mem, w0.used, w'.mem, WordAt(w0.mem, ts, j), WordAt(w'.mem, t, j)) {
      assert Copied(w.mem, w.used, w'.mem, WordAt(w.mem, ts, j), WordAt(w'.mem, t, j));
      SourcePages(w0, src, i, j);
      if Present(WordAt(w0.mem, ts, j)) {
        assert w.mem[FrameOf(WordAt(w0.mem, ts, j))] == w0.mem[FrameOf(WordAt(w0.mem, ts, j))];
      }
    }
    assert WordAt(w.mem, ts, stop) == WordAt(w0.mem, ts, stop);
  }

  /** The result of a clone that failed: nothing but the pages of the unfinished table is lost. */
  ghost predicate CloneFailed(w0: World, w: World, src: nat, why: Outcome, i: nat, t: nat, stop: nat) {
    var ts := FrameOf(WordAt(w0.mem, src, i));
    var lost := if why == NoPage then PagesBelow(w.mem, t, stop) else {};
    && w.spaces == w0.spaces && w.pending == w0.pending && Unchanged(w0.mem, w.mem, w0.used)
    && StopsAt(w0, src, why, i, stop)
    && lost !! w0.used && w.used == w0.used + lost && w.rest == w0.rest + lost
    && (why == NoPage ==>
          CopiedBelow(w0.mem, w0.used, w.mem, ts, t, stop) && DistinctBelow(w.mem, t, stop))
  }

  /** vmm_destroy_address_space of the unfinished copy, after a failure in table i. */
  method TearDown(v: Vmm, dst: nat, src: nat, ghost why: Outcome, ghost i: nat, ghost t: nat, ghost stop: nat,
      ghost w0: World, ghost w: World)
    requires v.Valid() && Owns(w0) && src in w0.spaces && i < USER_ENTRIES && Cloning(w0, w, src, dst, i)
    requires Present(WordAt(w0.mem, src, i))
    requires why == NoTable ==> v.Value() == w
    requires why == NoPage ==> TableAbandoned(w, v.Value(), src, i, t, stop)
    requires StopsAt(w0, src, why, i, stop) && why != NoDirectory
    modifies v`pending, v`spaces, v`rest, v.pmm`usedBlocks, v.pmm.bitmap
    ensures v.Valid() && CloneFailed(w0, v.Value(), src, why, i, t, stop)
  {
    ghost var lost: set<nat> := {};
    assert v.rest + lost == v.rest && v.pending - lost == v.pending;
    if why == NoPage {
      lost := PagesBelow(v.mem, t, stop);
      AbandonedCopies(w0, w, v.Value(), src, dst, i, t, stop);
      AbandonOwns(v.Value(), lost);
      assert v.pending - lost == w0.pending;
    }
    assert Owns(v.Value().(rest := v.rest + lost, pending := w0.pending));
    v.rest := v.rest + lost;
    v.pending := w0.pending;
    assert KernelOk(v.mem, v.kernelDir, v.rest);
    v.DestroyAddressSpace(dst);
    assert v.spaces == w0.spaces;
    FailureAccount(w0, v.Value(), lost);
  }

  /** The entries shared with the kernel. */
  ghost predicate UpperHalf(mem: Memory, d: nat, mem0: Memory, kernelDir: nat) {
    forall k {:trigger WordAt(mem, d, k)} :: USER_ENTRIES <= k < 1024 ==>
        WordAt(mem, d, k) == if kernelDir == 0 then 0 else WordAt(mem0, kernelDir, k)
  }

  /** While the copy is made, the tables of the source are what they were. */
  lemma SourceCount(w0: World, w: World, src: nat, dst: nat, i: nat, n: nat)
    requires Owns(w0) && src in w0.spaces && i < USER_ENTRIES && Cloning(w0, w, src, dst, i)
    requires Present(WordAt(w0.mem, src, i))
    ensures WordAt(w.mem, src, i) == WordAt(w0.mem, src, i)
    ensures var ts := FrameOf(WordAt(w0.mem, src, i));
            && PresentBelow(w.mem, ts, n) == PresentBelow(w0.mem, ts, n)
            && forall k :: 0 <= k < 1024 ==> WordAt(w.mem, ts, k) == WordAt(w0.mem, ts, k)
  {
    assert Placed(w0, Dir(src));
    assert w.mem[src] == w0.mem[src];
    SourcePages(w0, src, i, 0);
    var ts := FrameOf(WordAt(w0.mem, src, i));
    assert w.mem[ts] == w0.mem[ts];
    SamePresent(w0.mem, w.mem, ts, n);
  }

  /** A failure in table i, as seen from the start of the copy. */
  lemma StopReached(w0: World, w: World, src: nat, dst: nat, i: nat, r: Outcome, stop: nat)
    requires Owns(w0) && src in w0.spaces && i < USER_ENTRIES && Cloning(w0, w, src, dst, i)
    requires Present(WordAt(w0.mem, src, i)) && Spare(w0) == Spare(w) + CloneNeed(w0.mem, src, i)
    requires r == NoTable || r == NoPage
    requires r == NoTable ==> Spare(w) == 0
    requires var ts := FrameOf(WordAt(w.mem, src, i)); r == NoPage ==>
        stop < 1024 && Present(WordAt(w.mem, ts, stop)) && Spare(w) == 1 + PresentBelow(w.mem, ts, stop)
    ensures StopsAt(w0, src, r, i, stop)
  {
    SourceCount(w0, w, src, dst, i, stop);
  }

  /** The body of the outer loop. */
  method CloneEntry(v: Vmm, src: nat, dst: nat, i: nat, ghost w0: World)
    returns (r: Outcome, ghost t: nat, ghost stop: nat)
    requires v.Valid() && Owns(w0) && src in w0.spaces && i < USER_ENTRIES && Cloning(w0, v.Value(), src, dst, i)
    requires Spare(w0) == Spare(v.Value()) + CloneNeed(w0.mem, src, i)
    requires UpperHalf(v.mem, dst, w0.mem, v.kernelDir)
    modifies v`mem, v`pending, v.pmm`usedBlocks, v.pmm.bitmap
    ensures v.Valid()
    ensures r == Done ==>
        && Cloning(w0, v.Value(), src, dst, i + 1) && UpperHalf(v.mem, dst, w0.mem, v.kernelDir)
        && Spare(w0) == Spare(v.Value()) + CloneNeed(w0.mem, src, i + 1)
    ensures r != Done ==> StopsAt(w0, src, r, i, stop) && r != NoDirectory
    ensures r == NoTable ==> v.Value() == old(v.Value())
    ensures r == NoPage ==> TableAbandoned(old(v.Value()), v.Value(), src, i, t, stop)
  {
    ghost var w := v.Value();
    assert Placed(w0, Dir(src));
    assert v.mem[src] == w0.mem[src];
    if !Present(v.mem[src][i]) {
      CloningSkip(w0, w, src, dst, i);
      return Done, 0, 0;
    }
    r, t, stop := CloneTable(v, src, dst, i);
    if r == Done {
      CloningNext(w0, w, v.Value(), src, dst, i);
      SourceCount(w0, w, src, dst, i, 1024);
    } else {
      StopReached(w0, w, src, dst, i, r, stop);
    }
  }

  /**
   vmm_clone_address_space. On success every user page of src has a counterpart in dst with the same
   flags and contents on a fresh frame, and no frame in use before the call has changed. It fails
   exactly when fewer frames are free than the directory, tables and pages of the copy take.
   */
  method CloneAddressSpace(v: Vmm, src: nat) returns (dst: nat, ghost why: Outcome, ghost i': nat, ghost t: nat,
      ghost stop: nat)
    requires v.Valid() && src in v.spaces
    modifies v`mem, v`pending, v`spaces, v`rest, v.pmm`usedBlocks, v.pmm.bitmap
    ensures v.Valid()
    ensures dst != 0 ==> Cloning(old(v.Value()), v.Value(), src, dst, USER_ENTRIES)
    ensures dst != 0 ==> forall page :: 0 <= page < USER_PAGES ==>
              Copied(old(v.mem), old(v.pmm.Used()), v.mem, Lookup(old(v.mem), src, page), Lookup(v.mem, dst, page))
    ensures dst != 0 ==> forall k :: USER_ENTRIES <= k < 1024 ==>
              WordAt(v.mem, dst, k) == if v.kernelDir == 0 then 0 else WordAt(old(v.mem), v.kernelDir, k)
    ensures dst == 0 <==> Spare(old(v.Value())) < CloneNeed(old(v.mem), src, USER_ENTRIES)
    ensures dst != 0 ==> Spare(v.Value()) == Spare(old(v.Value())) - CloneNeed(old(v.mem), src, USER_ENTRIES)
    ensures dst == 0 ==> CloneFailed(old(v.Value()), v.Value(), src, why, i', t, stop)
  {
    ghost var w0 := v.Value();
    why, i', t, stop := NoDirectory, 0, 0, 0;
    assert Placed(w0, Dir(src));
    dst := v.CreateAddressSpace();
    if dst == 0 {
      StopsShort(w0, src, why, i', stop);
      return;
    }
    var r;
    r, i', t, stop := CloneTables(v, src, dst, w0);
    why := r;
    if r != Done {
      StopsShort(w0, src, why, i', stop);
      dst := 0;
      return;
    }
    forall page | 0 <= page < USER_PAGES
      ensures Copied(w0.mem, w0.used, v.mem, Lookup(w0.mem, src, page), Lookup(v.mem, dst, page))
    {
      ClonedFlat(w0, v.Value(), src, dst, page);
    }
  }

  /** The outer loop, and the way out when a table or a page cannot be had. */
  method CloneTables(v: Vmm, src: nat, dst: nat, ghost w0: World)
    returns (why: Outcome, ghost i': nat, ghost t: nat, ghost stop: nat)
    requires v.Valid() && Owns(w0) && src in w0.spaces && Cloning(w0, v.Value(), src, dst, 0)
    requires Spare(w0) == Spare(v.Value()) + 1 && UpperHalf(v.mem, dst, w0.mem, v.kernelDir)
    modifies v`mem, v`pending, v`spaces, v`rest, v.pmm`usedBlocks, v.pmm.bitmap
    ensures v.Valid()
    ensures why == Done ==>
        && Cloning(w0, v.Value(), src, dst, USER_ENTRIES) && UpperHalf(v.mem, dst, w0.mem, v.kernelDir)
        && Spare(w0) == Spare(v.Value()) + CloneNeed(w0.mem, src, USER_ENTRIES)
    ensures why != Done ==> CloneFailed(w0, v.Value(), src, why, i', t, stop)
  {
    why, i', t, stop := Done, 0, 0, 0;
    for i := 0 to USER_ENTRIES
      modifies v`mem, v`pending, v`spaces, v`rest, v.pmm`usedBlocks, v.pmm.bitmap
      invariant v.Valid() && Cloning(w0, v.Value(), src, dst, i) && why == Done
      invariant Spare(w0) == Spare(v.Value()) + CloneNeed(w0.mem, src, i)
      invariant UpperHalf(v.mem, dst, w0.mem, v.kernelDir)
    {
      ghost var w := v.Value();
      why, t, stop := CloneEntry(v, src, dst, i, w0);
      i' := i;
      if why != Done {
        TearDown(v, dst, src, why, i, t, stop, w0, w);
        return;
      }
    }
  }
}
