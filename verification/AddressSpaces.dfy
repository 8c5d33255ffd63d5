/**
 The virtual memory manager: page tables written in place, frames taken from and returned to the
 frame allocator.
 */
module AddressSpaces {
  import opened Words
  import opened FrameAllocator
  import opened PageTables

  /** PAGE_PRESENT | PAGE_WRITE | PAGE_USER. */
  const TABLE_FLAGS: nat := 7

  /** Page number of a virtual address. */
  function PageOf(virt: nat): nat { virt / 4096 }

  const KERNEL_VIRTUAL_BASE: nat := 0xC000_0000

  const USER_SPACE_END: nat := 0xBFFF_FFFF

  /** The kernel directory, if there is one, is not an address space, and its upper half leads to the rest. */
  ghost predicate KernelOk(mem: Memory, kernelDir: nat, rest: set<nat>) {
    kernelDir != 0 ==>
      && kernelDir in rest && kernelDir < |mem|
      && forall i :: USER_ENTRIES <= i < 1024 && Present(WordAt(mem, kernelDir, i)) ==>
          FrameOf(WordAt(mem, kernelDir, i)) in rest
  }

  /** Frames outside the set are as they were. */
  ghost predicate Unchanged(mem: Memory, mem': Memory, kept: set<nat>) {
    |mem'| == |mem| && forall f {:trigger mem'[f]} :: f in kept && 0 <= f < |mem| ==> mem'[f] == mem[f]
  }

  lemma KernelKept(mem: Memory, mem': Memory, kernelDir: nat, rest: set<nat>)
    requires KernelOk(mem, kernelDir, rest) && Unchanged(mem, mem', rest)
    ensures KernelOk(mem', kernelDir, rest)
  {
    if kernelDir != 0 {
      assert mem'[kernelDir] == mem[kernelDir];
      assert forall i: nat :: WordAt(mem', kernelDir, i) == WordAt(mem, kernelDir, i);
    }
  }

  lemma KernelMore(mem: Memory, kernelDir: nat, rest: set<nat>, more: set<nat>)
    requires KernelOk(mem, kernelDir, rest) && rest <= more
    ensures KernelOk(mem, kernelDir, more)
  {
  }

  /** Frames the allocator can still hand out. */
  ghost function Spare(w: World): nat {
    FreeCount(|w.mem|, w.used)
  }

  /** The frames vmm_alloc_page takes: one for the page, and one for its table if there is none. */
  ghost function AllocNeed(w: World, d: nat, virt: nat): nat {
    if Live(w.mem, w.spaces, Table(d, PageOf(virt) / 1024)) then 1 else 2
  }

  /** A zeroed table hung under an empty user entry, as one change of the world. */
  ghost function WithTable(w: World, d: nat, i: nat, t: nat): World
    requires d < |w.mem| && i < 1024 && t < |w.mem|
  {
    Link(FillPending(Reserve(w, t), t, Zeros()), d, i, t, TABLE_FLAGS).(pending := w.pending)
  }

  lemma WithTableKeeps(w: World, d: nat, i: nat, t: nat)
    requires Tables(w) && d in w.spaces && i < USER_ENTRIES && !Present(WordAt(w.mem, d, i)) && t !in w.used
    requires t < |w.mem|
    ensures d < |w.mem|
    ensures var w' := WithTable(w, d, i, t);
            && Tables(w') && (Owns(w) ==> Owns(w'))
            && Live(w'.mem, w'.spaces, Table(d, i)) && RoleFrame(w'.mem, Table(d, i)) == t
            && Unchanged(w.mem, w'.mem, w.used - {d})
  {
    assert Placed(w, Dir(d));
    var w1 := Reserve(w, t);
    ReserveOwns(w, t);
    var w2 := FillPending(w1, t, Zeros());
    FillOwns(w1, t, Zeros());
    FillRoles(w1, t, Zeros(), Table(d, i));
    assert WordAt(w2.mem, d, i) == WordAt(w.mem, d, i);
    assert forall j :: 0 <= j < 1024 ==> WordAt(w2.mem, t, j) == 0;
    assert PagesOf(w2.mem, t) == {};
    LinkRoles(w2, d, i, t, TABLE_FLAGS, Table(d, i));
    assert w2.pending - {t} - PagesOf(w2.mem, t) == w.pending;
    if Owns(w) {
      LinkOwns(w2, d, i, t, TABLE_FLAGS);
    }
    LinkTables(w2, d, i, t, TABLE_FLAGS);
  }

  /** Linking an empty table keeps the directories and tables in order. */
  lemma LinkTables(w: World, d: nat, i: nat, t: nat, flags: nat)
    requires Tables(w) && d in w.spaces && i < USER_ENTRIES && !Present(WordAt(w.mem, d, i))
    requires t in w.pending && t < |w.mem| && flags < 4096 && flags % 2 == 1 && d < |w.mem|
    ensures Tables(Link(w, d, i, t, flags).(pending := w.pending - {t}))
  {
    var w' := Link(w, d, i, t, flags).(pending := w.pending - {t});
    forall r | Live(w'.mem, w'.spaces, r) && !r.Page? ensures Placed(w', r) {
      LinkRoles(w, d, i, t, flags, r);
      assert Live(w.mem, w.spaces, r) ==> Placed(w, r);
    }
    forall r, q | Live(w'.mem, w'.spaces, r) && Live(w'.mem, w'.spaces, q) && !r.Page? && !q.Page?
      ensures Distinct(w', r, q)
    {
      LinkRoles(w, d, i, t, flags, r);
      LinkRoles(w, d, i, t, flags, q);
      assert Live(w.mem, w.spaces, r) && Live(w.mem, w.spaces, q) ==> Distinct(w, r, q);
      assert Live(w.mem, w.spaces, r) ==> Placed(w, r);
      assert Live(w.mem, w.spaces, q) ==> Placed(w, q);
    }
    forall e, k | e in w'.spaces && USER_ENTRIES <= k < 1024 && Present(WordAt(w'.mem, e, k))
      ensures FrameOf(WordAt(w'.mem, e, k)) in w'.rest
    {
      PutWord(w.mem, d, i, Entry(t, flags), e, k);
    }
  }

  /** The new empty table shows in no address space's flat map, and moves no other space's frames. */
  lemma WithTableFlat(w: World, d: nat, i: nat, t: nat, d': nat, q: nat)
    requires Tables(w) && d in w.spaces && i < USER_ENTRIES && !Present(WordAt(w.mem, d, i)) && t !in w.used
    requires t < |w.mem|
    requires d' in w.spaces && q < 0x10_0000
    ensures d < |w.mem| && Lookup(WithTable(w, d, i, t).mem, d', q) == Lookup(w.mem, d', q)
  {
    assert Placed(w, Dir(d));
    var w1 := Reserve(w, t);
    ReserveOwns(w, t);
    var w2 := FillPending(w1, t, Zeros());
    FillOwns(w1, t, Zeros());
    FillFlat(w1, t, Zeros(), d', q);
    assert WordAt(w2.mem, d, i) == WordAt(w.mem, d, i);
    LinkFlat(w2, d, i, t, TABLE_FLAGS, d', q);
    assert WordAt(w2.mem, t, q % 1024) == 0;
  }

  lemma WithTableOthers(w: World, d: nat, i: nat, t: nat)
    requires Tables(w) && d in w.spaces && i < USER_ENTRIES && !Present(WordAt(w.mem, d, i)) && t !in w.used
    requires t < |w.mem|
    ensures d < |w.mem| && SameSpaces(w.mem, WithTable(w, d, i, t).mem, w.spaces - {d})
  {
    assert Placed(w, Dir(d));
    var w1 := Reserve(w, t);
    ReserveOwns(w, t);
    var w2 := FillPending(w1, t, Zeros());
    FillOwns(w1, t, Zeros());
    assert WordAt(w2.mem, d, i) == WordAt(w.mem, d, i);
    var others, mem' := w.spaces - {d}, WithTable(w, d, i, t).mem;
    forall r
      ensures (Live(mem', others, r) <==> Live(w.mem, others, r))
          && (Live(w.mem, others, r) ==> RoleFrame(mem', r) == RoleFrame(w.mem, r))
    {
      if r.d in others {
        FillRoles(w1, t, Zeros(), r);
        LinkRoles(w2, d, i, t, TABLE_FLAGS, r);
        assert Live(mem', others, r) <==> Live(mem', w.spaces, r);
        assert Live(w.mem, others, r) <==> Live(w.mem, w.spaces, r);
      }
    }
  }

  lemma WriteOthers(w: World, d: nat, i: nat, j: nat, v: Word)
    requires Tables(w) && Live(w.mem, w.spaces, Table(d, i)) && j < 1024
    ensures RoleFrame(w.mem, Table(d, i)) < |w.mem|
    ensures SameSpaces(w.mem, Put(w.mem, RoleFrame(w.mem, Table(d, i)), j, v), w.spaces - {d})
  {
    assert Placed(w, Table(d, i));
    var others, mem' := w.spaces - {d}, Put(w.mem, RoleFrame(w.mem, Table(d, i)), j, v);
    forall r
      ensures (Live(mem', others, r) <==> Live(w.mem, others, r))
          && (Live(w.mem, others, r) ==> RoleFrame(mem', r) == RoleFrame(w.mem, r))
    {
      if r.d in others {
        WriteTable(w, d, i, j, v, r);
        assert Live(mem', others, r) <==> Live(mem', w.spaces, r);
        assert Live(w.mem, others, r) <==> Live(w.mem, w.spaces, r);
      }
    }
  }

  lemma SameSpacesTrans(a: Memory, b: Memory, c: Memory, spaces: set<nat>)
    requires SameSpaces(a, b, spaces) && SameSpaces(b, c, spaces)
    ensures SameSpaces(a, c, spaces)
  {
    forall r
      ensures (Live(c, spaces, r) <==> Live(a, spaces, r))
          && (Live(a, spaces, r) ==> RoleFrame(c, r) == RoleFrame(a, r))
    {
      assert Live(b, spaces, r) <==> Live(a, spaces, r);
    }
  }

  /** A present user mapping is a live page role. */
  lemma MappedIsLive(w: World, d: nat, page: nat)
    requires d in w.spaces && page < USER_PAGES
    ensures Present(Lookup(w.mem, d, page)) <==> Live(w.mem, w.spaces, Page(d, page / 1024, page % 1024))
    ensures Present(Lookup(w.mem, d, page)) ==>
        FrameOf(Lookup(w.mem, d, page)) == RoleFrame(w.mem, Page(d, page / 1024, page % 1024))
  {
  }

  /** Writing off pending frames: they count as used by nobody in particular from now on. */
  lemma AbandonOwns(w: World, lost: set<nat>)
    requires Owns(w) && lost <= w.pending
    ensures Owns(w.(rest := w.rest + lost, pending := w.pending - lost))
  {
    var w' := w.(rest := w.rest + lost, pending := w.pending - lost);
    assert forall r :: Placed(w, r) ==> Placed(w', r);
    assert forall r, q :: Distinct(w, r, q) ==> Distinct(w', r, q);
    assert forall g :: HasOwner(w, g) ==> HasOwner(w', g);
  }

  /** The frame a page is mapped to, which a new mapping of the page loses. */
  ghost function Displaced(mem: Memory, d: nat, page: nat): set<nat> {
    if Present(Lookup(mem, d, page)) then {FrameOf(Lookup(mem, d, page))} else {}
  }

  lemma PutTwice(mem: Memory, t: nat, j: nat, v: Word, v': Word)
    requires t < |mem| && j < 1024
    ensures Put(Put(mem, t, j, v), t, j, v') == Put(mem, t, j, v')
  {
    assert mem[t][j := v][j := v'] == mem[t][j := v'];
  }

  /** Entering frame f for a page: f is the page's from now on, and a frame entered before has no owner any more. */
  lemma RemapOwns(w: World, d: nat, page: nat, f: nat, flags: nat)
    requires Owns(w) && page < USER_PAGES && Live(w.mem, w.spaces, Table(d, page / 1024))
    requires f in w.pending && f < |w.mem| && flags < 4096 && flags % 2 == 1
    ensures RoleFrame(w.mem, Table(d, page / 1024)) < |w.mem|
    ensures Owns(w.(mem := Put(w.mem, RoleFrame(w.mem, Table(d, page / 1024)), page % 1024, Entry(f, flags)),
                pending := w.pending - {f}, rest := w.rest + Displaced(w.mem, d, page)))
  {
    var i, j := page / 1024, page % 1024;
    var t := RoleFrame(w.mem, Table(d, i));
    assert Placed(w, Table(d, i));
    MappedIsLive(w, d, page);
    if Present(Lookup(w.mem, d, page)) {
      var g := FrameOf(Lookup(w.mem, d, page));
      assert Placed(w, Page(d, i, j));
      UnmapOwns(w, d, i, j);
      var w1 := w.(mem := Put(w.mem, t, j, 0), pending := w.pending + {g});
      WriteTable(w, d, i, j, 0, Page(d, i, j));
      WriteTable(w, d, i, j, 0, Table(d, i));
      MapOwns(w1, d, i, j, f, flags);
      var w2 := w1.(mem := Put(w1.mem, t, j, Entry(f, flags)), pending := w1.pending - {f});
      AbandonOwns(w2, {g});
      assert w2.pending - {g} == w.pending - {f};
      EntryParts(f, flags);
      PutTwice(w.mem, t, j, 0, Entry(f, flags));
    } else {
      MapOwns(w, d, i, j, f, flags);
      assert w.rest + {} == w.rest;
    }
  }

  /** The flat map after a change to one page of one address space. */
  ghost predicate OnePageChanged(mem: Memory, mem': Memory, spaces: set<nat>, d: nat, page: nat, v: nat) {
    forall d', q :: d' in spaces && 0 <= q < 0x10_0000 ==>
      Lookup(mem', d', q) == if d' == d && q == page then v else Lookup(mem, d', q)
  }

  /** Mapping a page, with a new table if t is not 0. */
  lemma MapEffect(w: World, w1: World, d: nat, page: nat, t: nat, v: Word)
    requires Tables(w) && d in w.spaces && page < USER_PAGES
    requires Live(w.mem, w.spaces, Table(d, page / 1024)) ==> w1 == w
    requires !Live(w.mem, w.spaces, Table(d, page / 1024)) ==>
               t !in w.used && t < |w.mem| && d < |w.mem| && w1 == WithTable(w, d, page / 1024, t)
    requires Tables(w1) && Live(w1.mem, w1.spaces, Table(d, page / 1024))
    ensures RoleFrame(w1.mem, Table(d, page / 1024)) < |w1.mem|
    ensures var mem' := Put(w1.mem, RoleFrame(w1.mem, Table(d, page / 1024)), page % 1024, v);
            OnePageChanged(w.mem, mem', w.spaces, d, page, v) && SameSpaces(w.mem, mem', w.spaces - {d})
  {
    assert Placed(w1, Table(d, page / 1024));
    var table := RoleFrame(w1.mem, Table(d, page / 1024));
    var mem' := Put(w1.mem, table, page % 1024, v);
    forall d', q | d' in w.spaces && 0 <= q < 0x10_0000
      ensures Lookup(mem', d', q) == if d' == d && q == page then v else Lookup(w.mem, d', q)
    {
      WriteTableFlat(w1, d, page, v, d', q);
      if !Live(w.mem, w.spaces, Table(d, page / 1024)) {
        WithTableFlat(w, d, page / 1024, t, d', q);
      }
    }
    WriteOthers(w1, d, page / 1024, page % 1024, v);
    if !Live(w.mem, w.spaces, Table(d, page / 1024)) {
      WithTableOthers(w, d, page / 1024, t);
      SameSpacesTrans(w.mem, w1.mem, mem', w.spaces - {d});
    }
  }

  /** Present, accessible from user mode, and writable if asked. */
  predicate Accessible(e: nat, write: bool) {
    Present(e) && UserAccess(e) && (write ==> Writable(e))
  }

  /** First and last byte are user addresses and every page from the first's to the last's is accessible. */
  ghost predicate PagesAccessible(mem: Memory, d: nat, first: nat, last: nat, write: bool) {
    && first <= USER_SPACE_END && last <= USER_SPACE_END
    && forall q :: PageOf(first) <= q <= PageOf(last) ==> Accessible(Lookup(mem, d, q), write)
  }

  /** For a range that does not wrap, the check is exactly that every byte of it is an accessible user byte. */
  lemma CheckCoversRange(mem: Memory, d: nat, ptr: nat, len: nat, write: bool)
    requires 0 < len && ptr + len <= 0x1_0000_0000
    ensures (ptr + len - 1) % 0x1_0000_0000 == ptr + len - 1
    ensures PagesAccessible(mem, d, ptr, ptr + len - 1, write) <==>
            forall a :: ptr <= a < ptr + len ==> a <= USER_SPACE_END && Accessible(Lookup(mem, d, PageOf(a)), write)
  {
    var last := ptr + len - 1;
    if forall a :: ptr <= a < ptr + len ==> a <= USER_SPACE_END && Accessible(Lookup(mem, d, PageOf(a)), write) {
      assert ptr <= last < ptr + len;
      forall q | PageOf(ptr) <= q <= PageOf(last) ensures Accessible(Lookup(mem, d, q), write) {
        var a := if q == PageOf(ptr) then ptr else q * 4096;
        assert PageOf(a) == q && ptr <= a <= last;
      }
    }
    if PagesAccessible(mem, d, ptr, last, write) {
      forall a | ptr <= a < ptr + len ensures a <= USER_SPACE_END && Accessible(Lookup(mem, d, PageOf(a)), write) {
        assert PageOf(ptr) <= PageOf(a) <= PageOf(last);
      }
    }
  }

  /** Every byte of the range is a user byte, present and accessible. */
  ghost predicate RangeAccessible(mem: Memory, d: nat, ptr: nat, len: nat, write: bool) {
    forall a :: ptr <= a < ptr + len ==> a <= USER_SPACE_END && Accessible(Lookup(mem, d, PageOf(a)), write)
  }

  /**
   A range that wraps past 2^32 into an earlier page is accepted without a look at any page, although
   it is not accessible.
   */
  lemma CheckOnWrappedRange(mem: Memory, d: nat, ptr: nat, len: nat, write: bool)
    requires 0 < ptr <= USER_SPACE_END && len < 0x1_0000_0000 && ptr + len > 0x1_0000_0000
    requires PageOf((ptr + len - 1) % 0x1_0000_0000) < PageOf(ptr)
    ensures PagesAccessible(mem, d, ptr, (ptr + len - 1) % 0x1_0000_0000, write)
    ensures !RangeAccessible(mem, d, ptr, len, write)
  {
    var top := 0xFFFF_FFFF;
    var e := Lookup(mem, d, PageOf(top));
    assert ptr <= top < ptr + len && top > USER_SPACE_END;
  }

  /**
   The answer is right if and only if the range does not wrap, or an end test refuses it, or it wraps
   into its own first page and that page is not accessible.
   */
  lemma CheckRightExactly(mem: Memory, d: nat, ptr: nat, len: nat, write: bool)
    requires 0 < ptr < 0x1_0000_0000 && 0 < len < 0x1_0000_0000
    ensures var last := (ptr + len - 1) % 0x1_0000_0000;
            (PagesAccessible(mem, d, ptr, last, write) <==> RangeAccessible(mem, d, ptr, len, write)) <==>
            (|| ptr + len <= 0x1_0000_0000 || ptr > USER_SPACE_END || last > USER_SPACE_END
             || (PageOf(last) == PageOf(ptr) && !Accessible(Lookup(mem, d, PageOf(ptr)), write)))
  {
    if ptr + len <= 0x1_0000_0000 {
      CheckCoversRange(mem, d, ptr, len, write);
    } else {
      var top := 0xFFFF_FFFF;
      var e := Lookup(mem, d, PageOf(top));
      assert ptr <= top < ptr + len && top > USER_SPACE_END;
      assert (ptr + len - 1) % 0x1_0000_0000 == ptr + len - 1 - 0x1_0000_0000;
    }
  }

  /** The user half of a directory points into memory: so it is for every address space and for the kernel directory. */
  ghost predicate Walkable(mem: Memory, d: nat) {
    d < |mem| && forall i :: 0 <= i < USER_ENTRIES && Present(WordAt(mem, d, i)) ==> FrameOf(WordAt(mem, d, i)) < |mem|
  }

  lemma SpacesWalkable(w: World, d: nat)
    requires Tables(w) && d in w.spaces
    ensures Walkable(w.mem, d)
  {
    assert Placed(w, Dir(d));
    forall i | 0 <= i < USER_ENTRIES && Present(WordAt(w.mem, d, i)) ensures FrameOf(WordAt(w.mem, d, i)) < |w.mem| {
      assert Placed(w, Table(d, i));
    }
  }

  lemma UserPage(page: nat)
    requires page <= USER_SPACE_END
    ensures PageOf(page) < USER_PAGES && PageOf(page) / 1024 < USER_ENTRIES
  {
  }

  lemma MappedFrameNotZero(w: World, d: nat, page: nat)
    requires Owns(w) && d in w.spaces && page < USER_PAGES
    ensures Present(Lookup(w.mem, d, page)) ==> FrameOf(Lookup(w.mem, d, page)) != 0
  {
    MappedIsLive(w, d, page);
    if Present(Lookup(w.mem, d, page)) {
      assert Placed(w, Page(d, page / 1024, page % 1024));
    }
  }

  // ------------------------------------------------------------------ destroying

  /** Roles of address space d that the walk of vmm_destroy_address_space has passed at (i, j). */
  predicate Passed(r: Role, d: nat, i: nat, j: nat) {
    r.d == d && match r
                case Dir(_) => false
                case Table(_, k) => k < i
                case Page(_, k, l) => k < i || (k == i && l < j)
  }

  ghost predicate Freed(w: World, d: nat, i: nat, j: nat, f: nat) {
    exists r :: Live(w.mem, w.spaces, r) && Passed(r, d, i, j) && RoleFrame(w.mem, r) == f
  }

  /** What is still in use when the walk has reached (i, j). */
  ghost predicate Walked(w: World, used: set<nat>, d: nat, i: nat, j: nat) {
    forall f {:trigger f in used} {:trigger Freed(w, d, i, j, f)} :: f in used <==> f in w.used && !Freed(w, d, i, j, f)
  }

  /** Freeing the frame of the next role keeps the account; the frame has not been freed before. */
  lemma FreeNext(w: World, used: set<nat>, d: nat, i: nat, j: nat, i': nat, j': nat, r: Role)
    requires Owns(w) && Walked(w, used, d, i, j) && Live(w.mem, w.spaces, r) && !Passed(r, d, i, j)
    requires forall q :: Live(w.mem, w.spaces, q) ==> (Passed(q, d, i', j') <==> Passed(q, d, i, j) || q == r)
    ensures RoleFrame(w.mem, r) in used && RoleFrame(w.mem, r) != 0
    ensures Walked(w, used - {RoleFrame(w.mem, r)}, d, i', j')
  {
    var f := RoleFrame(w.mem, r);
    assert Placed(w, r);
    forall q | Live(w.mem, w.spaces, q) && Passed(q, d, i, j) ensures RoleFrame(w.mem, q) != f {
      assert Distinct(w, q, r);
    }
    assert !Freed(w, d, i, j, f);
    var used' := used - {f};
    forall g ensures g in used' <==> g in w.used && !Freed(w, d, i', j', g) {
      FreedNext(w, d, i, j, i', j', r, g);
    }
  }

  lemma FreedNext(w: World, d: nat, i: nat, j: nat, i': nat, j': nat, r: Role, g: nat)
    requires Live(w.mem, w.spaces, r)
    requires forall q :: Live(w.mem, w.spaces, q) ==> (Passed(q, d, i', j') <==> Passed(q, d, i, j) || q == r)
    ensures Freed(w, d, i', j', g) <==> Freed(w, d, i, j, g) || RoleFrame(w.mem, r) == g
  {
    if Freed(w, d, i', j', g) {
      var q :| Live(w.mem, w.spaces, q) && Passed(q, d, i', j') && RoleFrame(w.mem, q) == g;
      assert Passed(q, d, i, j) || q == r;
    }
    if Freed(w, d, i, j, g) {
      var q :| Live(w.mem, w.spaces, q) && Passed(q, d, i, j) && RoleFrame(w.mem, q) == g;
      assert Passed(q, d, i', j');
    }
    if RoleFrame(w.mem, r) == g {
      assert Passed(r, d, i', j');
    }
  }

  /** Passing an entry that plays no role changes nothing. */
  lemma SkipNext(w: World, used: set<nat>, d: nat, i: nat, j: nat, i': nat, j': nat)
    requires Walked(w, used, d, i, j)
    requires forall q :: Live(w.mem, w.spaces, q) ==> (Passed(q, d, i', j') <==> Passed(q, d, i, j))
    ensures Walked(w, used, d, i', j')
  {
    forall g ensures Freed(w, d, i', j', g) <==> Freed(w, d, i, j, g) {
      if Freed(w, d, i', j', g) {
        var q :| Live(w.mem, w.spaces, q) && Passed(q, d, i', j') && RoleFrame(w.mem, q) == g;
        assert Passed(q, d, i, j);
      }
      if Freed(w, d, i, j, g) {
        var q :| Live(w.mem, w.spaces, q) && Passed(q, d, i, j) && RoleFrame(w.mem, q) == g;
        assert Passed(q, d, i', j');
      }
    }
  }

  /** At the end of the walk only the directory itself is left to free. */
  lemma WalkDone(w: World, used: set<nat>, d: nat)
    requires Owns(w) && d in w.spaces && Walked(w, used, d, USER_ENTRIES, 0)
    ensures d in used && d != 0
    ensures forall f {:trigger f in used - {d}} {:trigger BelongsTo(w, d, f)} :: f in used - {d} <==>
        f in w.used && !BelongsTo(w, d, f)
  {
    assert Placed(w, Dir(d));
    forall q | Live(w.mem, w.spaces, q) && Passed(q, d, USER_ENTRIES, 0) ensures RoleFrame(w.mem, q) != d {
      assert Distinct(w, q, Dir(d));
    }
    assert !Freed(w, d, USER_ENTRIES, 0, d);
    forall f ensures BelongsTo(w, d, f) <==> f == d || Freed(w, d, USER_ENTRIES, 0, f) {
      OwnedIsPassed(w, d, f);
    }
  }

  /** The whole walk passes every frame of d but its directory. */
  lemma OwnedIsPassed(w: World, d: nat, f: nat)
    requires d in w.spaces
    ensures BelongsTo(w, d, f) <==> f == d || Freed(w, d, USER_ENTRIES, 0, f)
  {
    if BelongsTo(w, d, f) {
      var q :| Live(w.mem, w.spaces, q) && q.d == d && RoleFrame(w.mem, q) == f;
      assert q == Dir(d) || Passed(q, d, USER_ENTRIES, 0);
    }
    if Freed(w, d, USER_ENTRIES, 0, f) {
      var q :| Live(w.mem, w.spaces, q) && Passed(q, d, USER_ENTRIES, 0) && RoleFrame(w.mem, q) == f;
      assert q.d == d;
    }
    assert Live(w.mem, w.spaces, Dir(d));
  }

  class Vmm {
    const pmm: Pmm
    const kernelDir: nat
    var mem: Memory
    var currentDir: nat
    ghost var spaces: set<nat>
    ghost var rest: set<nat>
    ghost var pending: set<nat>

    ghost function Value(): World
      reads this, pmm, pmm.bitmap
    {
      World(mem, pmm.Used(), spaces, rest, pending)
    }

    ghost predicate Base()
      reads this, pmm, pmm.bitmap
    {
      pmm.Valid() && |mem| == pmm.maxBlocks && KernelOk(mem, kernelDir, rest)
    }

    /** What mapping and unmapping rely on. */
    ghost predicate Structured()
      reads this, pmm, pmm.bitmap
    {
      Base() && Tables(Value())
    }

    /** Every frame has its owner. */
    ghost predicate Valid()
      reads this, pmm, pmm.bitmap
    {
      Base() && Owns(Value())
    }

    /** After boot: some frames in use for the kernel, no address spaces yet. */
    constructor (allocator: Pmm, memory: Memory, kernelDirectory: nat)
      requires allocator.Valid() && |memory| == allocator.maxBlocks && |memory| > 0
      requires KernelOk(memory, kernelDirectory, allocator.Used())
      ensures Valid() && pmm == allocator && mem == memory && spaces == {} && rest == pmm.Used()
    {
      pmm, mem, kernelDir, currentDir := allocator, memory, kernelDirectory, kernelDirectory;
      spaces, rest, pending := {}, allocator.Used(), {};
    }

    /** pmm_alloc_block: the frame stays pending until it is linked. */
    method AllocFrame() returns (f: nat)
      requires Structured()
      modifies this`pending, pmm`usedBlocks, pmm.bitmap
      ensures Structured() && (old(Valid()) ==> Valid())
      ensures f == 0 ==> Value() == old(Value()) && forall g: nat :: g < |mem| ==> g in pmm.Used()
      ensures f != 0 ==> Value() == Reserve(old(Value()), f) && IsFirstFree(old(pmm.Used()), |mem|, f)
      ensures f == 0 <==> Spare(old(Value())) == 0
      ensures Spare(Value()) == Spare(old(Value())) - if f == 0 then 0 else 1
    {
      NoneFree(|mem|, pmm.Used());
      f := pmm.AllocBlock();
      if f != 0 {
        ReserveOwns(old(Value()), f);
        TakeOne(|mem|, old(pmm.Used()), f);
        pending := pending + {f};
      }
    }

    method FreePending(f: nat)
      requires Structured() && f in pending
      modifies this`pending, pmm`usedBlocks, pmm.bitmap
      ensures Structured() && (old(Valid()) ==> Valid())
      ensures Value() == Release(old(Value()), f)
    {
      ReleaseOwns(Value(), f);
      pmm.FreeBlock(f);
      pending := pending - {f};
    }

    /** get_page_table for a user page: the table frame, or 0. */
    method GetPageTable(d: nat, page: nat, create: bool) returns (t: nat)
      requires Structured() && d in spaces && page < USER_PAGES
      modifies this`mem, this`pending, pmm`usedBlocks, pmm.bitmap
      ensures Structured() && (old(Valid()) ==> Valid())
      ensures pending == old(pending)
      ensures t != 0 ==> Live(mem, spaces, Table(d, page / 1024)) && RoleFrame(mem, Table(d, page / 1024)) == t
      ensures t == 0 ==> Value() == old(Value()) && !Live(mem, spaces, Table(d, page / 1024))
      ensures !create || old(Live(mem, spaces, Table(d, page / 1024))) ==> Value() == old(Value())
      ensures t == 0 <==> !old(Live(mem, spaces, Table(d, page / 1024))) && (!create || Spare(old(Value())) == 0)
      ensures Spare(Value()) ==
          Spare(old(Value())) - if t == 0 || old(Live(mem, spaces, Table(d, page / 1024))) then 0 else 1
      ensures t != 0 && create && !old(Live(mem, spaces, Table(d, page / 1024))) ==>
                && t !in old(pmm.Used()) && t < |mem| && d < |old(mem)|
                && Value() == WithTable(old(Value()), d, page / 1024, t)
    {
      assert Placed(Value(), Dir(d));
      var e := mem[d][page / 1024];
      if Present(e) {
        assert Placed(Value(), Table(d, page / 1024));
        return FrameOf(e);
      }
      if create {
        ghost var w := Value();
        t := AllocFrame();
        if t == 0 {
          return 0;
        }
        WithTableKeeps(w, d, page / 1024, t);
        mem := mem[t := Zeros()];
        mem := Put(mem, d, page / 1024, Entry(t, TABLE_FLAGS));
        pending := pending - {t};
        assert Value() == WithTable(w, d, page / 1024, t);
        KernelKept(w.mem, mem, kernelDir, rest);
        return t;
      }
      return 0;
    }

    /** vmm_map_page on a user address: one page of the flat map changes; on failure nothing does. */
    method MapPage(d: nat, virt: nat, phys: nat, flags: nat) returns (r: int)
      requires Structured() && d in spaces && virt < KERNEL_VIRTUAL_BASE && phys < 0x1_0000_0000 && flags < 4096
      modifies this`mem, this`pending, pmm`usedBlocks, pmm.bitmap
      ensures Structured() && pending == old(pending)
      ensures r == 0 || r == -1
      ensures r == -1 ==> Value() == old(Value())
      ensures r == -1 <==> !old(Live(mem, spaces, Table(d, PageOf(virt) / 1024))) && Spare(old(Value())) == 0
      ensures Spare(Value()) ==
          Spare(old(Value())) - if r == -1 || old(Live(mem, spaces, Table(d, PageOf(virt) / 1024))) then 0 else 1
      ensures r == 0 ==> OnePageChanged(old(mem), mem, spaces, d, PageOf(virt), Entry(FrameOf(phys), flags))
      ensures r == 0 ==> SameSpaces(old(mem), mem, spaces - {d})
      ensures r == 0 && old(Valid()) && FrameOf(phys) in pending && flags % 2 == 1 ==>
                Owns(Value().(pending := pending - {FrameOf(phys)},
                    rest := rest + Displaced(old(mem), d, PageOf(virt))))
    {
      var page := PageOf(virt);
      ghost var w := Value();
      var t := GetPageTable(d, page, true);
      if t == 0 {
        return -1;
      }
      ghost var w1 := Value();
      var v := Entry(FrameOf(phys), flags);
      assert Placed(w1, Table(d, page / 1024));
      MapEffect(w, w1, d, page, t, v);
      WriteKeepsTables(w1, d, page / 1024, page % 1024, v);
      if old(Valid()) && FrameOf(phys) in pending && flags % 2 == 1 {
        assert Lookup(w1.mem, d, page) == Lookup(w.mem, d, page) by {
          if w1 != w { WithTableFlat(w, d, page / 1024, t, d, page); }
        }
        RemapOwns(w1, d, page, FrameOf(phys), flags);
      }
      mem := Put(mem, t, page % 1024, v);
      KernelKept(w1.mem, mem, kernelDir, rest);
      return 0;
    }

    /** vmm_unmap_page on a user address: the page's entry is cleared, and nothing else changes. */
    method UnmapPage(d: nat, virt: nat)
      requires Structured() && d in spaces && virt < KERNEL_VIRTUAL_BASE
      modifies this`mem, this`pending, pmm`usedBlocks, pmm.bitmap
      ensures Structured() && pending == old(pending) && pmm.Used() == old(pmm.Used())
      ensures OnePageChanged(old(mem), mem, spaces, d, PageOf(virt), 0)
      ensures SameSpaces(old(mem), mem, spaces - {d})
      ensures old(Owns(Value())) && Present(old(Lookup(mem, d, PageOf(virt)))) ==>
                Owns(Value().(pending := pending + {FrameOf(old(Lookup(mem, d, PageOf(virt))))}))
      ensures old(Owns(Value())) && !Present(old(Lookup(mem, d, PageOf(virt)))) ==> Owns(Value())
    {
      var page := PageOf(virt);
      ghost var w := Value();
      var t := GetPageTable(d, page, false);
      if t == 0 {
        return;
      }
      assert Placed(w, Table(d, page / 1024));
      MapEffect(w, w, d, page, t, 0);
      WriteKeepsTables(w, d, page / 1024, page % 1024, 0);
      if Owns(w) {
        MappedIsLive(w, d, page);
        if Present(Lookup(mem, d, page)) {
          UnmapOwns(w, d, page / 1024, page % 1024);
        } else {
          ClearEmptyOwns(w, d, page / 1024, page % 1024);
        }
      }
      mem := Put(mem, t, page % 1024, 0);
      KernelKept(w.mem, mem, kernelDir, rest);
    }

    /** vmm_get_physical_address on a user address: frame plus offset, or 0 if not mapped. */
    method GetPhysicalAddress(d: nat, virt: nat) returns (phys: nat)
      requires Structured() && d in spaces && virt < KERNEL_VIRTUAL_BASE
      modifies this`mem, this`pending, pmm`usedBlocks, pmm.bitmap
      ensures Value() == old(Value()) && Structured() && (old(Valid()) ==> Valid())
      ensures phys == var e := Lookup(mem, d, PageOf(virt)); if Present(e) then FrameOf(e) * 4096 + virt % 4096 else 0
    {
      var page := PageOf(virt);
      var t := GetPageTable(d, page, false);
      if t == 0 {
        return 0;
      }
      assert Placed(Value(), Table(d, page / 1024));
      var e := mem[t][page % 1024];
      if !Present(e) {
        return 0;
      }
      return FrameOf(e) * 4096 + virt % 4096;
    }

    /** vmm_is_mapped on a user address. */
    method IsMapped(d: nat, virt: nat) returns (b: bool)
      requires Structured() && d in spaces && virt < KERNEL_VIRTUAL_BASE
      modifies this`mem, this`pending, pmm`usedBlocks, pmm.bitmap
      ensures Value() == old(Value()) && Structured()
      ensures b <==> Present(Lookup(mem, d, PageOf(virt)))
    {
      var page := PageOf(virt);
      var t := GetPageTable(d, page, false);
      if t == 0 {
        return false;
      }
      assert Placed(Value(), Table(d, page / 1024));
      return Present(mem[t][page % 1024]);
    }

    /**
     vmm_alloc_page on a user page: the page gets a frame of its own; it fails exactly when there are
     too few free frames, and then leaves memory, bitmap and counter exactly as they were. A frame the
     page was mapped to before is lost: it stays in use and belongs to nobody.
     */
    method AllocPage(d: nat, virt: nat, flags: nat) returns (r: int)
      requires Valid() && d in spaces && virt < KERNEL_VIRTUAL_BASE && flags < 4096
      modifies this`mem, this`pending, this`rest, pmm`usedBlocks, pmm.bitmap
      ensures rest == old(rest) + if r == 0 then Displaced(old(mem), d, PageOf(virt)) else {}
      ensures Valid() && pending == old(pending) && (r == 0 || r == -1)
      ensures r == -1 <==> Spare(old(Value())) < AllocNeed(old(Value()), d, virt)
      ensures Spare(Value()) == Spare(old(Value())) - if r == 0 then AllocNeed(old(Value()), d, virt) else 0
      ensures r == -1 ==> Value() == old(Value())
      ensures r == 0 ==> exists f ::
          f !in old(pmm.Used()) && OnePageChanged(old(mem), mem, spaces, d, PageOf(virt), Entry(f, WithPresent(flags)))
      ensures SameSpaces(old(mem), mem, spaces - {d})
    {
      ghost var w := Value();
      var f := AllocFrame();
      if f == 0 {
        return -1;
      }
      r := MapPending(d, virt, f, WithPresent(flags));
      if r != 0 {
        FreePending(f);
        assert Value() == w;
        return -1;
      }
      assert pending == w.pending;
      assert f !in w.used && OnePageChanged(w.mem, mem, spaces, d, PageOf(virt), Entry(f, WithPresent(flags)));
      return 0;
    }

    /** vmm_map_page of a frame that belongs to nobody yet. */
    method MapPending(d: nat, virt: nat, f: nat, flags: nat) returns (r: int)
      requires Valid() && d in spaces && virt < KERNEL_VIRTUAL_BASE && flags < 4096 && flags % 2 == 1 && f in pending
      modifies this`mem, this`pending, this`rest, pmm`usedBlocks, pmm.bitmap
      ensures Valid() && (r == 0 || r == -1)
      ensures r == -1 <==> !old(Live(mem, spaces, Table(d, PageOf(virt) / 1024))) && Spare(old(Value())) == 0
      ensures r == -1 ==> Value() == old(Value())
      ensures r == 0 ==>
          && pending == old(pending) - {f} && rest == old(rest) + Displaced(old(mem), d, PageOf(virt))
          && Spare(Value()) ==
             Spare(old(Value())) - (if old(Live(mem, spaces, Table(d, PageOf(virt) / 1024))) then 0 else 1)
          && OnePageChanged(old(mem), mem, spaces, d, PageOf(virt), Entry(f, flags))
          && SameSpaces(old(mem), mem, spaces - {d})
    {
      ghost var m := mem;
      assert FrameOf(f * 4096) == f;
      r := MapPage(d, virt, f * 4096, flags);
      if r == 0 {
        assert OnePageChanged(m, mem, spaces, d, PageOf(virt), Entry(f, flags));
        KernelMore(mem, kernelDir, rest, rest + Displaced(m, d, PageOf(virt)));
        rest := rest + Displaced(m, d, PageOf(virt));
        pending := pending - {f};
      }
    }

    /** vmm_free_page on a user address: the page is unmapped and its frame, if any, goes back to the allocator. */
    method FreePage(d: nat, virt: nat)
      requires Valid() && d in spaces && virt < KERNEL_VIRTUAL_BASE
      modifies this`mem, this`pending, pmm`usedBlocks, pmm.bitmap
      ensures Valid() && pending == old(pending)
      ensures OnePageChanged(old(mem), mem, spaces, d, PageOf(virt), 0)
      ensures SameSpaces(old(mem), mem, spaces - {d})
      ensures pmm.Used() == var e := old(Lookup(mem, d, PageOf(virt)));
                if Present(e) then old(pmm.Used()) - {FrameOf(e)} else old(pmm.Used())
    {
      ghost var w := Value();
      var phys := GetPhysicalAddress(d, virt);
      MappedFrameNotZero(w, d, PageOf(virt));
      if phys != 0 {
        UnmapThenFree(d, virt, FrameOf(phys));
      } else {
        UnmapPage(d, virt);
      }
    }

    /**
     The two effects of vmm_free_page on a mapped page; they commute, and this order keeps every frame
     accounted for.
     */
    method UnmapThenFree(d: nat, virt: nat, f: nat)
      requires Valid() && d in spaces && virt < KERNEL_VIRTUAL_BASE
      requires Present(Lookup(mem, d, PageOf(virt))) && FrameOf(Lookup(mem, d, PageOf(virt))) == f
      modifies this`mem, this`pending, pmm`usedBlocks, pmm.bitmap
      ensures Valid() && pending == old(pending) && pmm.Used() == old(pmm.Used()) - {f}
      ensures OnePageChanged(old(mem), mem, spaces, d, PageOf(virt), 0)
      ensures SameSpaces(old(mem), mem, spaces - {d})
    {
      ghost var w := Value();
      MappedIsLive(w, d, PageOf(virt));
      assert Placed(w, Page(d, PageOf(virt) / 1024, PageOf(virt) % 1024));
      UnmapPage(d, virt);
      pending := pending + {f};
      FreePending(f);
      assert pending == w.pending;
    }

    /**
     vmm_check_user_ptr against the current directory. The last byte is computed in 32 bits; the
     answer is about the pages from the first byte's to the last byte's.
     */
    method CheckUserPtr(ptr: nat, len: nat, write: bool) returns (ok: bool)
      requires ptr < 0x1_0000_0000 && len < 0x1_0000_0000 && (currentDir == 0 || Walkable(mem, currentDir))
      ensures ptr == 0 ==> !ok
      ensures ptr != 0 && len == 0 ==> ok
      ensures ptr != 0 && len > 0 ==>
          (ok <==> currentDir != 0 && PagesAccessible(mem, currentDir, ptr, (ptr + len - 1) % 0x1_0000_0000, write))
    {
      if ptr == 0 {
        return false;
      }
      if len == 0 {
        return true;
      }
      var end := (ptr + len - 1) % 0x1_0000_0000;
      if ptr > USER_SPACE_END || end > USER_SPACE_END {
        return false;
      }
      if currentDir == 0 {
        return false;
      }
      var page := ptr - ptr % 4096;
      while page <= end
        invariant page % 4096 == 0 && PageOf(ptr) <= PageOf(page)
        invariant forall q :: PageOf(ptr) <= q < PageOf(page) && q <= PageOf(end) ==>
            Accessible(Lookup(mem, currentDir, q), write)
        decreases end + 4096 - page
      {
        var q := PageOf(page);
        UserPage(page);
        var e := mem[currentDir][q / 1024];
        if !Present(e) {
          assert !Accessible(Lookup(mem, currentDir, q), write);
          return false;
        }
        assert e == WordAt(mem, currentDir, q / 1024);
        var entry := mem[FrameOf(e)][q % 1024];
        if !Present(entry) || !UserAccess(entry) || (write && !Writable(entry)) {
          assert !Accessible(Lookup(mem, currentDir, q), write);
          return false;
        }
        page := page + 4096;
      }
      return true;
    }

    /** vmm_create_address_space: an empty user half and the kernel's upper half; 0 if no frame is free. */
    method CreateAddressSpace() returns (d: nat)
      requires Valid()
      modifies this`mem, this`pending, this`spaces, pmm`usedBlocks, pmm.bitmap
      ensures Valid() && pending == old(pending)
      ensures d == 0 ==> Value() == old(Value())
      ensures d == 0 <==> Spare(old(Value())) == 0
      ensures Spare(Value()) == Spare(old(Value())) - if d == 0 then 0 else 1
      ensures d != 0 ==>
          d !in old(pmm.Used()) && d < |mem| && d !in old(spaces) && spaces == old(spaces) + {d}
          && pmm.Used() == old(pmm.Used()) + {d}
      ensures d != 0 ==> forall i :: 0 <= i < USER_ENTRIES ==> WordAt(mem, d, i) == 0
      ensures d != 0 ==> forall i :: USER_ENTRIES <= i < 1024 ==>
          WordAt(mem, d, i) == if kernelDir == 0 then 0 else WordAt(mem, kernelDir, i)
      ensures Unchanged(old(mem), mem, old(pmm.Used()))
    {
      ghost var w0 := Value();
      d := AllocFrame();
      if d == 0 {
        return;
      }
      ghost var w := Value();
      FillDirectory(d);
      FillOwns(w, d, mem[d]);
      KernelKept(w.mem, mem, kernelDir, rest);
      assert forall i :: USER_ENTRIES <= i < 1024 ==>
          WordAt(mem, d, i) == if kernelDir == 0 then 0 else WordAt(w.mem, kernelDir, i);
      NewSpaceOwns(Value(), d);
      spaces := spaces + {d};
      pending := pending - {d};
      assert pending == w0.pending;
    }

    /** The contents of a new directory: zeros, and the kernel's upper half if there is a kernel directory. */
    method FillDirectory(d: nat)
      requires d < |mem| && kernelDir < |mem| && kernelDir != d
      modifies this`mem
      ensures |mem| == |old(mem)| && mem == old(mem)[d := mem[d]]
      ensures forall k :: 0 <= k < USER_ENTRIES ==> mem[d][k] == 0
      ensures forall k :: USER_ENTRIES <= k < 1024 ==> mem[d][k] == if kernelDir == 0 then 0 else mem[kernelDir][k]
    {
      ghost var m := mem;
      mem := mem[d := Zeros()];
      if kernelDir != 0 {
        for i := USER_ENTRIES to 1024
          modifies this`mem
          invariant |mem| == |m| && mem == m[d := mem[d]]
          invariant forall k :: 0 <= k < USER_ENTRIES || i <= k < 1024 ==> mem[d][k] == 0
          invariant forall k :: USER_ENTRIES <= k < i ==> mem[d][k] == m[kernelDir][k]
        {
          mem := Put(mem, d, i, mem[kernelDir][i]);
        }
      }
    }

    /** The inner loop of vmm_destroy_address_space: every present page of table i, then the table. */
    method DestroyTable(d: nat, i: nat, ghost w: World)
      requires pmm.Valid() && mem == w.mem && Owns(w) && d in w.spaces && i < USER_ENTRIES
      requires Live(w.mem, w.spaces, Table(d, i))
      requires Walked(w, pmm.Used(), d, i, 0)
      modifies pmm`usedBlocks, pmm.bitmap
      ensures pmm.Valid() && Walked(w, pmm.Used(), d, i + 1, 0)
    {
      assert Placed(w, Dir(d)) && Placed(w, Table(d, i));
      var t := FrameOf(mem[d][i]);
      for j := 0 to 1024
        invariant pmm.Valid() && Walked(w, pmm.Used(), d, i, j)
      {
        if Present(mem[t][j]) {
          FreeNext(w, pmm.Used(), d, i, j, i, j + 1, Page(d, i, j));
          pmm.FreeBlock(FrameOf(mem[t][j]));
        } else {
          SkipNext(w, pmm.Used(), d, i, j, i, j + 1);
        }
      }
      FreeNext(w, pmm.Used(), d, i, 1024, i + 1, 0, Table(d, i));
      pmm.FreeBlock(t);
    }

    /** vmm_destroy_address_space: exactly the frames of d go back; the other spaces keep theirs. */
    method DestroyAddressSpace(d: nat)
      requires Valid() && (d == 0 || d == kernelDir || d in spaces)
      modifies this`spaces, pmm`usedBlocks, pmm.bitmap
      ensures Valid() && spaces == old(spaces) - {d}
      ensures d !in old(spaces) ==> pmm.Used() == old(pmm.Used())
      ensures d in old(spaces) ==> forall f :: f in pmm.Used() <==>
          f in old(pmm.Used()) && !BelongsTo(old(Value()), d, f)
    {
      ghost var w := Value();
      if d == 0 || d == kernelDir {
        NotASpace(w, d);
        assert spaces - {d} == spaces;
        return;
      }
      assert Placed(w, Dir(d));
      assert forall f :: !Freed(w, d, 0, 0, f);
      for i := 0 to USER_ENTRIES
        modifies pmm`usedBlocks, pmm.bitmap
        invariant pmm.Valid() && Walked(w, pmm.Used(), d, i, 0)
      {
        if Present(mem[d][i]) {
          DestroyTable(d, i, w);
        } else {
          SkipNext(w, pmm.Used(), d, i, 0, i + 1, 0);
        }
      }
      WalkDone(w, pmm.Used(), d);
      pmm.FreeBlock(d);
      DropSpaceOwns(w, d, pmm.Used());
      spaces := spaces - {d};
    }
  }

  lemma NotASpace(w: World, d: nat)
    requires Owns(w) && d in w.rest
    ensures d !in w.spaces
  {
    assert Live(w.mem, w.spaces, Dir(d)) ==> Placed(w, Dir(d));
  }

  /** Clearing an entry that was not present changes no role. */
  lemma ClearEmptyOwns(w: World, d: nat, i: nat, j: nat)
    requires Owns(w) && Live(w.mem, w.spaces, Table(d, i)) && j < 1024 && !Live(w.mem, w.spaces, Page(d, i, j))
    ensures RoleFrame(w.mem, Table(d, i)) < |w.mem|
    ensures Owns(w.(mem := Put(w.mem, RoleFrame(w.mem, Table(d, i)), j, 0)))
  {
    WriteKeepsTables(w, d, i, j, 0);
    var w' := w.(mem := Put(w.mem, RoleFrame(w.mem, Table(d, i)), j, 0));
    forall r ensures Live(w'.mem, w'.spaces, r) <==> Live(w.mem, w.spaces, r)
             ensures Live(w.mem, w.spaces, r) ==> RoleFrame(w'.mem, r) == RoleFrame(w.mem, r) {
      WriteTable(w, d, i, j, 0, r);
    }
    SameRoles(w, w');
  }

  /** If no used frame changes, no role does. */
  lemma UnchangedSame(w: World, mem': Memory)
    requires Tables(w) && Unchanged(w.mem, mem', w.used)
    ensures SameSpaces(w.mem, mem', w.spaces)
  {
    forall r
      ensures (Live(mem', w.spaces, r) <==> Live(w.mem, w.spaces, r))
          && (Live(w.mem, w.spaces, r) ==> RoleFrame(mem', r) == RoleFrame(w.mem, r))
    {
      if r.d in w.spaces {
        assert Placed(w, Dir(r.d));
        assert mem'[r.d] == w.mem[r.d];
        if !r.Dir? && r.i < USER_ENTRIES && Present(WordAt(w.mem, r.d, r.i)) {
          assert Placed(w, Table(r.d, r.i));
          assert mem'[FrameOf(WordAt(w.mem, r.d, r.i))] == w.mem[FrameOf(WordAt(w.mem, r.d, r.i))];
        }
      }
    }
  }

  // ------------------------------------------------------------------ whole runs

  datatype PageOp = OpAlloc(virt: nat, flags: nat) | OpFree(virt: nat)

  ghost predicate UserOps(ops: seq<PageOp>) {
    forall k :: 0 <= k < |ops| ==> ops[k].virt < KERNEL_VIRTUAL_BASE && (ops[k].OpAlloc? ==> ops[k].flags < 4096)
  }

  /**
   One operation on address space d: a page is mapped to a fresh frame if it is unmapped and there are
   frames enough, or unmapped and its frame given back; all else stays.
   */
  ghost predicate PageStep(w: World, w': World, d: nat, op: PageOp) {
    && w'.spaces == w.spaces && w'.rest == w.rest && w'.pending == w.pending
    && SameSpaces(w.mem, w'.mem, w.spaces - {d})
    && match op
       case OpAlloc(virt, flags) =>
         if Present(Lookup(w.mem, d, PageOf(virt))) || Spare(w) < AllocNeed(w, d, virt) then w' == w
         else
           && Spare(w') == Spare(w) - AllocNeed(w, d, virt)
           && exists f :: f !in w.used &&
                OnePageChanged(w.mem, w'.mem, w.spaces, d, PageOf(virt), Entry(f, WithPresent(flags)))
       case OpFree(virt) =>
         && OnePageChanged(w.mem, w'.mem, w.spaces, d, PageOf(virt), 0)
         && w'.used == w.used - Displaced(w.mem, d, PageOf(virt))
  }

  /** Allocate if the page is unmapped, or free. */
  method Apply(v: Vmm, d: nat, op: PageOp)
    requires v.Valid() && d in v.spaces && op.virt < KERNEL_VIRTUAL_BASE && (op.OpAlloc? ==> op.flags < 4096)
    modifies v`mem, v`pending, v`rest, v.pmm`usedBlocks, v.pmm.bitmap
    ensures v.Valid() && PageStep(old(v.Value()), v.Value(), d, op)
  {
    ghost var w := v.Value();
    match op
    case OpAlloc(virt, flags) =>
      assert v.Structured();
      var mapped := v.IsMapped(d, virt);
      if mapped {
        UnchangedSame(w, v.mem);
        SmallerSame(v.mem, v.mem, v.spaces, d);
      } else {
        var _ := v.AllocPage(d, virt, flags);
        assert v.rest == w.rest;
      }
    case OpFree(virt) =>
      v.FreePage(d, virt);
  }

  lemma SmallerSame(mem: Memory, mem': Memory, spaces: set<nat>, d: nat)
    requires SameSpaces(mem, mem', spaces)
    ensures SameSpaces(mem, mem', spaces - {d})
  {
    var others := spaces - {d};
    forall r
      ensures (Live(mem', others, r) <==> Live(mem, others, r))
          && (Live(mem, others, r) ==> RoleFrame(mem', r) == RoleFrame(mem, r))
    {
      assert Live(mem', others, r) ==> Live(mem', spaces, r);
      assert Live(mem, others, r) ==> Live(mem, spaces, r);
    }
  }

  /** A new address space d with an empty user half. */
  ghost predicate SpaceAdded(w: World, w': World, d: nat) {
    && d !in w.used && d !in w.spaces && w'.spaces == w.spaces + {d} && w'.used == w.used + {d}
    && w'.rest == w.rest && w'.pending == w.pending
    && forall i :: 0 <= i < USER_ENTRIES ==> WordAt(w'.mem, d, i) == 0
  }

  ghost predicate Steps(trace: seq<World>, d: nat, ops: seq<PageOp>, n: nat)
    requires n <= |ops|
  {
    |trace| == n + 1 && forall k :: 0 <= k < n ==> PageStep(trace[k], trace[k + 1], d, ops[k])
  }

  /**
   Create an address space, run any sequence of page allocations and frees in it, destroy it: the
   bitmap and the counter are exactly what they were, whatever other address spaces exist. The trace
   holds the states between creation and destruction.
   */
  method CreateRunDestroy(v: Vmm, ops: seq<PageOp>) returns (d: nat, ghost trace: seq<World>)
    requires v.Valid() && UserOps(ops)
    modifies v`mem, v`pending, v`spaces, v`rest, v.pmm`usedBlocks, v.pmm.bitmap
    ensures d == 0 <==> Spare(old(v.Value())) == 0
    ensures d != 0 ==> Steps(trace, d, ops, |ops|) && SpaceAdded(old(v.Value()), trace[0], d)
    ensures v.Valid() && v.spaces == old(v.spaces) && v.rest == old(v.rest) && v.pending == old(v.pending)
    ensures v.pmm.Used() == old(v.pmm.Used()) && v.pmm.usedBlocks == old(v.pmm.usedBlocks)
  {
    ghost var w := v.Value();
    v.pmm.CounterExact();
    d := v.CreateAddressSpace();
    trace := [v.Value()];
    if d == 0 {
      v.pmm.CounterExact();
      return;
    }
    UnchangedSame(w, v.mem);
    assert v.spaces - {d} == w.spaces;
    for k := 0 to |ops|
      modifies v`mem, v`pending, v`rest, v.pmm`usedBlocks, v.pmm.bitmap
      invariant v.Valid() && v.pending == w.pending && v.rest == w.rest && d in v.spaces && v.spaces - {d} == w.spaces
      invariant SameSpaces(w.mem, v.mem, w.spaces)
      invariant Steps(trace, d, ops, k) && trace[k] == v.Value() && SpaceAdded(w, trace[0], d)
    {
      ghost var m := v.mem;
      Apply(v, d, ops[k]);
      trace := trace + [v.Value()];
      SameSpacesTrans(w.mem, m, v.mem, w.spaces);
    }
    v.DestroyAddressSpace(d);
    UsedIsDetermined(w, v.Value());
    v.pmm.CounterExact();
  }
}
