/**
 Two-level page tables in physical memory: the format (32-bit paging, section 4.3 of the Intel SDM,
 volume 3A), the flat map they stand for, and which frame belongs to which address space.
 */
module PageTables {
  import opened Words

  /** Directory entries below this one are user space; the rest are shared with the kernel. */
  const USER_ENTRIES: nat := 768

  const USER_PAGES: nat := 786432

  /** A frame is 1024 words; memory is the sequence of frames. */
  type Frame = f: seq<Word> | |f| == 1024 witness seq(1024, _ => 0)

  type Memory = m: seq<Frame> | |m| <= 0x10_0000

  predicate Present(w: nat) { w % 2 == 1 }

  predicate Writable(w: nat) { w / 2 % 2 == 1 }

  predicate UserAccess(w: nat) { w / 4 % 2 == 1 }

  /** w & ~0xFFF, as a frame number. */
  function FrameOf(w: nat): nat { w / 4096 }

  /** w & 0xFFF. */
  function FlagsOf(w: nat): nat { w % 4096 }

  /** A frame address combined with twelve flag bits. */
  function Entry(frame: nat, flags: nat): nat { frame * 4096 + flags }

  /** flags | PAGE_PRESENT. */
  function WithPresent(flags: nat): nat { if flags % 2 == 1 then flags else flags + 1 }

  lemma EntryParts(frame: nat, flags: nat)
    requires flags < 4096
    ensures FrameOf(Entry(frame, flags)) == frame && FlagsOf(Entry(frame, flags)) == flags
    ensures Present(Entry(frame, flags)) <==> flags % 2 == 1
    ensures frame < 0x10_0000 ==> Entry(frame, flags) < 0x1_0000_0000
  {
  }

  lemma WordParts(w: nat)
    ensures w == Entry(FrameOf(w), FlagsOf(w)) && FlagsOf(w) < 4096
    ensures Present(w) <==> FlagsOf(w) % 2 == 1
  {
  }

  /** Word k of frame f; 0 outside memory. */
  function WordAt(mem: Memory, f: nat, k: nat): Word {
    if f < |mem| && k < 1024 then mem[f][k] else 0
  }

  function Put(mem: Memory, f: nat, k: nat, w: Word): (r: Memory)
    requires f < |mem| && k < 1024
    ensures |r| == |mem|
  {
    mem[f := mem[f][k := w]]
  }

  lemma PutWord(mem: Memory, f: nat, k: nat, w: Word, f': nat, k': nat)
    requires f < |mem| && k < 1024
    ensures WordAt(Put(mem, f, k, w), f', k') == if f' == f && k' == k then w else WordAt(mem, f', k')
  {
  }

  /** A frame after memset to 0. */
  function Zeros(): (z: Frame)
    ensures forall k :: 0 <= k < 1024 ==> z[k] == 0
  {
    seq(1024, _ => 0)
  }

  // ------------------------------------------------------------------ flat map

  /** The table entry the hardware reads for a page, or 0 if its table is absent. */
  function Lookup(mem: Memory, d: nat, page: nat): Word {
    var e := WordAt(mem, d, page / 1024);
    if Present(e) then WordAt(mem, FrameOf(e), page % 1024) else 0
  }

  // ----------------------------------------------------------------- ownership

  /** What a frame can be for: a directory, the table of a directory entry, or a mapped user page. */
  datatype Role = Dir(d: nat) | Table(d: nat, i: nat) | Page(d: nat, i: nat, j: nat)

  /** The frame that plays the role. */
  function RoleFrame(mem: Memory, r: Role): nat {
    match r
    case Dir(d) => d
    case Table(d, i) => FrameOf(WordAt(mem, d, i))
    case Page(d, i, j) => FrameOf(WordAt(mem, FrameOf(WordAt(mem, d, i)), j))
  }

  predicate Live(mem: Memory, spaces: set<nat>, r: Role) {
    match r
    case Dir(d) => d in spaces
    case Table(d, i) => d in spaces && i < USER_ENTRIES && Present(WordAt(mem, d, i))
    case Page(d, i, j) =>
      && d in spaces && i < USER_ENTRIES && Present(WordAt(mem, d, i))
      && j < 1024 && Present(WordAt(mem, FrameOf(WordAt(mem, d, i)), j))
  }

  /**
   Physical memory, the allocator's used frames, the directories made by create, the frames used for
   anything else (the kernel, its tables, frame 0), and frames allocated but not yet linked anywhere.
   */
  datatype World = World(mem: Memory, used: set<nat>, spaces: set<nat>, rest: set<nat>, pending: set<nat>)

  ghost predicate Placed(w: World, r: Role) {
    var f := RoleFrame(w.mem, r);
    f in w.used && f !in w.rest && f !in w.pending && f < |w.mem|
  }

  ghost predicate Distinct(w: World, r: Role, q: Role) {
    RoleFrame(w.mem, r) == RoleFrame(w.mem, q) ==> r == q
  }

  ghost predicate HasOwner(w: World, f: nat) {
    exists r :: Live(w.mem, w.spaces, r) && RoleFrame(w.mem, r) == f
  }

  /** Directories and tables are used frames of their own, and kernel entries lead to the rest. */
  ghost predicate Tables(w: World) {
    && 0 in w.rest && w.rest <= w.used && w.pending <= w.used && w.rest !! w.pending
    && (forall f :: f in w.pending ==> f < |w.mem|)
    && (forall r {:trigger Placed(w, r)} :: Live(w.mem, w.spaces, r) && !r.Page? ==> Placed(w, r))
    && (forall r, q {:trigger Distinct(w, r, q)} ::
          Live(w.mem, w.spaces, r) && Live(w.mem, w.spaces, q) && !r.Page? && !q.Page? ==> Distinct(w, r, q))
    && (forall d, i {:trigger WordAt(w.mem, d, i)} ::
          d in w.spaces && USER_ENTRIES <= i < 1024 && Present(WordAt(w.mem, d, i)) ==>
              FrameOf(WordAt(w.mem, d, i)) in w.rest)
  }

  /** Every directory, table and user page has one owner; every used frame is owned, pending or part of the rest. */
  ghost predicate Owns(w: World) {
    && Tables(w)
    && (forall r {:trigger Placed(w, r)} :: Live(w.mem, w.spaces, r) ==> Placed(w, r))
    && (forall r, q {:trigger Distinct(w, r, q)} :: Live(w.mem, w.spaces, r) && Live(w.mem, w.spaces, q) ==>
        Distinct(w, r, q))
    && (forall f {:trigger HasOwner(w, f)} :: f in w.used ==> f in w.rest || f in w.pending || HasOwner(w, f))
  }

  // ------------------------------------------------------ one word in one table

  /** Writing entry j of the table of directory entry i moves no directory or table, and only page (i, j). */
  lemma WriteTable(w: World, d: nat, i: nat, j: nat, v: Word, r: Role)
    requires Tables(w) && Live(w.mem, w.spaces, Table(d, i)) && j < 1024
    ensures var t := RoleFrame(w.mem, Table(d, i));
            && t < |w.mem|
            && var mem' := Put(w.mem, t, j, v);
            if r == Page(d, i, j) then
              (Live(mem', w.spaces, r) <==> Present(v)) && RoleFrame(mem', r) == FrameOf(v)
            else
              (Live(mem', w.spaces, r) <==> Live(w.mem, w.spaces, r))
                  && (Live(w.mem, w.spaces, r) ==> RoleFrame(mem', r) == RoleFrame(w.mem, r))
  {
    var t := RoleFrame(w.mem, Table(d, i));
    assert Placed(w, Table(d, i));
    var mem' := Put(w.mem, t, j, v);
    match r
    case Dir(_) =>
    case Table(d', i') =>
      if d' in w.spaces {
        assert Distinct(w, Dir(d'), Table(d, i));
        PutWord(w.mem, t, j, v, d', i');
      }
    case Page(d', i', j') =>
      if d' in w.spaces {
        assert Distinct(w, Dir(d'), Table(d, i));
        PutWord(w.mem, t, j, v, d', i');
        if i' < USER_ENTRIES && Present(WordAt(w.mem, d', i')) {
          assert Distinct(w, Table(d', i'), Table(d, i));
          PutWord(w.mem, t, j, v, FrameOf(WordAt(w.mem, d', i')), j');
        }
      }
  }

  /** The same write, seen through the flat map of every address space: one page changes. */
  lemma WriteTableFlat(w: World, d: nat, page: nat, v: Word, d': nat, q: nat)
    requires Tables(w) && Live(w.mem, w.spaces, Table(d, page / 1024)) && page < USER_PAGES
    requires d' in w.spaces && q < 0x10_0000
    ensures var t := RoleFrame(w.mem, Table(d, page / 1024));
            && t < |w.mem|
            && Lookup(Put(w.mem, t, page % 1024, v), d', q) == if d' == d && q == page then v else Lookup(w.mem, d', q)
  {
    var t := RoleFrame(w.mem, Table(d, page / 1024));
    assert Placed(w, Table(d, page / 1024));
    assert Distinct(w, Dir(d'), Table(d, page / 1024));
    PutWord(w.mem, t, page % 1024, v, d', q / 1024);
    var e := WordAt(w.mem, d', q / 1024);
    if Present(e) {
      PutWord(w.mem, t, page % 1024, v, FrameOf(e), q % 1024);
      if q / 1024 < USER_ENTRIES {
        assert Distinct(w, Table(d', q / 1024), Table(d, page / 1024));
        assert q / 1024 == page / 1024 && q % 1024 == page % 1024 ==> q == page;
      }
    }
  }

  /** Directory or table frames, as opposed to page frames. */
  lemma PendingIsUnlinked(w: World, f: nat, r: Role)
    requires Tables(w) && f in w.pending && Live(w.mem, w.spaces, r) && !r.Page?
    ensures RoleFrame(w.mem, r) != f
  {
    assert Placed(w, r);
  }

  // --------------------------------------------------- allocation, not yet linked

  function Reserve(w: World, f: nat): World {
    w.(used := w.used + {f}, pending := w.pending + {f})
  }

  function Release(w: World, f: nat): World {
    w.(used := w.used - {f}, pending := w.pending - {f})
  }

  lemma ReserveOwns(w: World, f: nat)
    requires f !in w.used && f < |w.mem|
    ensures Tables(w) ==> Tables(Reserve(w, f))
    ensures Owns(w) ==> Owns(Reserve(w, f))
  {
    var w' := Reserve(w, f);
    assert forall r :: Placed(w, r) ==> Placed(w', r);
    assert forall r, q :: Distinct(w, r, q) ==> Distinct(w', r, q);
    assert forall g :: HasOwner(w, g) ==> HasOwner(w', g);
    if Owns(w) { assert w'.mem == w.mem; }
  }

  lemma ReleaseOwns(w: World, f: nat)
    requires f in w.pending
    ensures Tables(w) ==> Tables(Release(w, f))
    ensures Owns(w) ==> Owns(Release(w, f))
  {
    var w' := Release(w, f);
    assert forall r :: Placed(w, r) ==> Placed(w', r);
    assert forall r, q :: Distinct(w, r, q) ==> Distinct(w', r, q);
    assert forall g :: HasOwner(w, g) ==> HasOwner(w', g);
  }

  function FillPending(w: World, f: nat, c: Frame): World
    requires f < |w.mem|
  {
    w.(mem := w.mem[f := c])
  }

  /** Filling a pending frame is invisible to every address space. */
  lemma FillRoles(w: World, f: nat, c: Frame, r: Role)
    requires Tables(w) && f in w.pending && f < |w.mem|
    ensures var mem' := FillPending(w, f, c).mem;
            && (Live(mem', w.spaces, r) <==> Live(w.mem, w.spaces, r))
            && (Live(w.mem, w.spaces, r) ==> RoleFrame(mem', r) == RoleFrame(w.mem, r))
  {
    if r.d in w.spaces {
      PendingIsUnlinked(w, f, Dir(r.d));
      if !r.Dir? && r.i < USER_ENTRIES && Present(WordAt(w.mem, r.d, r.i)) {
        PendingIsUnlinked(w, f, Table(r.d, r.i));
      }
    }
  }

  lemma FillFlat(w: World, f: nat, c: Frame, d: nat, q: nat)
    requires Tables(w) && f in w.pending && f < |w.mem| && d in w.spaces && q < 0x10_0000
    ensures Lookup(FillPending(w, f, c).mem, d, q) == Lookup(w.mem, d, q)
  {
    PendingIsUnlinked(w, f, Dir(d));
    var e := WordAt(w.mem, d, q / 1024);
    if Present(e) {
      if q / 1024 < USER_ENTRIES {
        PendingIsUnlinked(w, f, Table(d, q / 1024));
      } else {
        assert FrameOf(e) in w.rest;
      }
    }
  }

  lemma FillOwns(w: World, f: nat, c: Frame)
    requires Tables(w) && f in w.pending && f < |w.mem|
    ensures Tables(FillPending(w, f, c))
    ensures Owns(w) ==> Owns(FillPending(w, f, c))
  {
    var w' := FillPending(w, f, c);
    forall r ensures Live(w'.mem, w'.spaces, r) <==> Live(w.mem, w.spaces, r)
             ensures Live(w.mem, w.spaces, r) ==> RoleFrame(w'.mem, r) == RoleFrame(w.mem, r) {
      FillRoles(w, f, c, r);
    }
    SameRoles(w, w');
    forall d, i | d in w'.spaces && USER_ENTRIES <= i < 1024 && Present(WordAt(w'.mem, d, i))
      ensures FrameOf(WordAt(w'.mem, d, i)) in w'.rest
    {
      PendingIsUnlinked(w, f, Dir(d));
      assert WordAt(w'.mem, d, i) == WordAt(w.mem, d, i);
    }
  }

  /** If no role changes, neither does ownership. */
  lemma SameRoles(w: World, w': World)
    requires w'.spaces == w.spaces && w'.used == w.used && w'.rest == w.rest && w'.pending == w.pending
    requires |w'.mem| == |w.mem|
    requires forall r {:trigger Live(w'.mem, w'.spaces, r)} {:trigger Live(w.mem, w.spaces, r)} ::
               (Live(w'.mem, w'.spaces, r) <==> Live(w.mem, w.spaces, r))
               && (Live(w.mem, w.spaces, r) ==> RoleFrame(w'.mem, r) == RoleFrame(w.mem, r))
    ensures forall r :: Live(w'.mem, w'.spaces, r) && Placed(w, r) ==> Placed(w', r)
    ensures forall r, q :: Live(w'.mem, w'.spaces, r) && Live(w'.mem, w'.spaces, q) && Distinct(w, r, q) ==>
        Distinct(w', r, q)
    ensures forall f :: HasOwner(w, f) ==> HasOwner(w', f)
  {
    forall f | HasOwner(w, f) ensures HasOwner(w', f) {
      var r :| Live(w.mem, w.spaces, r) && RoleFrame(w.mem, r) == f;
      assert Live(w'.mem, w'.spaces, r);
    }
  }

  // -------------------------------------------------------- linking a table frame

  /** Directory entry i now points to frame t. */
  function Link(w: World, d: nat, i: nat, t: nat, flags: nat): World
    requires d < |w.mem| && i < 1024 && t < |w.mem| && flags < 4096
  {
    w.(mem := Put(w.mem, d, i, Entry(t, flags)))
  }

  lemma LinkRoles(w: World, d: nat, i: nat, t: nat, flags: nat, r: Role)
    requires Tables(w) && d in w.spaces && i < USER_ENTRIES && !Present(WordAt(w.mem, d, i))
    requires t in w.pending && t < |w.mem| && flags < 4096 && flags % 2 == 1
    ensures d < |w.mem| && t != d
    ensures var mem' := Link(w, d, i, t, flags).mem;
            match r
            case Dir(_) => Live(mem', w.spaces, r) <==> Live(w.mem, w.spaces, r)
            case Table(d', i') =>
              if d' == d && i' == i then Live(mem', w.spaces, r) && RoleFrame(mem', r) == t
              else (Live(mem', w.spaces, r) <==> Live(w.mem, w.spaces, r)) && RoleFrame(mem', r) == RoleFrame(w.mem, r)
            case Page(d', i', j') =>
              if d' == d && i' == i then
                && (Live(mem', w.spaces, r) <==> j' < 1024 && Present(WordAt(w.mem, t, j')))
                && RoleFrame(mem', r) == FrameOf(WordAt(w.mem, t, j'))
              else
                && (Live(mem', w.spaces, r) <==> Live(w.mem, w.spaces, r))
                && (Live(w.mem, w.spaces, r) ==> RoleFrame(mem', r) == RoleFrame(w.mem, r))
  {
    assert Placed(w, Dir(d));
    EntryParts(t, flags);
    if !r.Dir? {
      PutWord(w.mem, d, i, Entry(t, flags), r.d, r.i);
      if r.Page? && r.d in w.spaces && r.i < USER_ENTRIES {
        if r.d == d && r.i == i {
          PutWord(w.mem, d, i, Entry(t, flags), t, r.j);
        } else if Present(WordAt(w.mem, r.d, r.i)) {
          assert Distinct(w, Table(r.d, r.i), Dir(d));
          PutWord(w.mem, d, i, Entry(t, flags), FrameOf(WordAt(w.mem, r.d, r.i)), r.j);
        }
      }
    }
  }

  lemma LinkFlat(w: World, d: nat, i: nat, t: nat, flags: nat, d': nat, q: nat)
    requires Tables(w) && d in w.spaces && i < USER_ENTRIES && !Present(WordAt(w.mem, d, i))
    requires t in w.pending && t < |w.mem| && flags < 4096 && flags % 2 == 1
    requires d' in w.spaces && q < 0x10_0000
    ensures d < |w.mem|
    ensures Lookup(Link(w, d, i, t, flags).mem, d', q) ==
            if d' == d && q / 1024 == i then WordAt(w.mem, t, q % 1024) else Lookup(w.mem, d', q)
  {
    assert Placed(w, Dir(d)) && Placed(w, Dir(d'));
    EntryParts(t, flags);
    var v := Entry(t, flags);
    PutWord(w.mem, d, i, v, d', q / 1024);
    var e := WordAt(w.mem, d', q / 1024);
    if d' == d && q / 1024 == i {
      PutWord(w.mem, d, i, v, t, q % 1024);
    } else if Present(e) {
      PutWord(w.mem, d, i, v, FrameOf(e), q % 1024);
      if q / 1024 < USER_ENTRIES {
        assert Distinct(w, Table(d', q / 1024), Dir(d));
      } else {
        assert FrameOf(e) in w.rest;
      }
    }
  }

  /** The frames the present entries of table frame t name. */
  ghost function PagesOf(mem: Memory, t: nat): set<nat> {
    set j | 0 <= j < 1024 && Present(WordAt(mem, t, j)) :: FrameOf(WordAt(mem, t, j))
  }

  /** Present entries of table frame t name pairwise different frames other than t, all pending. */
  ghost predicate ReadyToLink(w: World, t: nat) {
    && (forall j :: 0 <= j < 1024 && Present(WordAt(w.mem, t, j)) ==>
          FrameOf(WordAt(w.mem, t, j)) in w.pending && FrameOf(WordAt(w.mem, t, j)) != t)
    && (forall j, k :: 0 <= j < k < 1024 && Present(WordAt(w.mem, t, j)) && Present(WordAt(w.mem, t, k)) ==>
          FrameOf(WordAt(w.mem, t, j)) != FrameOf(WordAt(w.mem, t, k)))
  }

  /** Linking a prepared table turns it and its pages from pending into owned. */
  lemma LinkOwns(w: World, d: nat, i: nat, t: nat, flags: nat)
    requires Owns(w) && d in w.spaces && i < USER_ENTRIES && !Present(WordAt(w.mem, d, i))
    requires t in w.pending && t < |w.mem| && flags < 4096 && flags % 2 == 1 && ReadyToLink(w, t)
    ensures d < |w.mem|
    ensures Owns(Link(w, d, i, t, flags).(pending := w.pending - {t} - PagesOf(w.mem, t)))
  {
    assert Placed(w, Dir(d));
    var w' := Link(w, d, i, t, flags).(pending := w.pending - {t} - PagesOf(w.mem, t));
    forall r | Live(w'.mem, w'.spaces, r) ensures Placed(w', r) {
      LinkRoles(w, d, i, t, flags, r);
      assert Live(w.mem, w.spaces, r) ==> Placed(w, r);
    }
    forall r, q | Live(w'.mem, w'.spaces, r) && Live(w'.mem, w'.spaces, q) ensures Distinct(w', r, q) {
      LinkRoles(w, d, i, t, flags, r);
      LinkRoles(w, d, i, t, flags, q);
      assert Live(w.mem, w.spaces, r) && Live(w.mem, w.spaces, q) ==> Distinct(w, r, q);
      assert Live(w.mem, w.spaces, r) ==> Placed(w, r);
      assert Live(w.mem, w.spaces, q) ==> Placed(w, q);
    }
    forall f | f in w'.used ensures f in w'.rest || f in w'.pending || HasOwner(w', f) {
      LinkOwners(w, d, i, t, flags, f);
    }
    forall e, k | e in w'.spaces && USER_ENTRIES <= k < 1024 && Present(WordAt(w'.mem, e, k))
      ensures FrameOf(WordAt(w'.mem, e, k)) in w'.rest
    {
      PutWord(w.mem, d, i, Entry(t, flags), e, k);
    }
  }

  lemma LinkOwners(w: World, d: nat, i: nat, t: nat, flags: nat, f: nat)
    requires Owns(w) && d in w.spaces && i < USER_ENTRIES && !Present(WordAt(w.mem, d, i))
    requires t in w.pending && t < |w.mem| && flags < 4096 && flags % 2 == 1 && f in w.used && d < |w.mem|
    ensures var w' := Link(w, d, i, t, flags).(pending := w.pending - {t} - PagesOf(w.mem, t));
            f in w'.rest || f in w'.pending || HasOwner(w', f)
  {
    var w' := Link(w, d, i, t, flags).(pending := w.pending - {t} - PagesOf(w.mem, t));
    if f == t {
      LinkRoles(w, d, i, t, flags, Table(d, i));
      assert Live(w'.mem, w'.spaces, Table(d, i)) && RoleFrame(w'.mem, Table(d, i)) == f;
    } else if f in PagesOf(w.mem, t) {
      var j :| 0 <= j < 1024 && Present(WordAt(w.mem, t, j)) && FrameOf(WordAt(w.mem, t, j)) == f;
      LinkRoles(w, d, i, t, flags, Page(d, i, j));
      assert Live(w'.mem, w'.spaces, Page(d, i, j)) && RoleFrame(w'.mem, Page(d, i, j)) == f;
    } else if f !in w.rest && f !in w.pending {
      assert HasOwner(w, f);
      var r :| Live(w.mem, w.spaces, r) && RoleFrame(w.mem, r) == f;
      LinkRoles(w, d, i, t, flags, r);
      assert Live(w'.mem, w'.spaces, r) && RoleFrame(w'.mem, r) == f;
    }
  }

  // ------------------------------------------------------- mapping and unmapping

  /** Any write into a user table keeps the directories and tables in order. */
  lemma WriteKeepsTables(w: World, d: nat, i: nat, j: nat, v: Word)
    requires Tables(w) && Live(w.mem, w.spaces, Table(d, i)) && j < 1024
    ensures RoleFrame(w.mem, Table(d, i)) < |w.mem|
    ensures Tables(w.(mem := Put(w.mem, RoleFrame(w.mem, Table(d, i)), j, v)))
  {
    var t := RoleFrame(w.mem, Table(d, i));
    assert Placed(w, Table(d, i));
    var w' := w.(mem := Put(w.mem, t, j, v));
    forall r | Live(w'.mem, w'.spaces, r) && !r.Page? ensures Placed(w', r) {
      WriteTable(w, d, i, j, v, r);
      assert Placed(w, r);
    }
    forall r, q | Live(w'.mem, w'.spaces, r) && Live(w'.mem, w'.spaces, q) && !r.Page? && !q.Page?
      ensures Distinct(w', r, q)
    {
      WriteTable(w, d, i, j, v, r);
      WriteTable(w, d, i, j, v, q);
      assert Distinct(w, r, q);
    }
    forall e, k | e in w'.spaces && USER_ENTRIES <= k < 1024 && Present(WordAt(w'.mem, e, k))
      ensures FrameOf(WordAt(w'.mem, e, k)) in w'.rest
    {
      assert Distinct(w, Dir(e), Table(d, i));
      PutWord(w.mem, t, j, v, e, k);
    }
  }

  /** An unmapped page gets a pending frame: the frame is now owned. */
  lemma MapOwns(w: World, d: nat, i: nat, j: nat, f: nat, flags: nat)
    requires Owns(w) && Live(w.mem, w.spaces, Table(d, i)) && j < 1024 && !Live(w.mem, w.spaces, Page(d, i, j))
    requires f in w.pending && f < |w.mem| && flags < 4096 && flags % 2 == 1
    ensures RoleFrame(w.mem, Table(d, i)) < |w.mem|
    ensures Owns(w.(mem := Put(w.mem, RoleFrame(w.mem, Table(d, i)), j, Entry(f, flags)), pending := w.pending - {f}))
  {
    var t := RoleFrame(w.mem, Table(d, i));
    var v := Entry(f, flags);
    EntryParts(f, flags);
    WriteKeepsTables(w, d, i, j, v);
    var w' := w.(mem := Put(w.mem, t, j, v), pending := w.pending - {f});
    forall r | Live(w'.mem, w'.spaces, r) ensures Placed(w', r) {
      WriteTable(w, d, i, j, v, r);
      assert Live(w.mem, w.spaces, r) ==> Placed(w, r);
    }
    forall r, q | Live(w'.mem, w'.spaces, r) && Live(w'.mem, w'.spaces, q) ensures Distinct(w', r, q) {
      WriteTable(w, d, i, j, v, r);
      WriteTable(w, d, i, j, v, q);
      assert Live(w.mem, w.spaces, r) && Live(w.mem, w.spaces, q) ==> Distinct(w, r, q);
      assert Live(w.mem, w.spaces, r) ==> Placed(w, r);
      assert Live(w.mem, w.spaces, q) ==> Placed(w, q);
    }
    forall g | g in w'.used ensures g in w'.rest || g in w'.pending || HasOwner(w', g) {
      if g == f {
        WriteTable(w, d, i, j, v, Page(d, i, j));
        assert Live(w'.mem, w'.spaces, Page(d, i, j));
      } else if g !in w.rest && g !in w.pending {
        assert HasOwner(w, g);
        var r :| Live(w.mem, w.spaces, r) && RoleFrame(w.mem, r) == g;
        WriteTable(w, d, i, j, v, r);
        assert Live(w'.mem, w'.spaces, r) && RoleFrame(w'.mem, r) == g;
      }
    }
  }

  /** A mapped page is unmapped: its frame is pending again. */
  lemma UnmapOwns(w: World, d: nat, i: nat, j: nat)
    requires Owns(w) && Live(w.mem, w.spaces, Page(d, i, j))
    ensures RoleFrame(w.mem, Table(d, i)) < |w.mem|
    ensures var f := RoleFrame(w.mem, Page(d, i, j));
            Owns(w.(mem := Put(w.mem, RoleFrame(w.mem, Table(d, i)), j, 0), pending := w.pending + {f}))
  {
    var t := RoleFrame(w.mem, Table(d, i));
    var f := RoleFrame(w.mem, Page(d, i, j));
    WriteKeepsTables(w, d, i, j, 0);
    assert Placed(w, Page(d, i, j));
    var w' := w.(mem := Put(w.mem, t, j, 0), pending := w.pending + {f});
    forall r | Live(w'.mem, w'.spaces, r) ensures Placed(w', r) {
      WriteTable(w, d, i, j, 0, r);
      assert Placed(w, r) && Distinct(w, r, Page(d, i, j));
    }
    forall r, q | Live(w'.mem, w'.spaces, r) && Live(w'.mem, w'.spaces, q) ensures Distinct(w', r, q) {
      WriteTable(w, d, i, j, 0, r);
      WriteTable(w, d, i, j, 0, q);
      assert Distinct(w, r, q);
    }
    forall g | g in w'.used ensures g in w'.rest || g in w'.pending || HasOwner(w', g) {
      if g != f && g !in w.rest && g !in w.pending {
        assert HasOwner(w, g);
        var r :| Live(w.mem, w.spaces, r) && RoleFrame(w.mem, r) == g;
        WriteTable(w, d, i, j, 0, r);
        assert Live(w'.mem, w'.spaces, r) && RoleFrame(w'.mem, r) == g;
      }
    }
  }

  // ------------------------------------------------------- whole address spaces

  /** The two memories give the same roles and frames to the address spaces in the set. */
  ghost predicate SameSpaces(mem: Memory, mem': Memory, spaces: set<nat>) {
    forall r {:trigger Live(mem', spaces, r)} {:trigger Live(mem, spaces, r)} ::
      && (Live(mem', spaces, r) <==> Live(mem, spaces, r))
      && (Live(mem, spaces, r) ==> RoleFrame(mem', r) == RoleFrame(mem, r))
  }

  /** A frame counts as used only if some role, the rest or a pending allocation needs it. */
  lemma UsedIsDetermined(w: World, w': World)
    requires Owns(w) && Owns(w') && w'.spaces == w.spaces && w'.rest == w.rest && w'.pending == w.pending
    requires SameSpaces(w.mem, w'.mem, w.spaces)
    ensures w'.used == w.used
  {
    forall f ensures f in w'.used <==> f in w.used {
      if f in w.used && f !in w.rest && f !in w.pending {
        assert HasOwner(w, f);
        var r :| Live(w.mem, w.spaces, r) && RoleFrame(w.mem, r) == f;
        assert Live(w'.mem, w'.spaces, r) && Placed(w', r);
      }
      if f in w'.used && f !in w.rest && f !in w.pending {
        assert HasOwner(w', f);
        var r :| Live(w'.mem, w'.spaces, r) && RoleFrame(w'.mem, r) == f;
        assert Live(w.mem, w.spaces, r) && Placed(w, r);
      }
    }
  }

  /** A directory with an empty user half and kernel entries that lead to the rest becomes an address space. */
  ghost predicate FreshDirectory(w: World, d: nat) {
    && d in w.pending && d < |w.mem|
    && (forall i :: 0 <= i < USER_ENTRIES ==> !Present(WordAt(w.mem, d, i)))
    && (forall i :: USER_ENTRIES <= i < 1024 && Present(WordAt(w.mem, d, i)) ==> FrameOf(WordAt(w.mem, d, i)) in w.rest)
  }

  lemma NewSpaceOwns(w: World, d: nat)
    requires Owns(w) && FreshDirectory(w, d)
    ensures d !in w.spaces
    ensures Owns(w.(spaces := w.spaces + {d}, pending := w.pending - {d}))
  {
    if d in w.spaces { PendingIsUnlinked(w, d, Dir(d)); }
    var w' := w.(spaces := w.spaces + {d}, pending := w.pending - {d});
    forall r | Live(w'.mem, w'.spaces, r) ensures Placed(w', r) && (r != Dir(d) ==> Live(w.mem, w.spaces, r)) {
      assert r != Dir(d) ==> Live(w.mem, w.spaces, r) && Placed(w, r);
    }
    forall r, q | Live(w'.mem, w'.spaces, r) && Live(w'.mem, w'.spaces, q) ensures Distinct(w', r, q) {
      assert r != Dir(d) ==> Live(w.mem, w.spaces, r) && Placed(w, r);
      assert q != Dir(d) ==> Live(w.mem, w.spaces, q) && Placed(w, q);
      assert r != Dir(d) && q != Dir(d) ==> Distinct(w, r, q);
    }
    forall f | f in w'.used ensures f in w'.rest || f in w'.pending || HasOwner(w', f) {
      if f == d {
        assert Live(w'.mem, w'.spaces, Dir(d)) && RoleFrame(w'.mem, Dir(d)) == f;
      } else if f !in w.rest && f !in w.pending {
        assert HasOwner(w, f);
        var r :| Live(w.mem, w.spaces, r) && RoleFrame(w.mem, r) == f;
        assert Live(w'.mem, w'.spaces, r) && RoleFrame(w'.mem, r) == f;
      }
    }
  }

  /** The frame belongs to address space d. */
  ghost predicate BelongsTo(w: World, d: nat, f: nat) {
    exists r :: Live(w.mem, w.spaces, r) && r.d == d && RoleFrame(w.mem, r) == f
  }

  /** Giving back exactly the frames of d removes it and leaves the others as they were. */
  lemma DropSpaceOwns(w: World, d: nat, used: set<nat>)
    requires Owns(w) && d in w.spaces
    requires forall f {:trigger f in used} {:trigger BelongsTo(w, d, f)} :: f in used <==>
        f in w.used && !BelongsTo(w, d, f)
    ensures Owns(w.(spaces := w.spaces - {d}, used := used))
    ensures SameSpaces(w.mem, w.mem, w.spaces - {d})
  {
    var w' := w.(spaces := w.spaces - {d}, used := used);
    forall r | Live(w'.mem, w'.spaces, r) ensures Placed(w', r) {
      assert Live(w.mem, w.spaces, r) && Placed(w, r);
      forall q | Live(w.mem, w.spaces, q) && q.d == d ensures RoleFrame(w.mem, q) != RoleFrame(w.mem, r) {
        assert Distinct(w, r, q);
      }
      assert !BelongsTo(w, d, RoleFrame(w.mem, r));
      assert RoleFrame(w.mem, r) in used;
    }
    forall r, q | Live(w'.mem, w'.spaces, r) && Live(w'.mem, w'.spaces, q) ensures Distinct(w', r, q) {
      assert Live(w.mem, w.spaces, r) && Live(w.mem, w.spaces, q) && Distinct(w, r, q);
    }
    forall f | f in w.rest || f in w.pending ensures f in used {
      forall q | Live(w.mem, w.spaces, q) ensures RoleFrame(w.mem, q) != f {
        assert Placed(w, q);
      }
      assert !BelongsTo(w, d, f);
    }
    forall f | f in w'.used ensures f in w'.rest || f in w'.pending || HasOwner(w', f) {
      if f !in w.rest && f !in w.pending {
        assert HasOwner(w, f);
        var r :| Live(w.mem, w.spaces, r) && RoleFrame(w.mem, r) == f;
        assert r.d != d;
        assert Live(w'.mem, w'.spaces, r) && RoleFrame(w'.mem, r) == f;
      }
    }
  }
}
