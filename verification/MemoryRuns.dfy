/** Memory and a pool's region table together, over whole runs: what is mapped in the pool's range is
    always allocated. */
module MemoryRuns {
  import opened PhysicalMemory
  import opened FramePools
  import opened Paging
  import opened Translation
  import opened Accounting
  import opened Faults
  import opened PageRelease
  import opened WindowFaults
  import opened PageRuns
  import opened RegionPages
  import opened Regions

  /** The pool's pages lie outside the first and last 4 MB. */
  ghost predicate Inside(r: Range) {
    r.Valid() && 0x40_0000 <= r.base && r.base + r.size <= 0xFFC0_0000
  }

  function PageBase(d: nat, t: nat): nat {
    4096 * (1024 * d + t)
  }

  predicate InRange(r: Range, d: nat, t: nat) {
    r.base <= PageBase(d, t) < r.base + r.size
  }

  /** Every page mapped in the pool's range lies in a live region. */
  ghost predicate MappedIsLive(s: Ram, t: RegionTable, r: Range, pd: nat)
    requires pd < FRAMES && t.Shaped()
  {
    forall d: nat, j: nat | Ordinary(d) && j < 1024 && InRange(r, d, j) && Lookup(s, pd, d, j).Some? ::
      Live(t, PageBase(d, j))
  }

  /** Memory is well formed, the regions tile the range, and only live pages of it are mapped. */
  ghost predicate Joined(s: Ram, t: RegionTable, r: Range, p: Pool, pd: nat) {
    && pd < FRAMES && Tiles(t, r) && MappedIsLive(s, t, r, pd)
    && exists owner: Owners :: WellFormed(s, p, pd, owner)
  }

  /** A request; a fault at a live address; a release of a region with its pages; or what other pools and
      programs do: a fault or release of a page outside the range, or any store. */
  datatype MemoryOp = Request(size: Word) | Fault(va: Word) | GiveUp(start: nat) | Other(op: PageOp)

  ghost predicate Elsewhere(r: Range, op: PageOp) {
    match op
    case Touch(d, t) => !InRange(r, d, t)
    case Drop(d, t) => !InRange(r, d, t)
    case Put(va, v) => true
  }

  ghost predicate CanDo(s: Ram, t: RegionTable, r: Range, st: Statics, p: Pool, pd: nat, op: MemoryOp)
    requires st.Fits() && pd < FRAMES && t.Shaped()
  {
    match op
    case Request(size) => true
    case Fault(va) =>
      && Live(t, va) && Lookup(s, pd, DirectoryIndex(va), TableIndex(va)).None?
      && Ordinary(DirectoryIndex(va)) && Handles(s, p, pd, DirectoryIndex(va))
    case GiveUp(start) =>
      Find(t, start, 0).Some? ==>
        var g := t.regions[Find(t, start, 0).value];
        CanFreePages(s, st, p, pd, g.base / 4096, g.size / 4096)
    case Other(op) => Elsewhere(r, op) && Possible(s, p, pd, op)
  }

  ghost function Done(s: Ram, t: RegionTable, r: Range, st: Statics, p: Pool, pd: nat, op: MemoryOp): (Ram, RegionTable)
    requires st.Fits() && pd < FRAMES && t.Shaped() && CanDo(s, t, r, st, p, pd, op)
  {
    match op
    case Request(size) => (s, Allocate(t, RoundUp(size)).1)
    case Fault(va) => (HandleFault(s, p, pd, DirectoryIndex(va), TableIndex(va), 0).1, t)
    case GiveUp(start) =>
      (match Find(t, start, 0)
       case None => s
       case Some(i) => FreePages(s, st, p, pd, t.regions[i].base / 4096, t.regions[i].size / 4096),
       Release(t, start))
    case Other(op) => (PageStep(s, st, p, pd, op), t)
  }

  // ----- the steps -----

  lemma RequestJoins(s: Ram, t: RegionTable, r: Range, p: Pool, pd: nat, size: Word)
    requires Joined(s, t, r, p, pd) && Inside(r)
    ensures Joined(s, Allocate(t, RoundUp(size)).1, r, p, pd)
  {
    hide WellFormed, Lookup, Allocate, Tiles, Covers, Live, RoundUp;
    RoundUpCovers(size);
    TilesShaped(t, r);
    AllocateTiles(t, r, RoundUp(size));
    AllocateTheorem(t, r, RoundUp(size));
  }

  /** The base of a page that holds a live address is live. */
  lemma LivePage(t: RegionTable, r: Range, va: Word)
    requires Tiles(t, r) && Live(t, va)
    ensures Live(t, PageBase(DirectoryIndex(va), TableIndex(va)))
  {
    AddressParts(va);
    var i :| 0 <= i <= t.last && t.regions[i].Holds(va) && !t.regions[i].available;
    PageStartIn(t.regions[i].base, va);
    assert t.regions[i].Holds(PageBase(DirectoryIndex(va), TableIndex(va)));
  }

  lemma PageStartIn(base: nat, va: nat)
    requires base % 4096 == 0 && base <= va
    ensures base <= va - va % 4096
  {
  }

  lemma FaultJoins(s: Ram, t: RegionTable, r: Range, p: Pool, pd: nat, va: Word)
    requires Joined(s, t, r, p, pd) && Inside(r) && t.Shaped() && Live(t, va)
    requires Lookup(s, pd, DirectoryIndex(va), TableIndex(va)).None?
    requires Ordinary(DirectoryIndex(va)) && Handles(s, p, pd, DirectoryIndex(va))
    ensures Joined(HandleFault(s, p, pd, DirectoryIndex(va), TableIndex(va), 0).1, t, r, p, pd)
  {
    hide WellFormed, Lookup, Tiles, Live, HandleFault, UsedFrames, HasTable, TableOf, Free, DirectoryIndex, TableIndex;
    var owner: Owners :| WellFormed(s, p, pd, owner);
    var d, j := DirectoryIndex(va), TableIndex(va);
    IndexBounds(va);
    LivePage(t, r, va);
    var owner', table, page := FaultTheorem(s, p, pd, owner, d, j, 0);
  }

  lemma ReleaseJoins(s: Ram, t: RegionTable, r: Range, st: Statics, p: Pool, pd: nat, start: nat)
    requires Joined(s, t, r, p, pd) && Inside(r) && ProcessPoolOf(st, p) && t.Shaped()
    requires CanDo(s, t, r, st, p, pd, MemoryOp.GiveUp(start))
    ensures var (s', t') := Done(s, t, r, st, p, pd, MemoryOp.GiveUp(start)); Joined(s', t', r, p, pd)
  {
    hide WellFormed, Lookup, Tiles, Covers, Live, UsedFrames, CanFreePages, FreePages, Release, MappedFrames, NewTables;
    ReleaseTiles(t, r, start);
    match Find(t, start, 0)
    case None =>
      ReleaseNothing(t, start);
    case Some(i) =>
      var owner: Owners :| WellFormed(s, p, pd, owner);
      var first, n := t.regions[i].base / 4096, t.regions[i].size / 4096;
      var owner' := FreePagesTheorem(s, st, p, pd, owner, first, n);
      forall d: nat, j: nat
        | Ordinary(d) && j < 1024 && InRange(r, d, j) && Lookup(FreePages(s, st, p, pd, first, n), pd, d, j).Some?
        ensures Live(Release(t, start), PageBase(d, j))
      {
        ReleaseTheorem(t, r, start, PageBase(d, j));
        PageOfRegion(t, r, i, d, j);
      }
  }

  lemma ReleaseNothing(t: RegionTable, start: nat)
    requires t.Shaped() && Find(t, start, 0).None?
    ensures Release(t, start) == t
  {
  }

  /** A region of whole pages holds a page's base exactly when the page is one of its pages. */
  lemma PageOfRegion(t: RegionTable, r: Range, i: nat, d: nat, j: nat)
    requires Tiles(t, r) && i <= t.last
    ensures t.regions[i].Holds(PageBase(d, j))
      <==> InRegion(d, j, t.regions[i].base / 4096, t.regions[i].size / 4096)
  {
    assert t.regions[i].base % 4096 == 0 && t.regions[i].size % 4096 == 0;
  }

  /** What other pools do leaves the pages of the range as they are mapped. */
  lemma OtherJoins(s: Ram, t: RegionTable, r: Range, st: Statics, p: Pool, pd: nat, op: PageOp)
    requires Joined(s, t, r, p, pd) && Inside(r) && ProcessPoolOf(st, p)
    requires Elsewhere(r, op) && Possible(s, p, pd, op)
    ensures Joined(PageStep(s, st, p, pd, op), t, r, p, pd)
  {
    hide WellFormed, Lookup, Tiles, Live, Possible, PageStep;
    var owner: Owners :| WellFormed(s, p, pd, owner);
    var owner' := StepKeeps(s, st, p, pd, owner, op);
    OtherPagesStay(s, st, p, pd, owner, r, op);
  }

  lemma OtherPagesStay(s: Ram, st: Statics, p: Pool, pd: nat, owner: Owners, r: Range, op: PageOp)
    requires WellFormed(s, p, pd, owner) && ProcessPoolOf(st, p) && pd < FRAMES
    requires Elsewhere(r, op) && Possible(s, p, pd, op)
    ensures forall d: nat, j: nat | Ordinary(d) && j < 1024 && InRange(r, d, j) ::
      Lookup(PageStep(s, st, p, pd, op), pd, d, j) == Lookup(s, pd, d, j)
  {
    hide WellFormed, Lookup, HandleFault, FreePageFaulting, FreePage, HasTable, TableOf, UsedFrames, EntryAt;
    match op
    case Touch(d, t) =>
      if Ordinary(d) {
        var owner', table, page := FaultTheorem(s, p, pd, owner, d, t, 0);
      } else {
        UnmappedWindow(s, p, pd, owner, d, t);
        var owner', table := WindowFaultTranslates(s, p, pd, owner, t);
      }
    case Drop(d, t) =>
      if HasTable(s, pd, d) {
        PresentTableFrees(s, st, p, pd, d, t);
        var owner' := FreePageTheorem(s, st, p, pd, owner, d, t);
      } else {
        CleanReleaseIsFault(s, st, p, pd, owner, d, t);
        WindowFault(s, p, pd, owner, d);
        var owner', table := WindowFaultTranslates(s, p, pd, owner, d);
      }
    case Put(va, v) =>
      StoreIsSeparate(s, p, pd, owner, va, v);
  }

  /** What each operation does besides: a request makes live just the bytes it is given; a fault maps its
      page exactly when the frames it needs are free; giving up a region ends its addresses and unmaps just
      its pages. */
  lemma DoneDoes(s: Ram, t: RegionTable, r: Range, st: Statics, p: Pool, pd: nat, op: MemoryOp, x: nat)
    requires Joined(s, t, r, p, pd) && Inside(r) && ProcessPoolOf(st, p) && t.Shaped()
    requires CanDo(s, t, r, st, p, pd, op)
    ensures var (s', t') := Done(s, t, r, st, p, pd, op);
      && (op.Request? ==>
            var a := Allocate(t, RoundUp(op.size)).0;
            s' == s && (Live(t', x) <==> Live(t, x) || (a != 0 && a <= x < a + Granted(t, RoundUp(op.size)))))
      && (op.Fault? ==>
            var d, j := DirectoryIndex(op.va), TableIndex(op.va);
            t' == t && (Lookup(s', pd, d, j).Some? <==> |Free(s, p)| >= if HasTable(s, pd, d) then 1 else 2))
      && (op.GiveUp? ==>
            var i := Find(t, op.start, 0);
            && (Live(t', x) <==> Live(t, x) && !(i.Some? && t.regions[i.value].Holds(x)))
            && (i.None? ==> s' == s)
            && (i.Some? ==>
                  var g := t.regions[i.value]; RegionUnmapped(s, s', pd, g.base / 4096, g.size / 4096)))
      && (op.Other? ==> t' == t)
  {
    hide WellFormed, Lookup, Live, Tiles, Covers, Allocate, Release, RoundUp, Granted, HandleFault, FreePages, Free;
    hide HasTable, CanFreePages, RegionUnmapped, PageStep, UsedFrames, DirectoryIndex, TableIndex, Inside, MappedIsLive;
    var owner: Owners :| WellFormed(s, p, pd, owner);
    match op
    case Request(size) =>
      RoundUpCovers(size);
      TilesShaped(t, r);
      AllocateTheorem(t, r, RoundUp(size));
    case Fault(va) =>
      IndexBounds(va);
      var owner', table, page := FaultTheorem(s, p, pd, owner, DirectoryIndex(va), TableIndex(va), 0);
    case GiveUp(start) =>
      ReleaseTheorem(t, r, start, x);
      if Find(t, start, 0).Some? {
        var g := t.regions[Find(t, start, 0).value];
        var owner' := FreePagesTheorem(s, st, p, pd, owner, g.base / 4096, g.size / 4096);
      }
    case Other(op) =>
  }

  // ----- the runs -----

  ghost predicate JoinedThroughout(s: Ram, t: RegionTable, r: Range, st: Statics, p: Pool, pd: nat, ops: seq<MemoryOp>)
    requires st.Fits() && pd < FRAMES
    decreases |ops|
  {
    && Joined(s, t, r, p, pd)
    && (ops != [] && CanDo(s, t, r, st, p, pd, ops[0]) ==>
          var (s', t') := Done(s, t, r, st, p, pd, ops[0]);
          JoinedThroughout(s', t', r, st, p, pd, ops[1..]))
  }

  /** Over every run of requests, faults and releases, with other pools at work, memory stays well formed,
      the regions tile the range, and every page mapped in it lies in a live region. */
  lemma {:induction false} RunsStayJoined(s: Ram, t: RegionTable, r: Range, st: Statics, p: Pool, pd: nat,
                                          ops: seq<MemoryOp>)
    requires Joined(s, t, r, p, pd) && Inside(r) && ProcessPoolOf(st, p)
    ensures JoinedThroughout(s, t, r, st, p, pd, ops)
    decreases |ops|
  {
    hide Allocate, Release, PageStep, HandleFault, FreePages, CanDo, Inside, RoundUp;
    if ops != [] && CanDo(s, t, r, st, p, pd, ops[0]) {
      DoneJoins(s, t, r, st, p, pd, ops[0]);
      var (s', t') := Done(s, t, r, st, p, pd, ops[0]);
      RunsStayJoined(s', t', r, st, p, pd, ops[1..]);
    }
  }

  lemma DoneJoins(s: Ram, t: RegionTable, r: Range, st: Statics, p: Pool, pd: nat, op: MemoryOp)
    requires Joined(s, t, r, p, pd) && Inside(r) && ProcessPoolOf(st, p) && t.Shaped()
    requires CanDo(s, t, r, st, p, pd, op)
    ensures var (s', t') := Done(s, t, r, st, p, pd, op); Joined(s', t', r, p, pd)
  {
    hide Joined, Inside, Allocate, Release, PageStep, HandleFault, FreePages, RoundUp;
    match op
    case Request(size) => RequestJoins(s, t, r, p, pd, size);
    case Fault(va) => FaultJoins(s, t, r, p, pd, va);
    case GiveUp(start) => ReleaseJoins(s, t, r, st, p, pd, start);
    case Other(op) => OtherJoins(s, t, r, st, p, pd, op);
  }

  /** The address space after boot joins a new pool's table: nothing of the range is mapped. */
  lemma NewPoolJoins(s: Ram, r: Range, p: Pool, pd: nat, owner: Owners)
    requires WellFormed(s, p, pd, owner) && pd < FRAMES && Inside(r)
    requires forall d: nat, j: nat | Ordinary(d) && j < 1024 && InRange(r, d, j) :: Lookup(s, pd, d, j).None?
    ensures Joined(s, Initial(r), r, p, pd)
  {
    hide WellFormed, Lookup, Live;
    InitialTiles(r);
  }

  /** With nothing of the pool live, no page of its range is mapped, and no frame holds its data. */
  lemma NothingLiveNothingHeld(s: Ram, t: RegionTable, r: Range, p: Pool, pd: nat, owner: Owners)
    requires Joined(s, t, r, p, pd) && Inside(r) && t.Shaped() && forall a: nat :: !Live(t, a)
    requires WellFormed(s, p, pd, owner)
    ensures forall d: nat, j: nat | InRange(r, d, j) :: PagePlace(d, j) !in PresentPages(s, pd)
    ensures forall f | f in owner && owner[f].Page? :: !InRange(r, owner[f].d, owner[f].t)
  {
    hide WellFormed, Lookup, Live, HasTable, TableOf, UsedFrames;
    forall d: nat, j: nat | InRange(r, d, j) && d < 1024 && j < 1024
      ensures Lookup(s, pd, d, j).None?
    {
      assert Ordinary(d);
    }
    forall f | f in owner && owner[f].Page? ensures !InRange(r, owner[f].d, owner[f].t) {
      OwnedFrameNamed(s, p, pd, owner, f);
    }
  }
}
