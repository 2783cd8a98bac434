/** Releasing every page of a region, whichever of its pages were touched. */
module RegionPages {
  import opened PhysicalMemory
  import opened FramePools
  import opened Paging
  import opened Translation
  import opened Accounting
  import opened Faults
  import opened PageRelease
  import opened SelfMapAccess
  import opened WindowFaults
  import opened PageRuns

  function SlotOf(page: nat): nat {
    page / 1024
  }

  /** Pages `first..first + n` all lie outside the first and last 4 MB, their tables present. */
  ghost predicate TablesPresent(s: Ram, pd: nat, first: nat, n: nat)
    requires pd < FRAMES
  {
    forall q | first <= q < first + n ::
      Ordinary(SlotOf(q)) && HasTable(s, pd, SlotOf(q)) && TableOf(s, pd, SlotOf(q)) < FRAMES
  }

  /** Page `q` can be released with the invariant kept: its table is there, or a clean frame to become it. */
  ghost predicate PageCanGo(s: Ram, p: Pool, pd: nat, q: nat)
    requires pd < FRAMES
  {
    && Possible(s, p, pd, Drop(SlotOf(q), q % 1024))
    && (HasTable(s, pd, SlotOf(q)) || |Free(s, p)| > 0)
  }

  /** free_page on pages `first..first + n`, in order. */
  ghost function FreePages(s: Ram, st: Statics, p: Pool, pd: nat, first: nat, n: nat): Ram
    requires st.Fits() && pd < FRAMES
    decreases n
  {
    if n == 0 then s
    else
      var s1, q := FreePages(s, st, p, pd, first, n - 1), first + n - 1;
      if PageCanGo(s1, p, pd, q) then PageStep(s1, st, p, pd, Drop(SlotOf(q), q % 1024)) else s1
  }

  /** Each of these releases, in order, can be made. */
  ghost predicate CanFreePages(s: Ram, st: Statics, p: Pool, pd: nat, first: nat, n: nat)
    requires st.Fits() && pd < FRAMES
    decreases n
  {
    n == 0 || (CanFreePages(s, st, p, pd, first, n - 1)
               && PageCanGo(FreePages(s, st, p, pd, first, n - 1), p, pd, first + n - 1))
  }

  predicate InRegion(d: nat, t: nat, first: nat, n: nat) {
    first <= 1024 * d + t < first + n
  }

  predicate SlotInRegion(k: nat, first: nat, n: nat) {
    n > 0 && SlotOf(first) <= k <= SlotOf(first + n - 1)
  }

  /** Every table window open in `s` is open in `s'`, on the same table. */
  ghost predicate WindowsStay(s: Ram, s': Ram, pd: nat)
    requires pd < FRAMES
  {
    forall d: nat | d < 1024 && Lookup(s, pd, WINDOW, d).Some? :: Lookup(s', pd, WINDOW, d) == Lookup(s, pd, WINDOW, d)
  }

  /** Outside the first and last 4 MB exactly the pages of the region are unmapped. */
  ghost predicate RegionUnmapped(s: Ram, s': Ram, pd: nat, first: nat, n: nat)
    requires pd < FRAMES
  {
    forall d: nat, t: nat | Ordinary(d) && t < 1024 ::
      Lookup(s', pd, d, t) == if InRegion(d, t, first, n) then None else Lookup(s, pd, d, t)
  }

  /** The tables of the region, and those there before. */
  ghost predicate TablesOfRegion(s: Ram, s': Ram, pd: nat, first: nat, n: nat)
    requires pd < FRAMES
  {
    forall k: nat | Ordinary(k) :: HasTable(s', pd, k) <==> HasTable(s, pd, k) || SlotInRegion(k, first, n)
  }

  /** The frames to which pages `first..first + n` are mapped. */
  ghost function MappedFrames(s: Ram, pd: nat, first: nat, n: nat): set<nat>
    requires pd < FRAMES
  {
    set d: nat, t: nat | d < 1024 && t < 1024 && InRegion(d, t, first, n) && Names(s, pd, PagePlace(d, t)).Some? ::
      Names(s, pd, PagePlace(d, t)).value
  }

  /** The frames of the tables that `s'` has and `s` has not. */
  ghost function NewTables(s: Ram, s': Ram, pd: nat): set<nat>
    requires pd < FRAMES
  {
    NamedFrames(s', pd, PresentTables(s', pd) - PresentTables(s, pd))
  }

  // ----- one page -----

  lemma WindowShowsTable(s: Ram, p: Pool, pd: nat, owner: Owners, d: nat)
    requires WellFormed(s, p, pd, owner) && d < 1024 && pd < FRAMES
    ensures Lookup(s, pd, WINDOW, d) == if HasTable(s, pd, d) then Some(TableOf(s, pd, d)) else None
  {
    hide UsedFrames, IdentityMap, TablesOwned, PagesOwned, FixedRoles;
    EntryParts(pd, 3);
  }

  /** The release of one page unmaps it, and puts a table in its slot if there was none. */
  lemma PageGoes(s: Ram, st: Statics, p: Pool, pd: nat, owner: Owners, q: nat) returns (owner': Owners)
    requires WellFormed(s, p, pd, owner) && ProcessPoolOf(st, p) && pd < FRAMES && PageCanGo(s, p, pd, q)
    ensures var s' := PageStep(s, st, p, pd, Drop(SlotOf(q), q % 1024));
      && WellFormed(s', p, pd, owner') && RegionUnmapped(s, s', pd, q, 1) && WindowsStay(s, s', pd)
      && TablesOfRegion(s, s', pd, q, 1)
  {
    hide WellFormed, Lookup, UsedFrames, EntryAt, HandleFault, FreePage, FreePageFaulting, HasTable, TableOf, Free;
    hide Clean;
    var d, t := SlotOf(q), q % 1024;
    var s' := PageStep(s, st, p, pd, Drop(d, t));
    assert q == 1024 * d + t;
    if HasTable(s, pd, d) {
      PresentTableFrees(s, st, p, pd, d, t);
      owner' := FreePageTheorem(s, st, p, pd, owner, d, t);
    } else {
      CleanReleaseIsFault(s, st, p, pd, owner, d, t);
      WindowFault(s, p, pd, owner, d);
      var table;
      owner', table := WindowFaultTranslates(s, p, pd, owner, d);
      NoTableNoPage(s, pd, d, t);
    }
    forall k: nat | Ordinary(k) ensures HasTable(s', pd, k) <==> HasTable(s, pd, k) || k == d {
      WindowShowsTable(s, p, pd, owner, k);
      WindowShowsTable(s', p, pd, owner', k);
    }
  }

  // ----- all of them -----

  lemma {:induction false} PageCanGoAt(s: Ram, st: Statics, p: Pool, pd: nat, first: nat, n: nat, k: nat)
    requires st.Fits() && pd < FRAMES && k < n && CanFreePages(s, st, p, pd, first, n)
    ensures PageCanGo(FreePages(s, st, p, pd, first, k), p, pd, first + k)
    decreases n
  {
    hide PageCanGo, FreePages;
    if k < n - 1 { PageCanGoAt(s, st, p, pd, first, n - 1, k); }
  }

  /** Releasing a region, whichever of its pages were touched: outside the first and last 4 MB exactly
      the pages of the region are unmapped; its tables, and those there before, are there; every frame its
      pages held is back in the pool and no other is, but for those of tables installed on the way; and
      the state is well formed again. */
  lemma FreePagesTheorem(s: Ram, st: Statics, p: Pool, pd: nat, owner: Owners, first: nat, n: nat)
    returns (owner': Owners)
    requires WellFormed(s, p, pd, owner) && ProcessPoolOf(st, p) && pd < FRAMES
    requires CanFreePages(s, st, p, pd, first, n)
    ensures var s' := FreePages(s, st, p, pd, first, n);
      && WellFormed(s', p, pd, owner') && RegionUnmapped(s, s', pd, first, n)
      && WindowsStay(s, s', pd) && TablesOfRegion(s, s', pd, first, n)
      && UsedFrames(s', p) == UsedFrames(s, p) - MappedFrames(s, pd, first, n) + NewTables(s, s', pd)
  {
    hide WellFormed, RegionUnmapped, WindowsStay, TablesOfRegion, UsedFrames, MappedFrames, NewTables, FreePages;
    hide CanFreePages;
    owner' := PagesGo(s, st, p, pd, owner, first, n);
    UsedAfterRelease(s, FreePages(s, st, p, pd, first, n), p, pd, owner, owner', first, n);
  }

  lemma {:induction false} PagesGo(s: Ram, st: Statics, p: Pool, pd: nat, owner: Owners, first: nat, n: nat)
    returns (owner': Owners)
    requires WellFormed(s, p, pd, owner) && ProcessPoolOf(st, p) && pd < FRAMES
    requires CanFreePages(s, st, p, pd, first, n)
    ensures var s' := FreePages(s, st, p, pd, first, n);
      && WellFormed(s', p, pd, owner') && RegionUnmapped(s, s', pd, first, n)
      && WindowsStay(s, s', pd) && TablesOfRegion(s, s', pd, first, n)
    decreases n
  {
    hide WellFormed, Lookup, HasTable, PageCanGo, PageStep;
    if n == 0 {
      owner' := owner;
    } else {
      var owner1 := PagesGo(s, st, p, pd, owner, first, n - 1);
      var s1 := FreePages(s, st, p, pd, first, n - 1);
      owner' := PageGoes(s1, st, p, pd, owner1, first + n - 1);
      OnePageMore(s, s1, FreePages(s, st, p, pd, first, n), pd, first, n);
    }
  }

  lemma OnePageMore(s: Ram, s1: Ram, s': Ram, pd: nat, first: nat, n: nat)
    requires pd < FRAMES && n > 0
    requires RegionUnmapped(s, s1, pd, first, n - 1) && WindowsStay(s, s1, pd)
    requires TablesOfRegion(s, s1, pd, first, n - 1)
    requires RegionUnmapped(s1, s', pd, first + n - 1, 1) && WindowsStay(s1, s', pd)
    requires TablesOfRegion(s1, s', pd, first + n - 1, 1)
    ensures RegionUnmapped(s, s', pd, first, n) && WindowsStay(s, s', pd) && TablesOfRegion(s, s', pd, first, n)
  {
    hide Lookup, HasTable;
    forall k: nat ensures SlotInRegion(k, first, n) <==>
      SlotInRegion(k, first, n - 1) || SlotInRegion(k, first + n - 1, 1)
    {
      NextSlot(first, n);
    }
  }

  /** The slots of consecutive pages leave none out. */
  lemma NextSlot(first: nat, n: nat)
    requires n > 0
    ensures n > 1 ==> SlotOf(first) <= SlotOf(first + n - 2) <= SlotOf(first + n - 1) <= SlotOf(first + n - 2) + 1
  {
  }

  /** With the tables there, as after faults on every page, all can be released. */
  lemma {:induction false} PresentTablesGo(s: Ram, st: Statics, p: Pool, pd: nat, owner: Owners, first: nat, n: nat)
    requires WellFormed(s, p, pd, owner) && ProcessPoolOf(st, p) && pd < FRAMES && TablesPresent(s, pd, first, n)
    ensures CanFreePages(s, st, p, pd, first, n)
    decreases n
  {
    hide WellFormed, Lookup, HasTable, TableOf, PageStep;
    if n > 0 {
      PresentTablesGo(s, st, p, pd, owner, first, n - 1);
      var owner1 := PagesGo(s, st, p, pd, owner, first, n - 1);
      var s1, d := FreePages(s, st, p, pd, first, n - 1), SlotOf(first + n - 1);
      assert Ordinary(d);
      SlotHandles(s1, p, pd, owner1, d);
      SlotHandles(s1, p, pd, owner1, WINDOW);
    }
  }

  // ----- a region's life -----

  /** Faults on the listed pages, in order; a page that is already mapped raises none. */
  ghost function TouchAll(s: Ram, st: Statics, p: Pool, pd: nat, pages: seq<nat>): Ram
    requires st.Fits() && pd < FRAMES
    decreases |pages|
  {
    if pages == [] then s
    else
      var op := Touch(SlotOf(pages[0]), pages[0] % 1024);
      var s' := if Ordinary(SlotOf(pages[0])) && Possible(s, p, pd, op) then PageStep(s, st, p, pd, op) else s;
      TouchAll(s', st, p, pd, pages[1..])
  }

  /** On pages outside the last 4 MB, the two states differ at most inside the region. */
  ghost predicate SameOutsideRegion(s: Ram, s': Ram, pd: nat, first: nat, n: nat)
    requires pd < FRAMES
  {
    forall d: nat, t: nat | Ordinary(d) && t < 1024 && !InRegion(d, t, first, n) ::
      Lookup(s', pd, d, t) == Lookup(s, pd, d, t)
  }

  lemma {:induction false} TouchAllKeeps(s: Ram, st: Statics, p: Pool, pd: nat, owner: Owners,
      first: nat, n: nat, pages: seq<nat>) returns (owner': Owners)
    requires WellFormed(s, p, pd, owner) && ProcessPoolOf(st, p) && pd < FRAMES
    requires forall q | q in pages :: first <= q < first + n
    ensures WellFormed(TouchAll(s, st, p, pd, pages), p, pd, owner')
    ensures SameOutsideRegion(s, TouchAll(s, st, p, pd, pages), pd, first, n)
    ensures WindowsStay(s, TouchAll(s, st, p, pd, pages), pd)
    decreases |pages|
  {
    hide WellFormed, Lookup, Possible, PageStep;
    if pages == [] {
      owner' := owner;
    } else {
      assert pages[0] in pages && forall q | q in pages[1..] :: q in pages;
      var op := Touch(SlotOf(pages[0]), pages[0] % 1024);
      if Ordinary(SlotOf(pages[0])) && Possible(s, p, pd, op) {
        var owner1 := StepKeeps(s, st, p, pd, owner, op);
        TouchInRegion(s, st, p, pd, owner, first, n, pages[0]);
        owner' := TouchAllKeeps(PageStep(s, st, p, pd, op), st, p, pd, owner1, first, n, pages[1..]);
      } else {
        owner' := TouchAllKeeps(s, st, p, pd, owner, first, n, pages[1..]);
      }
    }
  }

  lemma TouchInRegion(s: Ram, st: Statics, p: Pool, pd: nat, owner: Owners, first: nat, n: nat, q: nat)
    requires WellFormed(s, p, pd, owner) && ProcessPoolOf(st, p) && pd < FRAMES && first <= q < first + n
    requires Ordinary(SlotOf(q)) && Possible(s, p, pd, Touch(SlotOf(q), q % 1024))
    ensures SameOutsideRegion(s, PageStep(s, st, p, pd, Touch(SlotOf(q), q % 1024)), pd, first, n)
    ensures WindowsStay(s, PageStep(s, st, p, pd, Touch(SlotOf(q), q % 1024)), pd)
  {
    hide WellFormed, Lookup, HandleFault, HasTable, TableOf, UsedFrames;
    var d, t := SlotOf(q), q % 1024;
    var owner', table, page := FaultTheorem(s, p, pd, owner, d, t, 0);
    assert 1024 * d + t == q;
    WindowShowsTable(s, p, pd, owner, d);
  }

  /** The faults do their work: afterwards each page on the list is mapped, unless memory ran out. */
  lemma {:induction false} TouchAllMaps(s: Ram, st: Statics, p: Pool, pd: nat, owner: Owners, pages: seq<nat>, q: nat)
    requires WellFormed(s, p, pd, owner) && ProcessPoolOf(st, p) && pd < FRAMES
    requires Ordinary(SlotOf(q)) && (q in pages || Lookup(s, pd, SlotOf(q), q % 1024).Some? || |Free(s, p)| < 2)
    ensures var s' := TouchAll(s, st, p, pd, pages);
      Lookup(s', pd, SlotOf(q), q % 1024).Some? || |Free(s', p)| < 2
    decreases |pages|
  {
    hide WellFormed, Lookup, Possible, PageStep, Free;
    if pages != [] {
      var op := Touch(SlotOf(pages[0]), pages[0] % 1024);
      if Ordinary(SlotOf(pages[0])) {
        OrdinaryTouch(s, p, pd, owner, pages[0]);
      }
      if Ordinary(SlotOf(pages[0])) && Possible(s, p, pd, op) {
        var owner1 := TouchGrows(s, st, p, pd, owner, pages[0], q);
        TouchAllMaps(PageStep(s, st, p, pd, op), st, p, pd, owner1, pages[1..], q);
      } else {
        TouchAllMaps(s, st, p, pd, owner, pages[1..], q);
      }
    }
  }

  lemma OrdinaryTouch(s: Ram, p: Pool, pd: nat, owner: Owners, q: nat)
    requires WellFormed(s, p, pd, owner) && pd < FRAMES && Ordinary(SlotOf(q))
    ensures Possible(s, p, pd, Touch(SlotOf(q), q % 1024)) <==> Lookup(s, pd, SlotOf(q), q % 1024).None?
  {
    hide WellFormed, Lookup;
    SlotHandles(s, p, pd, owner, SlotOf(q));
  }

  lemma TouchGrows(s: Ram, st: Statics, p: Pool, pd: nat, owner: Owners, first: nat, q: nat) returns (owner': Owners)
    requires WellFormed(s, p, pd, owner) && ProcessPoolOf(st, p) && pd < FRAMES
    requires Ordinary(SlotOf(first)) && Possible(s, p, pd, Touch(SlotOf(first), first % 1024)) && Ordinary(SlotOf(q))
    ensures var s' := PageStep(s, st, p, pd, Touch(SlotOf(first), first % 1024));
      && WellFormed(s', p, pd, owner')
      && (Lookup(s, pd, SlotOf(q), q % 1024).Some? || q == first || |Free(s, p)| < 2 ==>
            Lookup(s', pd, SlotOf(q), q % 1024).Some? || |Free(s', p)| < 2)
  {
    hide WellFormed, Lookup, HandleFault, HasTable, TableOf, UsedFrames, Frames;
    var table, page;
    owner', table, page := FaultTheorem(s, p, pd, owner, SlotOf(first), first % 1024, 0);
    var s' := PageStep(s, st, p, pd, Touch(SlotOf(first), first % 1024));
    FewerFree(s, s', p);
  }

  lemma FewerFree(s: Ram, s': Ram, p: Pool)
    requires p.Fits() && UsedFrames(s, p) <= UsedFrames(s', p)
    ensures |Free(s', p)| <= |Free(s, p)|
  {
    hide UsedFrames;
    SubsetSize(Free(s', p), Free(s, p));
  }

  lemma {:induction false} SubsetSize(a: set<nat>, b: set<nat>)
    requires a <= b
    ensures |a| <= |b|
  {
    assert b == a + (b - a);
  }

  /** A region no page of which is mapped, touched on any of its pages and then released page by
      page: afterwards exactly the pages mapped before are mapped again, every table is where it was, and
      the frames in use are those in use before and those of the tables installed on the way. */
  lemma RegionLeavesNoPages(s: Ram, st: Statics, p: Pool, pd: nat, owner: Owners,
      first: nat, n: nat, pages: seq<nat>)
    requires WellFormed(s, p, pd, owner) && ProcessPoolOf(st, p) && pd < FRAMES
    requires forall q | q in pages :: first <= q < first + n
    requires CanFreePages(TouchAll(s, st, p, pd, pages), st, p, pd, first, n)
    requires forall q | first <= q < first + n ::
      SlotOf(q) < 1024 && Lookup(s, pd, SlotOf(q), q % 1024).None?
    ensures var s2 := FreePages(TouchAll(s, st, p, pd, pages), st, p, pd, first, n);
      && PresentPages(s2, pd) == PresentPages(s, pd)
      && (forall d: nat, t: nat | Ordinary(d) && t < 1024 :: Lookup(s2, pd, d, t) == Lookup(s, pd, d, t))
      && WindowsStay(s, s2, pd)
      && UsedFrames(s2, p) == UsedFrames(s, p) + NewTables(s, s2, pd)
  {
    hide WellFormed, Lookup, UsedFrames, TouchAll, FreePages, NamedFrames, CanFreePages;
    hide PresentPages, PresentTables, MappedFrames, TablesOfRegion, NewTables;
    var s1 := TouchAll(s, st, p, pd, pages);
    var s2 := FreePages(s1, st, p, pd, first, n);
    var owner1 := TouchAllKeeps(s, st, p, pd, owner, first, n, pages);
    var owner2 := FreePagesTheorem(s1, st, p, pd, owner1, first, n);
    forall d: nat, t: nat | Ordinary(d) && t < 1024
      ensures Lookup(s2, pd, d, t) == Lookup(s, pd, d, t)
    {
      if InRegion(d, t, first, n) {
        assert SlotOf(1024 * d + t) == d && (1024 * d + t) % 1024 == t;
      }
    }
    SamePages(s, s2, pd);
    UsedAfterRelease(s, s2, p, pd, owner, owner2, first, 0);
    NoPagesNoFrames(s, pd, first);
  }

  lemma NoPagesNoFrames(s: Ram, pd: nat, first: nat)
    requires pd < FRAMES
    ensures MappedFrames(s, pd, first, 0) == {}
  {
  }

  // ----- the frames in use -----

  /** Between two well-formed states where no table was lost or moved, and the pages of a region are gone:
      the later uses the frames of the earlier, but for those pages', and those of its new tables. */
  lemma UsedAfterRelease(s: Ram, s2: Ram, p: Pool, pd: nat, owner: Owners, owner2: Owners, first: nat, n: nat)
    requires WellFormed(s, p, pd, owner) && WellFormed(s2, p, pd, owner2) && pd < FRAMES && p.Fits()
    requires RegionUnmapped(s, s2, pd, first, n) && WindowsStay(s, s2, pd)
    ensures UsedFrames(s2, p) == UsedFrames(s, p) - MappedFrames(s, pd, first, n) + NewTables(s, s2, pd)
  {
    hide WellFormed, Lookup, UsedFrames, HasTable, TableOf, PresentPages, PresentTables, NamedFrames, Names;
    hide RegionUnmapped, WindowsStay, MappedFrames;
    TablesStand(s, s2, p, pd, owner, owner2, first, n);
    var tables, new_ := PresentTables(s, pd), PresentTables(s2, pd) - PresentTables(s, pd);
    var kept, gone := PresentPages(s2, pd), PresentPages(s, pd) - PresentPages(s2, pd);
    UsedFramesPartition(s, p, pd, owner);
    UsedFramesPartition(s2, p, pd, owner2);
    assert PresentTables(s2, pd) + kept == (tables + kept) + new_;
    assert tables + PresentPages(s, pd) == (tables + kept) + gone;
    NamesJoin(s2, pd, tables + kept, new_);
    NamesJoin(s, pd, tables + kept, gone);
    SameNamesSameFrames(s, s2, pd, tables + kept);
    GoneFrames(s, s2, pd, first, n);
    TablesAreNotPages(s, pd);
    GoneApart(s, p, pd, owner, tables + kept, gone);
  }

  lemma TablesAreNotPages(s: Ram, pd: nat)
    requires pd < FRAMES
    ensures PresentTables(s, pd) !! PresentPages(s, pd)
  {
    hide Names;
  }

  /** The frames of the pages unmapped. */
  lemma GoneFrames(s: Ram, s2: Ram, pd: nat, first: nat, n: nat)
    requires pd < FRAMES && RegionUnmapped(s, s2, pd, first, n)
    ensures NamedFrames(s, pd, PresentPages(s, pd) - PresentPages(s2, pd)) == MappedFrames(s, pd, first, n)
  {
    hide Lookup, HasTable, TableOf;
  }

  /** They are no other place's. */
  lemma GoneApart(s: Ram, p: Pool, pd: nat, owner: Owners, xs: set<Place>, gone: set<Place>)
    requires WellFormed(s, p, pd, owner) && pd < FRAMES && xs !! gone
    ensures NamedFrames(s, pd, gone) !! HoleFrames() + {pd, TableOf(s, pd, 0)} + NamedFrames(s, pd, xs)
  {
    hide WellFormed, UsedFrames, TableOf, Names;
    forall x: Place | x in gone && Names(s, pd, x).Some?
      ensures Names(s, pd, x).value !in HoleFrames() + {pd, TableOf(s, pd, 0)} + NamedFrames(s, pd, xs)
    {
      NamedFrameOwned(s, p, pd, owner, x);
      forall y: Place | y in xs && Names(s, pd, y) == Names(s, pd, x) ensures false {
        FramesAreExclusive(s, p, pd, owner, x, y);
      }
    }
  }

  lemma TablesStand(s: Ram, s2: Ram, p: Pool, pd: nat, owner: Owners, owner2: Owners, first: nat, n: nat)
    requires WellFormed(s, p, pd, owner) && WellFormed(s2, p, pd, owner2) && pd < FRAMES
    requires RegionUnmapped(s, s2, pd, first, n) && WindowsStay(s, s2, pd)
    ensures TableOf(s2, pd, 0) == TableOf(s, pd, 0) && PresentTables(s, pd) <= PresentTables(s2, pd)
    ensures PresentPages(s2, pd) <= PresentPages(s, pd)
    ensures forall x | x in PresentTables(s, pd) + PresentPages(s2, pd) :: Names(s2, pd, x) == Names(s, pd, x)
  {
    hide WellFormed, Lookup, UsedFrames, HasTable, TableOf;
    forall d: nat | d < 1024
      ensures HasTable(s, pd, d) ==> HasTable(s2, pd, d) && TableOf(s2, pd, d) == TableOf(s, pd, d)
    {
      WindowShowsTable(s, p, pd, owner, d);
      WindowShowsTable(s2, p, pd, owner2, d);
    }
    FirstTableThere(s, p, pd, owner);
  }

  lemma FirstTableThere(s: Ram, p: Pool, pd: nat, owner: Owners)
    requires WellFormed(s, p, pd, owner) && pd < FRAMES
    ensures HasTable(s, pd, 0)
  {
    hide UsedFrames, SelfMap, TablesOwned, PagesOwned, FixedRoles;
  }

  lemma NamesJoin(s: Ram, pd: nat, xs: set<Place>, ys: set<Place>)
    requires pd < FRAMES
    ensures NamedFrames(s, pd, xs + ys) == NamedFrames(s, pd, xs) + NamedFrames(s, pd, ys)
  {
    hide Names;
  }

  lemma SameNamesSameFrames(s: Ram, s2: Ram, pd: nat, xs: set<Place>)
    requires pd < FRAMES && forall x | x in xs :: Names(s2, pd, x) == Names(s, pd, x)
    ensures NamedFrames(s2, pd, xs) == NamedFrames(s, pd, xs)
  {
    hide Names;
  }

  lemma SamePages(s: Ram, s': Ram, pd: nat)
    requires pd < FRAMES
    requires forall d: nat, t: nat | Ordinary(d) && t < 1024 :: Lookup(s', pd, d, t) == Lookup(s, pd, d, t)
    ensures PresentPages(s', pd) == PresentPages(s, pd)
  {
    hide Lookup;
  }
}
