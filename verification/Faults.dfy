/** The page-fault handler as edits of physical memory, and what they mean: which pages change, when a
    fault fails, and that the invariant is kept. */
module Faults {
  import opened PhysicalMemory
  import opened FramePools
  import opened Paging
  import opened Translation
  import opened Accounting

  datatype Outcome = ProtectionFault | NoFrameForTable | NoFrameForPage | PageMapped

  /** Frames of the pool still free. */
  ghost function Free(s: Ram, p: Pool): set<nat>
    requires p.Fits()
  {
    Frames(p) - UsedFrames(s, p)
  }

  ghost predicate Handles(s: Ram, p: Pool, pd: nat, d: nat) {
    && p == ProcessPool(p.bitmap) && p.Fits() && pd < FRAMES && d < 1024
    && (HasTable(s, pd, d) ==> TableOf(s, pd, d) < FRAMES)
  }

  /** The handler, written on physical memory: page `t` under directory slot `d`, and the error
      code pushed with the fault (bit 0 set: a protection violation; SDM volume 3A, section 4.7). */
  function HandleFault(s: Ram, p: Pool, pd: nat, d: nat, t: nat, err: Word): (Outcome, Ram)
    requires Handles(s, p, pd, d) && t < 1024
  {
    if err % 2 == 1 then (ProtectionFault, s)
    else if HasTable(s, pd, d) then AddPage(s, p, TableOf(s, pd, d), t)
    else
      match LeastFree(s, p, 0)
      case None => (NoFrameForTable, s)
      case Some(i) => AddPage(InstallTable(s, p, pd, d, p.base + i), p, p.base + i, t)
  }

  function AddPage(s: Ram, p: Pool, f: nat, t: nat): (Outcome, Ram)
    requires p == ProcessPool(p.bitmap) && p.Fits() && f < FRAMES && t < 1024
  {
    match LeastFree(s, p, 0)
    case None => (NoFrameForPage, s)
    case Some(j) => (PageMapped, MapPage(s, p, f, t, p.base + j))
  }

  lemma LeastFreeIsFree(s: Ram, p: Pool)
    requires p.Fits()
    ensures LeastFree(s, p, 0).None? <==> |Free(s, p)| == 0
    ensures LeastFree(s, p, 0).Some? ==> p.base + LeastFree(s, p, 0).value in Free(s, p)
  {
    hide Used, UsedFrames, Frames;
    NoneFreeMeansFull(s, p);
    UsedInFrames(s, p);
    if LeastFree(s, p, 0).Some? {
      FreeFrame(s, p, p.base + LeastFree(s, p, 0).value);
    } else {
      assert Free(s, p) == {};
    }
  }

  lemma UsedInFrames(s: Ram, p: Pool)
    requires p.Fits()
    ensures UsedFrames(s, p) <= Frames(p)
  {
  }

  /** A frame in the process pool that is free is one the invariant knows nothing of. */
  lemma FreeMeansUnowned(s: Ram, p: Pool, pd: nat, owner: Owners, f: nat)
    requires WellFormed(s, p, pd, owner)
    ensures f in Free(s, p) <==> InProcessPool(f) && f !in owner
  {
    hide UsedFrames, EntryAt, IdentityMap, SelfMap, TablesOwned, PagesOwned, FixedRoles;
  }

  /** Over the whole address space the only pages mapped differently are page `t` of slot `d`, now
      mapped to `page`, and the window through which table `d` is seen, now mapped to `table`. */
  ghost predicate FaultMapping(s: Ram, s': Ram, pd: nat, d: nat, t: nat, table: Option<nat>, page: Option<nat>)
    requires pd < FRAMES
  {
    forall k: nat, j: nat | k < 1024 && j < 1024 :: Lookup(s', pd, k, j) ==
      if page.Some? && k == d && j == t then page
      else if table.Some? && k == WINDOW && j == d then table
      else Lookup(s, pd, k, j)
  }

  function JustIf(f: Option<nat>): set<nat> {
    if f.Some? then {f.value} else {}
  }

  /** What one call of AddPage does, given a table that is present and an entry that is not. */
  lemma AddPageTheorem(s: Ram, p: Pool, pd: nat, owner: Owners, d: nat, t: nat)
    returns (owner': Owners, page: Option<nat>)
    requires WellFormed(s, p, pd, owner) && Ordinary(d) && t < 1024 && HasTable(s, pd, d)
    requires Lookup(s, pd, d, t).None? && TableOf(s, pd, d) < FRAMES
    ensures var (o, s') := AddPage(s, p, TableOf(s, pd, d), t);
      && WellFormed(s', p, pd, owner')
      && o == (if page.Some? then PageMapped else NoFrameForPage)
      && (page.Some? <==> |Free(s, p)| > 0)
      && (page.Some? ==> page.value in Free(s, p))
      && UsedFrames(s', p) == UsedFrames(s, p) + JustIf(page)
      && FaultMapping(s, s', pd, d, t, None, page)
  {
    hide Lookup, MapPage, UsedFrames, EntryAt, ChangesOnlyPage, Free, FaultMapping, Edited;
    OrdinaryTable(s, p, pd, owner, d);
    LeastFreeIsFree(s, p);
    owner', page := owner, None;
    if LeastFree(s, p, 0).Some? {
      var g := p.base + LeastFree(s, p, 0).value;
      FreeMeansUnowned(s, p, pd, owner, g);
      AbsentEntry(s, p, pd, owner, d, t);
      hide WellFormed;
      MapPageKeeps(s, p, pd, owner, d, t, g);
      MapPageTranslates(s, p, pd, owner, d, t, g);
      owner', page := owner[g := Page(d, t)], Some(g);
      MapPageWords(s, p, TableOf(s, pd, d), t, g);
      PageAlone(s, MapPage(s, p, TableOf(s, pd, d), t, g), pd, d, t, g);
    } else {
      NothingMapped(s, pd, d, t);
    }
  }

  lemma PageAlone(s: Ram, s': Ram, pd: nat, d: nat, t: nat, g: nat)
    requires pd < FRAMES && ChangesOnlyPage(s, s', pd, d, t, Some(g))
    ensures FaultMapping(s, s', pd, d, t, None, Some(g))
  {
    hide Lookup;
  }

  lemma NothingMapped(s: Ram, pd: nat, d: nat, t: nat)
    requires pd < FRAMES
    ensures FaultMapping(s, s, pd, d, t, None, None)
  {
    hide Lookup;
  }

  lemma TableFirst(s: Ram, s1: Ram, s': Ram, pd: nat, d: nat, t: nat, f: nat, page: Option<nat>)
    requires pd < FRAMES && Ordinary(d) && ChangesOnlyPage(s, s1, pd, WINDOW, d, Some(f))
    requires FaultMapping(s1, s', pd, d, t, None, page)
    ensures FaultMapping(s, s', pd, d, t, Some(f), page)
  {
    hide Lookup;
  }

  lemma AbsentEntry(s: Ram, p: Pool, pd: nat, owner: Owners, d: nat, t: nat)
    requires WellFormed(s, p, pd, owner) && Ordinary(d) && t < 1024 && HasTable(s, pd, d)
    requires Lookup(s, pd, d, t).None?
    ensures TableOf(s, pd, d) < FRAMES && !Present(EntryAt(s, TableOf(s, pd, d), t))
  {
    hide WellFormed, EntryAt;
    OrdinaryTable(s, p, pd, owner, d);
  }

  /** A not-present fault outside the first and last 4 MB. It maps the page exactly when there are
      frames enough (one, or two when a table is needed), always to frames that were free; and over
      the whole address space only the faulting page, and the window page of a table newly installed,
      are mapped differently. A table installed with no frame left for the page stays. */
  lemma FaultTheorem(s: Ram, p: Pool, pd: nat, owner: Owners, d: nat, t: nat, err: Word)
    returns (owner': Owners, table: Option<nat>, page: Option<nat>)
    requires WellFormed(s, p, pd, owner) && Ordinary(d) && t < 1024
    requires err % 2 == 0 && Lookup(s, pd, d, t).None?
    ensures Handles(s, p, pd, d)
    ensures var (o, s') := HandleFault(s, p, pd, d, t, err);
      && WellFormed(s', p, pd, owner')
      && (table.Some? <==> !HasTable(s, pd, d) && |Free(s, p)| >= 1)
      && (page.Some? <==> |Free(s, p)| >= if HasTable(s, pd, d) then 1 else 2)
      && o == (if page.Some? then PageMapped
               else if HasTable(s, pd, d) || table.Some? then NoFrameForPage else NoFrameForTable)
      && (table.Some? ==> table.value in Free(s, p))
      && (page.Some? ==> page.value in Free(s, p) && page != table)
      && UsedFrames(s', p) == UsedFrames(s, p) + JustIf(table) + JustIf(page)
      && FaultMapping(s, s', pd, d, t, table, page)
  {
    hide WellFormed, Lookup, InstallTable, AddPage, UsedFrames, EntryAt, Free, HasTable, TableOf, FaultMapping;
    HandlesOrdinary(s, p, pd, owner, d);
    table := None;
    LeastFreeIsFree(s, p);
    if HasTable(s, pd, d) {
      owner', page := AddPageTheorem(s, p, pd, owner, d, t);
    } else if LeastFree(s, p, 0).None? {
      owner', page := owner, None;
      NothingMapped(s, pd, d, t);
    } else {
      table := Some(p.base + LeastFree(s, p, 0).value);
      owner', page := TableThenPage(s, p, pd, owner, d, t, table.value);
    }
  }

  lemma TableThenPage(s: Ram, p: Pool, pd: nat, owner: Owners, d: nat, t: nat, f: nat)
    returns (owner': Owners, page: Option<nat>)
    requires WellFormed(s, p, pd, owner) && Ordinary(d) && t < 1024 && !HasTable(s, pd, d) && f in Free(s, p)
    ensures Handles(s, p, pd, d) && p.Has(f) && f < FRAMES
    ensures var (o, s') := AddPage(InstallTable(s, p, pd, d, f), p, f, t);
      && WellFormed(s', p, pd, owner')
      && o == (if page.Some? then PageMapped else NoFrameForPage)
      && (page.Some? <==> |Free(s, p)| >= 2)
      && (page.Some? ==> page.value in Free(s, p) - {f})
      && UsedFrames(s', p) == UsedFrames(s, p) + {f} + JustIf(page)
      && FaultMapping(s, s', pd, d, t, Some(f), page)
  {
    hide WellFormed, Lookup, InstallTable, AddPage, UsedFrames, EntryAt, Free, HasTable, TableOf, FaultMapping;
    hide ChangesOnlyPage;
    HandlesOrdinary(s, p, pd, owner, d);
    FreeMeansUnowned(s, p, pd, owner, f);
    var s1 := InstallTable(s, p, pd, d, f);
    InstallTableKeeps(s, p, pd, owner, d, f);
    InstallTableTranslates(s, p, pd, owner, d, f);
    InstalledTable(s, p, pd, owner, d, f);
    assert Lookup(s1, pd, d, t).None? by {
      NoTableNoPage(s, pd, d, t);
      OnlyPage(s, s1, pd, WINDOW, d, Some(f), d, t);
    }
    owner', page := AddPageTheorem(s1, p, pd, owner[f := Table(d)], d, t);
    TableFirst(s, s1, AddPage(s1, p, f, t).1, pd, d, t, f, page);
    assert |Free(s1, p)| == |Free(s, p)| - 1;
  }

  lemma OnlyPage(s: Ram, s': Ram, pd: nat, d: nat, t: nat, g: Option<nat>, k: nat, j: nat)
    requires pd < FRAMES && k < 1024 && j < 1024 && ChangesOnlyPage(s, s', pd, d, t, g)
    ensures Lookup(s', pd, k, j) == if k == d && j == t then g else Lookup(s, pd, k, j)
  {
    hide Lookup;
  }

  lemma NoTableNoPage(s: Ram, pd: nat, d: nat, t: nat)
    requires pd < FRAMES && d < 1024 && t < 1024 && !HasTable(s, pd, d)
    ensures Lookup(s, pd, d, t).None?
  {
  }

  lemma HandlesOrdinary(s: Ram, p: Pool, pd: nat, owner: Owners, d: nat)
    requires WellFormed(s, p, pd, owner) && Ordinary(d)
    ensures Handles(s, p, pd, d)
  {
    hide EntryAt, HasTable, UsedFrames;
    if HasTable(s, pd, d) { OrdinaryTable(s, p, pd, owner, d); }
  }

  lemma InstalledTable(s: Ram, p: Pool, pd: nat, owner: Owners, d: nat, f: nat)
    requires WellFormed(s, p, pd, owner) && Ordinary(d) && !HasTable(s, pd, d) && f in Free(s, p)
    ensures InProcessPool(f) && pd < FRAMES
    ensures var s1 := InstallTable(s, p, pd, d, f);
      && HasTable(s1, pd, d) && TableOf(s1, pd, d) == f && Free(s1, p) == Free(s, p) - {f}
      && UsedFrames(s1, p) == UsedFrames(s, p) + {f}
  {
    hide InstallTable, UsedFrames, EntryAt, Present, FrameOf;
    RootsInPool(s, p, pd, owner);
    FreeMeansUnowned(s, p, pd, owner, f);
    EntryParts(f, 3);
    hide WellFormed;
    InstallTableWords(s, p, pd, d, f);
  }

  /** The entries a not-present fault writes: the page's is present, user-level and writable; a new table's
      is present, supervisor-level and writable, names a frame that was free, and the other entries of that
      table are empty. */
  lemma FaultEntries(s: Ram, p: Pool, pd: nat, owner: Owners, d: nat, t: nat, err: Word)
    requires WellFormed(s, p, pd, owner) && Ordinary(d) && t < 1024 && err % 2 == 0
    ensures Handles(s, p, pd, d)
    ensures var (o, s') := HandleFault(s, p, pd, d, t, err);
      && (o == PageMapped ==>
            && HasTable(s', pd, d) && TableOf(s', pd, d) < FRAMES
            && EntryAt(s', TableOf(s', pd, d), t) % 4096 == 7)
      && (!HasTable(s, pd, d) && |Free(s, p)| > 0 ==>
            && EntryAt(s', pd, d) % 4096 == 3 && TableOf(s', pd, d) < FRAMES
            && TableOf(s', pd, d) in Free(s, p)
            && forall k: nat | k < 1024 && k != t :: EntryAt(s', TableOf(s', pd, d), k) == 0)
  {
    hide WellFormed, InstallTable, MapPage, UsedFrames, EntryAt, Free, Edited;
    HandlesOrdinary(s, p, pd, owner, d);
    LeastFreeIsFree(s, p);
    DirectoryRole(s, p, pd, owner);
    RootsInPool(s, p, pd, owner);
    if LeastFree(s, p, 0).Some? {
      var g := p.base + LeastFree(s, p, 0).value;
      FreeMeansUnowned(s, p, pd, owner, g);
      if HasTable(s, pd, d) {
        OrdinaryTable(s, p, pd, owner, d);
        PageEntry(s, p, pd, d, TableOf(s, pd, d), t, g);
      } else {
        var s1 := InstallTable(s, p, pd, d, g);
        TableEntries(s, p, pd, owner, d, g);
        if LeastFree(s1, p, 0).Some? { PageEntry(s1, p, pd, d, g, t, p.base + LeastFree(s1, p, 0).value); }
      }
    }
  }

  lemma PageEntry(s: Ram, p: Pool, pd: nat, d: nat, f: nat, t: nat, g: nat)
    requires BitmapBelow(p) && InProcessPool(f) && InProcessPool(pd) && InProcessPool(g) && f != pd
    requires d < 1024 && t < 1024
    ensures var s' := MapPage(s, p, f, t, g);
      && EntryAt(s', f, t) % 4096 == 7 && EntryAt(s', pd, d) == EntryAt(s, pd, d)
      && forall k: nat | k < 1024 && k != t :: EntryAt(s', f, k) == EntryAt(s, f, k)
  {
    hide MapPage, UsedFrames, EntryAt, BitmapBelow;
    MapPageWords(s, p, f, t, g);
  }

  lemma TableEntries(s: Ram, p: Pool, pd: nat, owner: Owners, d: nat, f: nat)
    requires WellFormed(s, p, pd, owner) && InProcessPool(f) && InProcessPool(pd) && f != pd && d < 1024
    ensures BitmapBelow(p)
    ensures var s' := InstallTable(s, p, pd, d, f);
      && EntryAt(s', pd, d) == 4096 * f + 3 && HasTable(s', pd, d) && TableOf(s', pd, d) == f
      && forall k: nat | k < 1024 :: EntryAt(s', f, k) == 0
  {
    hide InstallTable, UsedFrames, EntryAt, IdentityMap, SelfMap, TablesOwned, PagesOwned, HoleOwned, FixedRoles;
    InstallTableWords(s, p, pd, d, f);
    EntryParts(f, 3);
  }
}
