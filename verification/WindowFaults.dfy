/** Faults in the last 4 MB: the windows through which tables are edited. */
module WindowFaults {
  import opened PhysicalMemory
  import opened FramePools
  import opened Paging
  import opened Translation
  import opened Accounting
  import opened Faults
  import opened PageRelease
  import opened SelfMapAccess
  import opened PagingWrites

  /** A reference to the window of an absent table (in the last 4 MB) is itself served as a fault:
      it makes slot `t` name a fresh frame without clearing it, so whatever words the frame held
      become that table's entries. */
  lemma WindowFaultInstallsStaleTable(s: Ram, p: Pool, pd: nat, owner: Owners, t: nat)
    requires WellFormed(s, p, pd, owner) && Ordinary(t) && !HasTable(s, pd, t) && |Free(s, p)| > 0
    ensures Handles(s, p, pd, WINDOW)
    ensures var s' := HandleFault(s, p, pd, WINDOW, t, 0).1;
      && HasTable(s', pd, t) && TableOf(s', pd, t) in Free(s, p)
      && forall k: nat | k < 1024 :: EntryAt(s', TableOf(s', pd, t), k) == EntryAt(s, TableOf(s', pd, t), k)
  {
    hide WellFormed, UsedFrames, EntryAt, MapPage, Free, Present, FrameOf, Rooted;
    WellFormedRooted(s, p, pd, owner);
    SlotFrame(s, pd, owner, WINDOW);
    LeastFreeIsFree(s, p);
    var g := p.base + LeastFree(s, p, 0).value;
    MapPageWords(s, p, pd, t, g);
    EntryParts(g, 7);
    DirectoryUsed(s, p, pd, owner);
    FreeNotUsed(s, p, g);
  }

  /** What is unmapped in the last 4 MB is the window of an absent ordinary table, and its entry stands
      in the directory. */
  lemma UnmappedWindow(s: Ram, p: Pool, pd: nat, owner: Owners, d: nat, t: nat)
    requires WellFormed(s, p, pd, owner) && d < 1024 && t < 1024 && pd < FRAMES
    requires Lookup(s, pd, d, t).None? && !Ordinary(d)
    ensures d == WINDOW && HasTable(s, pd, d) && TableOf(s, pd, d) == pd && Ordinary(t) && !HasTable(s, pd, t)
  {
    hide WellFormed, EntryAt, Rooted;
    AnySlot(s, p, pd, owner, d);
    AnySlot(s, p, pd, owner, t);
    if d == 0 {
      IdentityTranslates(s, p, pd, owner, 4096 * t);
    } else {
      WellFormedRooted(s, p, pd, owner);
      SlotFrame(s, pd, owner, d);
    }
  }

  /** The frame handed out next, if there is one, holds no word that is a present entry. */
  ghost predicate Clean(s: Ram, p: Pool)
    requires p == ProcessPool(p.bitmap) && p.Fits()
  {
    LeastFree(s, p, 0).Some? ==> Blank(s, p.base + LeastFree(s, p, 0).value)
  }

  /** Entering a page in the directory links a table. */
  lemma DirectoryPageLinks(s: Ram, p: Pool, pd: nat, d: nat, g: nat)
    requires BitmapBelow(p) && InProcessPool(pd) && InProcessPool(g) && g != pd && d < 1024
    ensures var s' := MapPage(s, p, pd, d, g);
      && Linked(s, s', pd, d, g) && UsedFrames(s', p) == UsedFrames(s, p) + {g}
      && (Blank(s', g) <==> Blank(s, g))
      && forall k: nat | k < 1024 :: EntryAt(s', g, k) == EntryAt(s, g, k)
  {
    hide UsedFrames, EntryAt, MapPage, Present, FrameOf;
    MapPageWords(s, p, pd, d, g);
    EntryParts(g, 7);
    assert forall k: nat | k < 1024 :: EntryAt(MapPage(s, p, pd, d, g), g, k) == EntryAt(s, g, k);
  }

  /** Which not-present faults keep the invariant, and with it frames exclusive and adding up: those
      outside the first and last 4 MB, and any when the frame handed out next holds no present entry, or
      there is none. */
  lemma FaultKeepsExactly(s: Ram, p: Pool, pd: nat, owner: Owners, d: nat, t: nat, err: Word)
    requires WellFormed(s, p, pd, owner) && d < 1024 && t < 1024 && err % 2 == 0
    requires pd < FRAMES && Lookup(s, pd, d, t).None?
    ensures Handles(s, p, pd, d)
    ensures var s' := HandleFault(s, p, pd, d, t, err).1;
      && (Consistent(s', p, pd) <==> Ordinary(d) || Clean(s, p))
      && ((exists owner': Owners :: WellFormed(s', p, pd, owner')) <==> Ordinary(d) || Clean(s, p))
  {
    hide WellFormed, UsedFrames, EntryAt, MapPage, Free, HasTable, TableOf, Lookup, FaultMapping, Consistent, Linked;
    hide Blank;
    SlotHandles(s, p, pd, owner, d);
    if Ordinary(d) {
      var owner', table, page := FaultTheorem(s, p, pd, owner, d, t, err);
      WellFormedIsConsistent(HandleFault(s, p, pd, d, t, err).1, p, pd, owner');
    } else {
      UnmappedWindow(s, p, pd, owner, d, t);
      LeastFreeIsFree(s, p);
      if LeastFree(s, p, 0).Some? {
        var g := p.base + LeastFree(s, p, 0).value;
        var s' := MapPage(s, p, pd, t, g);
        assert HandleFault(s, p, pd, d, t, err).1 == s';
        FreeFrameUnowned(s, p, pd, owner, g);
        DirectoryPageLinks(s, p, pd, t, g);
        LinkedExactly(s, s', p, pd, owner, t, g, {});
      } else {
        WellFormedIsConsistent(s, p, pd, owner);
        assert WellFormed(HandleFault(s, p, pd, d, t, err).1, p, pd, owner);
      }
    }
  }

  lemma FreeFrameUnowned(s: Ram, p: Pool, pd: nat, owner: Owners, g: nat)
    requires WellFormed(s, p, pd, owner) && p.Fits() && g in Free(s, p)
    ensures BitmapBelow(p) && InProcessPool(pd) && InProcessPool(g) && g != pd
    ensures g !in owner && g !in UsedFrames(s, p)
  {
    hide WellFormed, UsedFrames;
    FreeMeansUnowned(s, p, pd, owner, g);
    DirectoryUsed(s, p, pd, owner);
    WellFormedRooted(s, p, pd, owner);
    FreeNotUsed(s, p, g);
  }

  /** Such a fault maps one page: the window of the table entered. */
  lemma WindowFaultTranslates(s: Ram, p: Pool, pd: nat, owner: Owners, t: nat)
    returns (owner': Owners, table: Option<nat>)
    requires WellFormed(s, p, pd, owner) && pd < FRAMES && t < 1024 && Lookup(s, pd, WINDOW, t).None? && Clean(s, p)
    ensures Handles(s, p, pd, WINDOW)
    ensures var s' := HandleFault(s, p, pd, WINDOW, t, 0).1;
      && WellFormed(s', p, pd, owner') && FaultMapping(s, s', pd, WINDOW, t, None, table)
      && WritesOnlyUsed(s, s', p)
  {
    hide WellFormed, UsedFrames, EntryAt, MapPage, Free, HasTable, TableOf, Lookup, FaultMapping, Linked, Blank;
    hide ChangesOnlyPage, WritesOnlyUsed;
    SlotHandles(s, p, pd, owner, WINDOW);
    UnmappedWindow(s, p, pd, owner, WINDOW, t);
    LeastFreeIsFree(s, p);
    owner', table := owner, None;
    if LeastFree(s, p, 0).Some? {
      var g := p.base + LeastFree(s, p, 0).value;
      var s' := MapPage(s, p, pd, t, g);
      assert HandleFault(s, p, pd, WINDOW, t, 0).1 == s';
      FreeFrameUnowned(s, p, pd, owner, g);
      DirectoryPageLinks(s, p, pd, t, g);
      NewTableKeeps(s, s', p, pd, owner, t, g);
      NewTableTranslates(s, s', p, pd, owner, t, g);
      owner', table := owner[g := Table(t)], Some(g);
      PageAlone(s, s', pd, WINDOW, t, g);
      DirectoryUsed(s, p, pd, owner);
      MapPageWrites(s, p, pd, t, g);
    } else {
      NothingMapped(s, pd, WINDOW, t);
      NoWrites(s, p);
    }
  }

  // ----- releasing a page whose table is absent -----

  /** free_page on entry `t` of table `d`, `asCoded` or as intended. The entry is read through the
      window: with the table absent that read faults first. None when the fault finds no frame, for then
      the read faults again, for ever. */
  function FreePageFaulting(s: Ram, st: Statics, p: Pool, pd: nat, d: nat, t: nat, asCoded: bool): Option<Ram>
    requires st.Fits() && Handles(s, p, pd, WINDOW) && d < 1024 && t < 1024
    requires HasTable(s, pd, d) ==> TableOf(s, pd, d) < FRAMES
  {
    if HasTable(s, pd, d) then Some(FreePageFrom(s, st, TableOf(s, pd, d), t, asCoded))
    else
      var (o, s1) := HandleFault(s, p, pd, WINDOW, d, 0);
      if o == PageMapped && TableOf(s1, pd, d) < FRAMES then
        Some(FreePageFrom(s1, st, TableOf(s1, pd, d), t, asCoded))
      else None
  }

  function FreePageFrom(s: Ram, st: Statics, f: nat, t: nat, asCoded: bool): Ram
    requires st.Fits() && f < FRAMES && t < 1024
  {
    FreePageAs(s, st, f, t, if asCoded then EntryAt(s, f, t) else FrameOf(EntryAt(s, f, t)))
  }

  /** The fault on the window of absent table `d`: nothing without a free frame; otherwise slot `d` names
      a frame that was free, with a page's flags, and its window is open. */
  lemma WindowFault(s: Ram, p: Pool, pd: nat, owner: Owners, d: nat)
    requires WellFormed(s, p, pd, owner) && d < 1024 && pd < FRAMES && !HasTable(s, pd, d)
    ensures Handles(s, p, pd, WINDOW) && Ordinary(d) && Lookup(s, pd, WINDOW, d).None?
    ensures var (o, s1) := HandleFault(s, p, pd, WINDOW, d, 0);
      && (o == PageMapped <==> |Free(s, p)| > 0) && (o != PageMapped ==> s1 == s)
      && (o == PageMapped ==>
            var f := TableOf(s1, pd, d);
            && Window(s1, pd, d, f) && f in Free(s, p) && f != pd && f < FRAMES
            && EntryAt(s1, pd, d) == 4096 * f + 7)
  {
    hide WellFormed, UsedFrames, EntryAt, MapPage, Free, Present, FrameOf, Rooted;
    AnySlot(s, p, pd, owner, d);
    WellFormedRooted(s, p, pd, owner);
    SlotFrame(s, pd, owner, WINDOW);
    LeastFreeIsFree(s, p);
    if LeastFree(s, p, 0).Some? {
      var g := p.base + LeastFree(s, p, 0).value;
      DirectoryUsed(s, p, pd, owner);
      FreeNotUsed(s, p, g);
      MapPageWords(s, p, pd, d, g);
      EntryParts(g, 7);
    }
  }

  /** Releasing frames writes nothing in the process pool. */
  lemma ReleaseStaysLow(s: Ram, st: Statics, p: Pool, released: nat, w: nat)
    requires ProcessPoolOf(st, p) && BitmapBelow(p) && POOL_WORDS <= w < RAM_WORDS
    requires st.kernelBitmap + KERNEL_SIZE / 8 <= 4096 * PROCESS_START
    ensures ReleaseFrame(s, st, released)[w] == s[w]
  {
    hide ClearBit, SetBit;
    if InProcessPool(released) {
      BitmapWordsLow(s, p, released - PROCESS_START, w);
    } else if InKernelPool(released) {
      ClearBitStaysInBitmap(s, KernelPool(st.kernelBitmap), released - KERNEL_START);
    }
  }

  /** The frame whose mark the release of entry `t` clears, read from a table in frame `f`. */
  function Given(s: Ram, st: Statics, f: nat, t: nat, asCoded: bool): set<nat>
    requires f < FRAMES && t < 1024
  {
    var e := EntryAt(s, f, t);
    var n := if asCoded then e else FrameOf(e);
    if Present(e) && (InProcessPool(n) || InKernelPool(n)) && !InHole(n)
       && n != (if InProcessPool(n) then st.processInfo else st.kernelInfo) then {n}
    else {}
  }

  /** No word of the frame but the one of entry `t` is a present entry. */
  ghost predicate BlankBut(s: Ram, f: nat, t: nat)
    requires f < FRAMES
  {
    forall k: nat | k < 1024 && k != t :: !Present(EntryAt(s, f, k))
  }

  /** What a release from a table does to frames and tables: the mark of the frame given is cleared,
      whatever frame that is, and among the process frames only the entry is written. */
  lemma FreePageFromEffect(s: Ram, st: Statics, p: Pool, f: nat, t: nat, asCoded: bool)
    requires st.Apart() && ProcessPoolOf(st, p) && BitmapBelow(p) && InProcessPool(f) && t < 1024
    requires st.kernelBitmap + KERNEL_SIZE / 8 <= 4096 * PROCESS_START
    ensures var s' := FreePageFrom(s, st, f, t, asCoded);
      && AllUsed(s', st) == AllUsed(s, st) - Given(s, st, f, t, asCoded)
      && UsedFrames(s', p) == UsedFrames(s, p) - Given(s, st, f, t, asCoded)
      && !Present(EntryAt(s', f, t))
      && EntryAt(s', f, t) == (if Present(EntryAt(s, f, t)) then 0 else EntryAt(s, f, t))
      && (forall g: nat, j: nat {:trigger EntryAt(s', g, j)} | InProcessPool(g) && j < 1024 && !(g == f && j == t) ::
            EntryAt(s', g, j) == EntryAt(s, g, j))
  {
    hide ReleaseFrame, UsedFrames, AllUsed, BitmapBelow;
    var e := EntryAt(s, f, t);
    var n := if asCoded then e else FrameOf(e);
    var s1 := ReleaseFrame(s, st, n);
    if Present(e) {
      ReleasedFrames(s, st, p, n);
      ReleasedEntryGone(s1, st, p, f, t);
      forall g: nat, j: nat | InProcessPool(g) && j < 1024 && !(g == f && j == t)
        ensures EntryAt(s1[1024 * f + t := 0], g, j) == EntryAt(s, g, j)
      {
        ReleaseStaysLow(s, st, p, n, 1024 * g + j);
      }
      ZeroEntry();
    }
  }

  lemma ReleasedFrames(s: Ram, st: Statics, p: Pool, n: nat)
    requires st.Apart() && ProcessPoolOf(st, p)
    ensures AllUsed(ReleaseFrame(s, st, n), st) == AllUsed(s, st) - if Releasable(st, n) then {n} else {}
    ensures UsedFrames(ReleaseFrame(s, st, n), p) == UsedFrames(s, p) - if Releasable(st, n) then {n} else {}
  {
    hide UsedFrames, ClearBit;
    ReleaseRefinesSet(s, st, n);
    if Releasable(st, n) {
      if InProcessPool(n) {
        ClearBitRemovesFrame(s, p, n - PROCESS_START, p);
      } else {
        ClearBitRemovesFrame(s, KernelPool(st.kernelBitmap), n - KERNEL_START, p);
        UsedFramesIn(s, p, n);
      }
    }
  }

  /** Writing a process frame's word touches no bitmap. */
  lemma ReleasedEntryGone(s: Ram, st: Statics, p: Pool, f: nat, t: nat)
    requires st.Fits() && ProcessPoolOf(st, p) && BitmapBelow(p) && InProcessPool(f) && t < 1024
    requires st.kernelBitmap + KERNEL_SIZE / 8 <= 4096 * PROCESS_START
    ensures UsedFrames(s[1024 * f + t := 0], p) == UsedFrames(s, p)
    ensures AllUsed(s[1024 * f + t := 0], st) == AllUsed(s, st)
  {
    hide UsedFrames, Used;
    UsedDependsOnBitmap(s, s[1024 * f + t := 0], p);
    UsedDependsOnBitmap(s, s[1024 * f + t := 0], KernelPool(st.kernelBitmap));
  }

  /** Whether the release of entry `t` of table `d` keeps the invariant: with the table present, unless as
      coded there is a page to release; with it absent, if the next frame's words, entry `t` apart, are no
      present entries, and what the stale entry `t` gives away was not in use. */
  ghost predicate FreeKeeps(s: Ram, st: Statics, p: Pool, pd: nat, d: nat, t: nat, asCoded: bool)
    requires p == ProcessPool(p.bitmap) && p.Fits() && pd < FRAMES && d < 1024 && t < 1024
  {
    if HasTable(s, pd, d) then asCoded ==> Lookup(s, pd, d, t).None?
    else LeastFree(s, p, 0).Some? ==>
      var g := p.base + LeastFree(s, p, 0).value;
      BlankBut(s, g, t) && Given(s, st, g, t, asCoded) !! UsedFrames(s, p) + {g}
  }

  /** The release from an absent table, in full: the next frame becomes the table with the words it
      holds, and loses entry `t`; the frame that the stale entry names is given away. */
  lemma AbsentRelease(s: Ram, st: Statics, p: Pool, pd: nat, owner: Owners, d: nat, t: nat, asCoded: bool)
    requires WellFormed(s, p, pd, owner) && st.Apart() && ProcessPoolOf(st, p) && pd < FRAMES && Ordinary(d) && t < 1024
    requires st.kernelBitmap + KERNEL_SIZE / 8 <= 4096 * PROCESS_START
    requires !HasTable(s, pd, d) && LeastFree(s, p, 0).Some?
    ensures Handles(s, p, pd, WINDOW)
    ensures var g := p.base + LeastFree(s, p, 0).value; var r := FreePageFaulting(s, st, p, pd, d, t, asCoded);
      && r.Some? && g < FRAMES && g !in UsedFrames(s, p) && g !in owner && InProcessPool(g)
      && Linked(s, r.value, pd, d, g) && (Blank(r.value, g) <==> BlankBut(s, g, t))
      && (forall k: nat | k < 1024 ::
            EntryAt(r.value, g, k) == if k == t && Present(EntryAt(s, g, t)) then 0 else EntryAt(s, g, k))
      && UsedFrames(r.value, p) == UsedFrames(s, p) + {g} - Given(s, st, g, t, asCoded)
      && AllUsed(r.value, st) == AllUsed(s, st) + {g} - Given(s, st, g, t, asCoded)
  {
    hide WellFormed, UsedFrames, EntryAt, Free, MapPage, FreePageFrom, Present, FrameOf, AllUsed;
    hide BitmapBelow, LeastFree;
    SlotHandles(s, p, pd, owner, WINDOW);
    WindowFault(s, p, pd, owner, d);
    UnmappedWindow(s, p, pd, owner, WINDOW, d);
    LeastFreeIsFree(s, p);
    var g := p.base + LeastFree(s, p, 0).value;
    FreeFrameUnowned(s, p, pd, owner, g);
    DirectoryPageLinks(s, p, pd, d, g);
    MarkedInAll(s, st, p, pd, d, g);
    var s1 := MapPage(s, p, pd, d, g);
    assert HandleFault(s, p, pd, WINDOW, d, 0) == (PageMapped, s1);
    FreePageFromEffect(s1, st, p, g, t, asCoded);
    var s2 := FreePageFrom(s1, st, g, t, asCoded);
    assert forall k: nat | k < 1024 && k != t :: EntryAt(s2, g, k) == EntryAt(s, g, k);
  }

  lemma MarkedInAll(s: Ram, st: Statics, p: Pool, pd: nat, d: nat, g: nat)
    requires st.Apart() && ProcessPoolOf(st, p) && BitmapBelow(p) && InProcessPool(pd) && InProcessPool(g) && d < 1024
    requires st.kernelBitmap + KERNEL_SIZE / 8 <= 4096 * PROCESS_START
    ensures AllUsed(MapPage(s, p, pd, d, g), st) == AllUsed(s, st) + {g}
  {
    hide UsedFrames, SetBit, Used;
    MapPageWords(s, p, pd, d, g);
    var k := KernelPool(st.kernelBitmap);
    var s1 := SetBit(s, p, g - p.base);
    SetBitAddsFrame(s, p, g - p.base, k);
    UsedDependsOnBitmap(s1, MapPage(s, p, pd, d, g), k);
  }

  /** A release finishes exactly when the page's table is there or some frame is free; and then keeps the
      invariant, and frames exclusive and adding up, exactly when `FreeKeeps` says. */
  lemma FreePageKeepsExactly(s: Ram, st: Statics, p: Pool, pd: nat, owner: Owners, d: nat, t: nat, asCoded: bool)
    requires WellFormed(s, p, pd, owner) && st.Apart() && ProcessPoolOf(st, p) && pd < FRAMES && Ordinary(d) && t < 1024
    requires st.kernelBitmap + KERNEL_SIZE / 8 <= 4096 * PROCESS_START
    ensures Handles(s, p, pd, WINDOW) && (HasTable(s, pd, d) ==> TableOf(s, pd, d) < FRAMES)
    ensures var r := FreePageFaulting(s, st, p, pd, d, t, asCoded);
      && (r.Some? <==> HasTable(s, pd, d) || |Free(s, p)| > 0)
      && (r.Some? ==>
            ((exists owner': Owners :: WellFormed(r.value, p, pd, owner')) <==> FreeKeeps(s, st, p, pd, d, t, asCoded)))
      && (r.Some? && !HasTable(s, pd, d) ==>
            (Consistent(r.value, p, pd) <==> FreeKeeps(s, st, p, pd, d, t, asCoded)))
  {
    hide WellFormed, UsedFrames, EntryAt, Free, HasTable, TableOf, HandleFault, FreePageFrom, Lookup, Consistent;
    hide Linked, Blank, BlankBut, Given, LeastFree, AllUsed, ProcessPoolOf;
    SlotHandles(s, p, pd, owner, WINDOW);
    SlotHandles(s, p, pd, owner, d);
    LeastFreeIsFree(s, p);
    if HasTable(s, pd, d) {
      PresentPageFreed(s, st, p, pd, owner, d, t, asCoded);
    } else {
      WindowFault(s, p, pd, owner, d);
      if |Free(s, p)| > 0 {
        AbsentRelease(s, st, p, pd, owner, d, t, asCoded);
        var g := p.base + LeastFree(s, p, 0).value;
        var s' := FreePageFaulting(s, st, p, pd, d, t, asCoded).value;
        LinkedExactly(s, s', p, pd, owner, d, g, Given(s, st, g, t, asCoded));
      }
    }
  }

  /** In particular a stale entry that names the directory frees the directory. */
  lemma StaleEntryFreesDirectory(s: Ram, st: Statics, p: Pool, pd: nat, owner: Owners, d: nat, t: nat)
    requires WellFormed(s, p, pd, owner) && st.Apart() && ProcessPoolOf(st, p) && pd < FRAMES && Ordinary(d) && t < 1024
    requires st.kernelBitmap + KERNEL_SIZE / 8 <= 4096 * PROCESS_START
    requires !HasTable(s, pd, d) && LeastFree(s, p, 0).Some? && p.base + LeastFree(s, p, 0).value < FRAMES
    requires EntryAt(s, p.base + LeastFree(s, p, 0).value, t) == 4096 * pd + 7
    ensures Handles(s, p, pd, WINDOW)
    ensures var r := FreePageFaulting(s, st, p, pd, d, t, false);
      r.Some? && pd in UsedFrames(s, p) && pd !in UsedFrames(r.value, p)
  {
    hide WellFormed, UsedFrames, EntryAt, LeastFree, FreePageFaulting, Linked, Blank, BlankBut, AllUsed;
    hide Present, FrameOf;
    AbsentRelease(s, st, p, pd, owner, d, t, false);
    DirectoryUsed(s, p, pd, owner);
    RootsInPool(s, p, pd, owner);
    EntryParts(pd, 7);
  }

  lemma PresentTableFrees(s: Ram, st: Statics, p: Pool, pd: nat, d: nat, t: nat)
    requires st.Fits() && Handles(s, p, pd, WINDOW) && d < 1024 && t < 1024
    requires HasTable(s, pd, d) && TableOf(s, pd, d) < FRAMES
    ensures FreePageFaulting(s, st, p, pd, d, t, false) == Some(FreePage(s, st, TableOf(s, pd, d), t))
  {
    hide FreePageAs;
  }

  /** Where a release writes, table absent or present. */
  lemma FreePageFaultingWrites(s: Ram, st: Statics, p: Pool, pd: nat, owner: Owners, d: nat, t: nat)
    requires WellFormed(s, p, pd, owner) && ProcessPoolOf(st, p) && pd < FRAMES && Ordinary(d) && t < 1024
    requires Handles(s, p, pd, WINDOW) && (HasTable(s, pd, d) ==> TableOf(s, pd, d) < FRAMES)
    requires HasTable(s, pd, d) || Clean(s, p)
    ensures match FreePageFaulting(s, st, p, pd, d, t, false)
      case None => true
      case Some(s') => WritesOnlyUsed(s, s', p)
  {
    hide WellFormed, UsedFrames, EntryAt, FreePageAs, HandleFault, WritesOnlyUsed, TableOf, HasTable, FaultMapping;
    if HasTable(s, pd, d) {
      PresentTableFrees(s, st, p, pd, d, t);
      FreePageWritesOnlyUsed(s, st, p, pd, owner, d, t);
    } else {
      WindowFault(s, p, pd, owner, d);
      var owner', table := WindowFaultTranslates(s, p, pd, owner, d);
      if |Free(s, p)| > 0 { CleanReleaseIsFault(s, st, p, pd, owner, d, t); }
    }
  }

  /** A release that enters a clean table changes no more than the fault it takes. */
  lemma CleanReleaseIsFault(s: Ram, st: Statics, p: Pool, pd: nat, owner: Owners, d: nat, t: nat)
    requires WellFormed(s, p, pd, owner) && ProcessPoolOf(st, p) && pd < FRAMES && Ordinary(d) && t < 1024
    requires Handles(s, p, pd, WINDOW) && !HasTable(s, pd, d) && Clean(s, p)
    ensures FreePageFaulting(s, st, p, pd, d, t, false) ==
      if |Free(s, p)| > 0 then Some(HandleFault(s, p, pd, WINDOW, d, 0).1) else None
  {
    hide WellFormed, UsedFrames, EntryAt, MapPage, Free, ReleaseFrame, Present, FrameOf, BitmapBelow;
    WindowFault(s, p, pd, owner, d);
    UnmappedWindow(s, p, pd, owner, WINDOW, d);
    LeastFreeIsFree(s, p);
    if |Free(s, p)| > 0 {
      var g := p.base + LeastFree(s, p, 0).value;
      FreeFrameUnowned(s, p, pd, owner, g);
      DirectoryPageLinks(s, p, pd, d, g);
      assert HandleFault(s, p, pd, WINDOW, d, 0) == (PageMapped, MapPage(s, p, pd, d, g));
    }
  }

  lemma CleanKeeps(s: Ram, st: Statics, p: Pool, pd: nat, owner: Owners, d: nat, t: nat)
    requires WellFormed(s, p, pd, owner) && ProcessPoolOf(st, p) && pd < FRAMES && Ordinary(d) && t < 1024
    requires HasTable(s, pd, d) || Clean(s, p)
    ensures FreeKeeps(s, st, p, pd, d, t, false)
  {
    hide WellFormed, UsedFrames, EntryAt, Present, FrameOf, HasTable;
  }

  lemma PresentPageFreed(s: Ram, st: Statics, p: Pool, pd: nat, owner: Owners, d: nat, t: nat, asCoded: bool)
    requires WellFormed(s, p, pd, owner) && ProcessPoolOf(st, p) && pd < FRAMES && Ordinary(d) && t < 1024
    requires HasTable(s, pd, d) && TableOf(s, pd, d) < FRAMES
    ensures (exists owner': Owners :: WellFormed(FreePageFrom(s, st, TableOf(s, pd, d), t, asCoded), p, pd, owner'))
      <==> (asCoded ==> Lookup(s, pd, d, t).None?)
  {
    hide WellFormed, FreePageAs, EntryAt, TableOf, HasTable, ChangesOnlyPage, Lookup;
    if asCoded {
      FreePageAsCodedLeaks(s, st, p, pd, owner, d, t);
      assert FreePageFrom(s, st, TableOf(s, pd, d), t, asCoded) == FreePageAsCoded(s, st, TableOf(s, pd, d), t);
    } else {
      assert FreePageFrom(s, st, TableOf(s, pd, d), t, asCoded) == FreePage(s, st, TableOf(s, pd, d), t);
      var owner' := FreePageTheorem(s, st, p, pd, owner, d, t);
    }
  }
}
