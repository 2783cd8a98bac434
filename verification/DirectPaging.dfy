/** The earlier handler (P3), which edits tables by their physical addresses, and when it agrees
    with the self-mapping one (P4). */
module DirectPaging {
  import opened PhysicalMemory
  import opened FramePools
  import opened Paging
  import opened Accounting
  import opened Faults

  /** P3's order of work: clear the new table, take the page frame, and only then enter the page
      and the table. `tables` and `pages` are the pools given to init_paging. */
  function HandleFaultDirect(s: Ram, tables: Pool, pages: Pool, pd: nat, d: nat, t: nat, err: Word): (Outcome, Ram)
    requires Handles(s, pages, pd, d) && t < 1024
    requires tables.Fits() && tables.base + tables.n <= FRAMES
  {
    if err % 2 == 1 then (ProtectionFault, s)
    else if HasTable(s, pd, d) then AddPage(s, pages, TableOf(s, pd, d), t)
    else
      match LeastFree(s, tables, 0)
      case None => (NoFrameForTable, s)
      case Some(i) =>
        var f := tables.base + i;
        var s1 := ClearWords(SetBit(s, tables, i), f, 1024);
        match LeastFree(s1, pages, 0)
        case None => (NoFrameForPage, s1)
        case Some(j) => (PageMapped, MapPage(s1, pages, f, t, pages.base + j)[1024 * pd + d := 4096 * f + 3])
  }

  /** Run on one pool, the two handlers leave the same memory and report the same, except when a
      table is needed and exactly one frame is free. Then P3 leaves that frame marked used with
      nothing naming it, so no account of the frames is possible. */
  lemma HandlersAgree(s: Ram, p: Pool, pd: nat, owner: Owners, d: nat, t: nat, err: Word)
    requires WellFormed(s, p, pd, owner) && Ordinary(d) && t < 1024
    ensures Handles(s, p, pd, d)
    ensures var short := err % 2 == 0 && !HasTable(s, pd, d) && |Free(s, p)| == 1;
      var direct := HandleFaultDirect(s, p, p, pd, d, t, err);
      && (direct == HandleFault(s, p, pd, d, t, err) <==> !short)
      && (short ==> forall owner': Owners :: !WellFormed(direct.1, p, pd, owner'))
  {
    hide WellFormed, Lookup, InstallTable, UsedFrames, EntryAt, Free, HasTable, TableOf, MapPage, SetBit, ClearWords;
    HandlesOrdinary(s, p, pd, owner, d);
    LeastFreeIsFree(s, p);
    if err % 2 == 0 && !HasTable(s, pd, d) && LeastFree(s, p, 0).Some? {
      var f := p.base + LeastFree(s, p, 0).value;
      FreeMeansUnowned(s, p, pd, owner, f);
      DirectoryRole(s, p, pd, owner);
      RootsInPool(s, p, pd, owner);
      InstalledTable(s, p, pd, owner, d, f);
      LeastFreeIsFree(InstallTable(s, p, pd, d, f), p);
      assert |Free(InstallTable(s, p, pd, d, f), p)| == |Free(s, p)| - 1;
      TableOrder(s, p, pd, d, t, f);
      UnenteredTableLeaks(s, p, pd, owner, d, f);
    }
  }

  /** What the two orders of work leave, when a table is needed and frame `f` is taken for it. */
  lemma TableOrder(s: Ram, p: Pool, pd: nat, d: nat, t: nat, f: nat)
    requires BitmapBelow(p) && InProcessPool(f) && InProcessPool(pd) && f != pd && Ordinary(d) && t < 1024
    requires !HasTable(s, pd, d)
    ensures var s1, s1' := InstallTable(s, p, pd, d, f), ClearWords(SetBit(s, p, f - p.base), f, 1024);
      && LeastFree(s1', p, 0) == LeastFree(s1, p, 0)
      && s1 != s1'
      && (LeastFree(s1, p, 0).Some? ==>
            var g := p.base + LeastFree(s1, p, 0).value;
            MapPage(s1', p, f, t, g)[1024 * pd + d := 4096 * f + 3] == MapPage(s1, p, f, t, g))
  {
    hide InstallTable, HasTable, MapPage, SetBit, ClearWords, Used, UsedFrames;
    LateEntry(s, p, pd, d, f);
    LateEntryShows(s, p, pd, d, f);
    var s1' := ClearWords(SetBit(s, p, f - p.base), f, 1024);
    if LeastFree(s1', p, 0).Some? {
      MapPageLater(s1', p, f, t, p.base + LeastFree(s1', p, 0).value, 1024 * pd + d, 4096 * f + 3);
    }
  }

  /** Entering the table in the directory before or after clearing it makes no difference. */
  lemma LateEntry(s: Ram, p: Pool, pd: nat, d: nat, f: nat)
    requires BitmapBelow(p) && InProcessPool(f) && InProcessPool(pd) && f != pd && d < 1024
    ensures var s1' := ClearWords(SetBit(s, p, f - p.base), f, 1024);
      && InstallTable(s, p, pd, d, f) == s1'[1024 * pd + d := 4096 * f + 3]
      && LeastFree(s1', p, 0) == LeastFree(InstallTable(s, p, pd, d, f), p, 0)
  {
    hide SetBit, ClearWords, Used, UsedFrames;
    var a := SetBit(s, p, f - p.base);
    var w, v := 1024 * pd + d, 4096 * f + 3;
    var x, y := ClearWords(a[w := v], f, 1024), ClearWords(a, f, 1024)[w := v];
    forall k: nat | k < RAM_WORDS
      ensures x[k] == y[k]
    {
      ClearWordsEffect(a[w := v], f, 1024, k);
      ClearWordsEffect(a, f, 1024, k);
    }
    assert x == y;
    SameLeastFree(ClearWords(a, f, 1024), x, p);
  }

  lemma SameLeastFree(s: Ram, s': Ram, p: Pool)
    requires BitmapBelow(p) && forall w: nat | w < POOL_WORDS :: s'[w] == s[w]
    ensures LeastFree(s', p, 0) == LeastFree(s, p, 0)
  {
    hide Used, UsedFrames;
    UsedDependsOnBitmap(s, s', p);
    SameSearch(s, s', p, 0);
  }

  lemma {:induction false} SameSearch(s: Ram, s': Ram, p: Pool, from: nat)
    requires p.Fits() && from <= p.n && forall i: nat | i < p.n :: Used(s', p, i) == Used(s, p, i)
    ensures LeastFree(s', p, from) == LeastFree(s, p, from)
    decreases p.n - from
  {
    hide Used;
    if from < p.n { SameSearch(s, s', p, from + 1); }
  }

  /** The directory entry is what tells the two memories apart. */
  lemma LateEntryShows(s: Ram, p: Pool, pd: nat, d: nat, f: nat)
    requires BitmapBelow(p) && InProcessPool(f) && InProcessPool(pd) && f != pd && d < 1024
    requires !HasTable(s, pd, d)
    ensures InstallTable(s, p, pd, d, f) != ClearWords(SetBit(s, p, f - p.base), f, 1024)
  {
    hide SetBit, ClearWords, InstallTable, UsedFrames, Used;
    var s1' := ClearWords(SetBit(s, p, f - p.base), f, 1024);
    LateEntry(s, p, pd, d, f);
    ClearWordsEffect(SetBit(s, p, f - p.base), f, 1024, 1024 * pd + d);
    BitmapWordsLow(s, p, f - p.base, 1024 * pd + d);
    EntryParts(f, 3);
    assert s1'[1024 * pd + d] == s[1024 * pd + d] == EntryAt(s, pd, d);
  }

  lemma MapPageLater(s: Ram, p: Pool, f: nat, t: nat, g: nat, w: nat, v: Word)
    requires BitmapBelow(p) && p.Has(g) && f < FRAMES && t < 1024
    requires POOL_WORDS <= w < RAM_WORDS && w != 1024 * f + t
    ensures MapPage(s, p, f, t, g)[w := v] == MapPage(s[w := v], p, f, t, g)
  {
    hide SetBit;
    SetBitLater(s, p, g - p.base, w, v);
    var a := SetBit(s, p, g - p.base);
    assert a[1024 * f + t := 4096 * g + 7][w := v] == a[w := v][1024 * f + t := 4096 * g + 7];
  }

  lemma SetBitLater(s: Ram, p: Pool, i: nat, w: nat, v: Word)
    requires BitmapBelow(p) && i < p.n && POOL_WORDS <= w < RAM_WORDS
    ensures SetBit(s, p, i)[w := v] == SetBit(s[w := v], p, i)
  {
    var k := p.bitmap + i / 8;
    assert k / 4 < POOL_WORDS;
  }

  /** A table frame taken and cleared but never entered is leaked. */
  lemma UnenteredTableLeaks(s: Ram, p: Pool, pd: nat, owner: Owners, d: nat, f: nat)
    requires WellFormed(s, p, pd, owner) && Ordinary(d) && !HasTable(s, pd, d) && f in Free(s, p)
    ensures InProcessPool(f) && p.Fits() && p == ProcessPool(p.bitmap)
    ensures var s1' := ClearWords(SetBit(s, p, f - p.base), f, 1024);
      forall owner': Owners :: !WellFormed(s1', p, pd, owner')
  {
    hide WellFormed, Lookup, UsedFrames, EntryAt, HasTable, TableOf, SetBit, ClearWords, Used, Names;
    FreeMeansUnowned(s, p, pd, owner, f);
    RootsInPool(s, p, pd, owner);
    DirectoryRole(s, p, pd, owner);
    FreeOutsideHole(s, p, pd, owner, f);
    ClearedFrameOnly(s, p, f);
    var s1' := ClearWords(SetBit(s, p, f - p.base), f, 1024);
    forall x: Place
      ensures Names(s1', pd, x) != Some(f)
    {
      ClearedFrameNames(s, s1', p, pd, owner, f, x);
    }
    SameRoot(s, s1', pd, f);
    LeakedFrame(s1', p, pd, f);
  }

  lemma FreeOutsideHole(s: Ram, p: Pool, pd: nat, owner: Owners, f: nat)
    requires WellFormed(s, p, pd, owner) && f !in owner
    ensures !InHole(f)
  {
    hide UsedFrames, EntryAt, IdentityMap, SelfMap, TablesOwned, PagesOwned;
  }

  /** In the process pool the two memories differ only in frame `f`. */
  ghost predicate FrameCleared(s: Ram, s': Ram, f: nat) {
    forall g: nat, j: nat {:trigger EntryAt(s', g, j)} | InProcessPool(g) && j < 1024 && g != f ::
      EntryAt(s', g, j) == EntryAt(s, g, j)
  }

  lemma ClearedFrameOnly(s: Ram, p: Pool, f: nat)
    requires BitmapBelow(p) && InProcessPool(f)
    ensures var s1' := ClearWords(SetBit(s, p, f - p.base), f, 1024);
      FrameCleared(s, s1', f) && UsedFrames(s1', p) == UsedFrames(s, p) + {f}
  {
    hide SetBit, ClearWords, Used, UsedFrames;
    var a := SetBit(s, p, f - p.base);
    var s' := ClearWords(a, f, 1024);
    SetBitAddsFrame(s, p, f - p.base, p);
    forall w: nat | w < RAM_WORDS
      ensures s'[w] == if 1024 * f <= w < 1024 * f + 1024 then 0 else a[w]
    {
      ClearWordsEffect(a, f, 1024, w);
    }
    SameBitmapSameUsed(a, s', p);
    forall g: nat, j: nat | InProcessPool(g) && j < 1024 && g != f
      ensures EntryAt(s', g, j) == EntryAt(s, g, j)
    {
      BitmapWordsLow(s, p, f - p.base, 1024 * g + j);
    }
  }

  lemma SameRoot(s: Ram, s': Ram, pd: nat, f: nat)
    requires InProcessPool(pd) && pd != f && FrameCleared(s, s', f)
    ensures TableOf(s', pd, 0) == TableOf(s, pd, 0)
  {
    hide EntryAt;
  }

  lemma ClearedFrameNames(s: Ram, s': Ram, p: Pool, pd: nat, owner: Owners, f: nat, x: Place)
    requires WellFormed(s, p, pd, owner) && f !in owner && InProcessPool(pd) && pd != f
    requires FrameCleared(s, s', f)
    ensures Names(s', pd, x) != Some(f)
  {
    hide WellFormed, UsedFrames, EntryAt, Present, FrameOf;
    assert forall k: nat | k < 1024 :: EntryAt(s', pd, k) == EntryAt(s, pd, k);
    if Names(s', pd, x) == Some(f) {
      if Ordinary(x.d) && HasTable(s, pd, x.d) { OrdinaryTable(s, p, pd, owner, x.d); }
      assert Names(s, pd, x) == Some(f);
      NamedFrameOwned(s, p, pd, owner, x);
    }
  }
}
