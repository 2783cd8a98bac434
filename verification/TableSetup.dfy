/** The memory that the page-table constructor builds, and the address space it gives. */
module TableSetup {
  import opened PhysicalMemory
  import opened FramePools
  import opened Paging
  import opened Translation

  /** Entries `0..m` of the first table: each page of the first 4 MB to itself. */
  function FillIdentity(s: Ram, pt: nat, m: nat): Ram
    requires pt < FRAMES && m <= 1024
  {
    if m == 0 then s else FillIdentity(s, pt, m - 1)[1024 * pt + (m - 1) := 4096 * (m - 1) + 3]
  }

  /** Directory slots `1..m`: absent. */
  function FillAbsent(s: Ram, pd: nat, m: nat): Ram
    requires pd < FRAMES && 1 <= m <= 1024
    decreases m
  {
    if m == 1 then s else FillAbsent(s, pd, m - 1)[1024 * pd + (m - 1) := 2]
  }

  /** The tables, given their two frames: first table, directory slot 0, the absent slots, and the
      directory itself in the last slot. */
  function BuildTables(s: Ram, pd: nat, pt: nat): Ram
    requires pd < FRAMES && pt < FRAMES
  {
    FillAbsent(FillIdentity(s, pt, 1024)[1024 * pd := 4096 * pt + 3], pd, 1023)[1024 * pd + 1023 := 4096 * pd + 3]
  }

  lemma FillIdentityStep(s: Ram, pt: nat, i: nat)
    requires pt < FRAMES && i < 1024
    ensures FillIdentity(s, pt, i + 1) == FillIdentity(s, pt, i)[1024 * pt + i := 4096 * i + 3]
    ensures FillIdentity(s, pt, 0) == s
  {
  }

  lemma FillAbsentStart(s: Ram, pd: nat)
    requires pd < FRAMES
    ensures FillAbsent(s, pd, 1) == s
  {
  }

  lemma FillAbsentStep(s: Ram, pd: nat, i: nat)
    requires pd < FRAMES && 1 <= i < 1024
    ensures FillAbsent(s, pd, i + 1) == FillAbsent(s, pd, i)[1024 * pd + i := 2]
  {
  }

  lemma {:induction false} FillIdentityEffect(s: Ram, pt: nat, m: nat, w: nat)
    requires pt < FRAMES && m <= 1024 && w < RAM_WORDS
    ensures FillIdentity(s, pt, m)[w] == if 1024 * pt <= w < 1024 * pt + m then 4096 * (w - 1024 * pt) + 3 else s[w]
  {
    if m > 0 { FillIdentityEffect(s, pt, m - 1, w); }
  }

  lemma {:induction false} FillAbsentEffect(s: Ram, pd: nat, m: nat, w: nat)
    requires pd < FRAMES && 1 <= m <= 1024 && w < RAM_WORDS
    ensures FillAbsent(s, pd, m)[w] == if 1024 * pd + 1 <= w < 1024 * pd + m then 2 else s[w]
    decreases m
  {
    if m > 1 { FillAbsentEffect(s, pd, m - 1, w); }
  }

  lemma BuildTablesWord(s: Ram, pd: nat, pt: nat, w: nat)
    requires pd < FRAMES && pt < FRAMES && pd != pt && w < RAM_WORDS
    ensures BuildTables(s, pd, pt)[w] ==
      if 1024 * pt <= w < 1024 * pt + 1024 then 4096 * (w - 1024 * pt) + 3
      else if w == 1024 * pd then 4096 * pt + 3
      else if w == 1024 * pd + 1023 then 4096 * pd + 3
      else if 1024 * pd < w < 1024 * pd + 1023 then 2
      else s[w]
  {
    hide FillIdentity, FillAbsent;
    FillIdentityEffect(s, pt, 1024, w);
    FillAbsentEffect(FillIdentity(s, pt, 1024)[1024 * pd := 4096 * pt + 3], pd, 1023, w);
  }

  /** The roles of the frames in use after construction. */
  ghost function InitialOwners(pd: nat, pt: nat): Owners {
    (map f | f in HoleFrames() :: Hole)[pd := Directory][pt := FirstTable]
  }

  /** The address space after construction: the first 4 MB to itself; the first table and the
      directory through the last 4 MB; nothing else. */
  ghost predicate InitialMapping(s: Ram, pd: nat, pt: nat)
    requires pd < FRAMES
  {
    forall d: nat, t: nat | d < 1024 && t < 1024 :: Lookup(s, pd, d, t) ==
      if d == 0 then Some(t)
      else if d == WINDOW && t == 0 then Some(pt)
      else if d == WINDOW && t == WINDOW then Some(pd)
      else None
  }

  ghost predicate Built(s: Ram, pd: nat, pt: nat)
    requires pd < FRAMES && pt < FRAMES
  {
    && EntryAt(s, pd, 0) == 4096 * pt + 3
    && EntryAt(s, pd, 1023) == 4096 * pd + 3
    && (forall d: nat | Ordinary(d) :: EntryAt(s, pd, d) == 2)
    && (forall t: nat | t < 1024 :: EntryAt(s, pt, t) == 4096 * t + 3)
  }

  lemma BuildTablesBuilds(s: Ram, p: Pool, pd: nat, pt: nat)
    requires BitmapBelow(p) && InProcessPool(pd) && InProcessPool(pt) && pd != pt
    ensures Built(BuildTables(s, pd, pt), pd, pt)
    ensures forall w: nat | w < POOL_WORDS :: BuildTables(s, pd, pt)[w] == s[w]
  {
    hide BuildTables;
    forall w: nat | w < POOL_WORDS
      ensures BuildTables(s, pd, pt)[w] == s[w]
    {
      BuildTablesWord(s, pd, pt, w);
    }
    forall d: nat | d < 1024
      ensures EntryAt(BuildTables(s, pd, pt), pd, d) ==
        if d == 0 then 4096 * pt + 3 else if d == 1023 then 4096 * pd + 3 else 2
    {
      BuildTablesWord(s, pd, pt, 1024 * pd + d);
    }
    forall t: nat | t < 1024
      ensures EntryAt(BuildTables(s, pd, pt), pt, t) == 4096 * t + 3
    {
      BuildTablesWord(s, pd, pt, 1024 * pt + t);
    }
  }

  lemma BuiltIsWellFormed(s: Ram, p: Pool, pd: nat, pt: nat)
    requires BitmapBelow(p) && InProcessPool(pd) && InProcessPool(pt) && pd != pt && !InHole(pd) && !InHole(pt)
    requires UsedFrames(s, p) == HoleFrames() + {pd, pt} && Built(s, pd, pt)
    ensures WellFormed(s, p, pd, InitialOwners(pd, pt)) && InitialMapping(s, pd, pt)
  {
    hide UsedFrames, EntryAt, Present, FrameOf;
    var owner := InitialOwners(pd, pt);
    EntryParts(pt, 3);
    EntryParts(pd, 3);
    AbsentParts();
    assert owner.Keys == HoleFrames() + {pd, pt};
    forall f: nat
      ensures f in HoleFrames() <==> InHole(f)
    {
    }
    BuiltMapping(s, pd, pt);
  }

  lemma AbsentParts()
    ensures !Present(2)
  {
  }

  lemma BuiltMapping(s: Ram, pd: nat, pt: nat)
    requires InProcessPool(pd) && InProcessPool(pt) && pd != pt && Built(s, pd, pt)
    ensures InitialMapping(s, pd, pt)
  {
    hide EntryAt, Present, FrameOf;
    EntryParts(pt, 3);
    EntryParts(pd, 3);
    AbsentParts();
    forall d: nat, t: nat | d < 1024 && t < 1024
      ensures Lookup(s, pd, d, t) ==
        if d == 0 then Some(t)
        else if d == WINDOW && t == 0 then Some(pt)
        else if d == WINDOW && t == WINDOW then Some(pd)
        else None
    {
      EntryParts(t, 3);
      assert d == 0 || d == 1023 || Ordinary(d);
      assert t == 0 || t == 1023 || Ordinary(t);
    }
  }

  /** A change among the kernel frames, away from the process bitmap, is invisible to paging. */
  lemma KernelWriteInvisible(s: Ram, s': Ram, p: Pool, pd: nat, owner: Owners)
    requires WellFormed(s, p, pd, owner)
    requires forall w: nat | POOL_WORDS <= w < RAM_WORDS :: s'[w] == s[w]
    requires UsedFrames(s', p) == UsedFrames(s, p)
    ensures WellFormed(s', p, pd, owner)
    ensures forall d: nat, t: nat | d < 1024 && t < 1024 :: Lookup(s', pd, d, t) == Lookup(s, pd, d, t)
  {
    assert SamePoolEntries(s, s');
    hide UsedFrames, EntryAt, SamePoolEntries;
    SameEntriesWellFormed(s, s', p, pd, owner);
    WellFormedRooted(s, p, pd, owner);
    hide WellFormed, Rooted, Lookup;
    forall d: nat, t: nat | d < 1024 && t < 1024
      ensures Lookup(s', pd, d, t) == Lookup(s, pd, d, t)
    {
      SameEntriesLookup(s, s', pd, owner, d, t);
    }
  }

  ghost predicate SamePoolEntries(s: Ram, s': Ram) {
    forall f: nat, k: nat {:trigger EntryAt(s', f, k)} | InProcessPool(f) && k < 1024 ::
      EntryAt(s', f, k) == EntryAt(s, f, k)
  }

  lemma SameEntriesWellFormed(s: Ram, s': Ram, p: Pool, pd: nat, owner: Owners)
    requires WellFormed(s, p, pd, owner) && SamePoolEntries(s, s') && UsedFrames(s', p) == UsedFrames(s, p)
    ensures WellFormed(s', p, pd, owner)
  {
    hide UsedFrames, EntryAt;
    assert TableOf(s', pd, 0) == TableOf(s, pd, 0);
    assert TablesOwned(s', pd, owner);
  }

  lemma SameEntriesLookup(s: Ram, s': Ram, pd: nat, owner: Owners, d: nat, t: nat)
    requires Rooted(s, pd, owner) && SamePoolEntries(s, s') && d < 1024 && t < 1024
    ensures Lookup(s', pd, d, t) == Lookup(s, pd, d, t)
  {
    hide EntryAt, Present, FrameOf;
    assert EntryAt(s', pd, d) == EntryAt(s, pd, d);
    if HasTable(s, pd, d) { SlotFrame(s, pd, owner, d); }
  }

  // ----- the constructor's frames -----

  /** The first two frames taken from a process pool in which only the hole is used. */
  lemma TwoFrames(s: Ram, p: Pool)
    requires BitmapBelow(p) && UsedFrames(s, p) == HoleFrames()
    ensures var (pd, s1) := GetFrame(s, p); var (pt, s2) := GetFrame(s1, p);
      && InProcessPool(pd) && InProcessPool(pt) && pd != pt && !InHole(pd) && !InHole(pt)
      && UsedFrames(s2, p) == HoleFrames() + {pd, pt}
  {
    hide GetFrame, UsedFrames, Used;
    var (pd, s1) := GetFrame(s, p);
    GetFrameRefinesSet(s, p);
    FrameOutsideHole(1024, {}, p);
    GetFrameRefinesSet(s1, p);
    FrameOutsideHole(1024, {pd}, p);
    FrameOutsideHole(1025, {pd}, p);
  }

  lemma FrameOutsideHole(f: nat, taken: set<nat>, p: Pool)
    requires p == ProcessPool(p.bitmap) && InProcessPool(f) && !InHole(f)
    ensures f in Frames(p) - (HoleFrames() + taken) <==> f !in taken
    ensures HoleFrames() + taken == Frames(p) ==> f in taken
  {
    assert p.Has(f);
  }

  lemma TablesFromFrames(s: Ram, p: Pool, pd: nat, pt: nat)
    requires BitmapBelow(p) && InProcessPool(pd) && InProcessPool(pt) && pd != pt && !InHole(pd) && !InHole(pt)
    requires UsedFrames(s, p) == HoleFrames() + {pd, pt}
    ensures var s' := BuildTables(s, pd, pt);
      && WellFormed(s', p, pd, InitialOwners(pd, pt)) && InitialMapping(s', pd, pt)
      && UsedFrames(s', p) == HoleFrames() + {pd, pt} && TableOf(s', pd, 0) == pt
  {
    hide BuildTables, UsedFrames, WellFormed, InitialMapping;
    BuildTablesBuilds(s, p, pd, pt);
    SameBitmapSameUsed(s, BuildTables(s, pd, pt), p);
    BuiltIsWellFormed(BuildTables(s, pd, pt), p, pd, pt);
    EntryParts(pt, 3);
  }

  /** Taking a kernel frame changes no mapping and no process frame. */
  lemma KernelFrameTaken(s: Ram, k: Pool, p: Pool, pd: nat, owner: Owners)
    requires WellFormed(s, p, pd, owner) && pd < FRAMES
    requires k == KernelPool(k.bitmap) && k.bitmap + k.n / 8 <= 4096 * PROCESS_START
    requires k.bitmap != p.bitmap && k.Fits() && SameOrApart(k, p)
    ensures p.Fits()
    ensures var s' := GetFrame(s, k).1;
      && WellFormed(s', p, pd, owner) && UsedFrames(s', p) == UsedFrames(s, p)
      && TableOf(s', pd, 0) == TableOf(s, pd, 0)
      && (forall d: nat, t: nat | d < 1024 && t < 1024 :: Lookup(s', pd, d, t) == Lookup(s, pd, d, t))
  {
    hide WellFormed, UsedFrames, Used, Lookup, SetBit;
    WellFormedRooted(s, p, pd, owner);
    if LeastFree(s, k, 0).Some? {
      var i := LeastFree(s, k, 0).value;
      SetBitAddsFrame(s, k, i, p);
      SetBitStaysInBitmap(s, k, i);
      KernelWriteInvisible(s, SetBit(s, k, i), p, pd, owner);
    }
  }
}
