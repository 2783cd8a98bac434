/** Where the page table writes: one fault, one release, a store, and the constructor. */
module PagingWrites {
  import opened PhysicalMemory
  import opened FramePools
  import opened Paging
  import opened Translation
  import opened Accounting
  import opened Faults
  import opened PageRelease
  import opened TableSetup

  predicate InBitmap(p: Pool, w: nat) {
    p.bitmap <= 4 * w + 3 && 4 * w < p.bitmap + (p.n + 7) / 8
  }

  /** Every word changed lies in the pool's bitmap or in a frame the pool marks used afterwards. */
  ghost predicate WritesOnlyUsed(s: Ram, s': Ram, p: Pool)
    requires p.Fits()
  {
    forall w: nat | w < RAM_WORDS && s'[w] != s[w] :: InBitmap(p, w) || w / 1024 in UsedFrames(s', p)
  }

  lemma InstallTableWrites(s: Ram, p: Pool, pd: nat, d: nat, f: nat)
    requires BitmapBelow(p) && InProcessPool(f) && InProcessPool(pd) && f != pd && d < 1024
    requires pd in UsedFrames(s, p)
    ensures WritesOnlyUsed(s, InstallTable(s, p, pd, d, f), p)
  {
    hide UsedFrames, SetBit, ClearWords, InstallTable, Used;
    InstallTableWords(s, p, pd, d, f);
    SetBitStaysInBitmap(s, p, f - p.base);
    var s' := InstallTable(s, p, pd, d, f);
    forall w: nat | w < RAM_WORDS && s'[w] != s[w]
      ensures InBitmap(p, w) || w / 1024 in UsedFrames(s', p)
    {
      if w / 1024 != f && w != 1024 * pd + d { InstallTableWord(s, p, pd, d, f, w); }
    }
  }

  lemma InstallTableWord(s: Ram, p: Pool, pd: nat, d: nat, f: nat, w: nat)
    requires p.Fits() && p.Has(f) && f < FRAMES && pd < FRAMES && d < 1024 && w < RAM_WORDS
    requires w / 1024 != f && w != 1024 * pd + d
    ensures InstallTable(s, p, pd, d, f)[w] == SetBit(s, p, f - p.base)[w]
  {
    hide SetBit, ClearWords;
    ClearWordsEffect(SetBit(s, p, f - p.base)[1024 * pd + d := 4096 * f + 3], f, 1024, w);
  }

  lemma MapPageWrites(s: Ram, p: Pool, f: nat, t: nat, g: nat)
    requires BitmapBelow(p) && InProcessPool(f) && InProcessPool(g) && t < 1024 && f in UsedFrames(s, p)
    ensures WritesOnlyUsed(s, MapPage(s, p, f, t, g), p)
  {
    hide UsedFrames, SetBit, Used;
    MapPageWords(s, p, f, t, g);
    SetBitStaysInBitmap(s, p, g - p.base);
  }

  /** Frames used before stay used, so writes add up. */
  lemma WritesCompose(s: Ram, s1: Ram, s': Ram, p: Pool)
    requires p.Fits() && WritesOnlyUsed(s, s1, p) && WritesOnlyUsed(s1, s', p)
    requires UsedFrames(s1, p) <= UsedFrames(s', p)
    ensures WritesOnlyUsed(s, s', p)
  {
    hide UsedFrames;
    forall w: nat | w < RAM_WORDS && s'[w] != s[w]
      ensures InBitmap(p, w) || w / 1024 in UsedFrames(s', p)
    {
      if s1[w] != s[w] { assert InBitmap(p, w) || w / 1024 in UsedFrames(s1, p); }
    }
  }

  /** The handler writes only in the bitmap and in frames marked used. */
  lemma FaultWritesOnlyUsed(s: Ram, p: Pool, pd: nat, owner: Owners, d: nat, t: nat, err: Word)
    requires WellFormed(s, p, pd, owner) && Ordinary(d) && t < 1024
    ensures Handles(s, p, pd, d) && WritesOnlyUsed(s, HandleFault(s, p, pd, d, t, err).1, p)
  {
    hide WellFormed, UsedFrames, EntryAt, InstallTable, MapPage, HasTable, TableOf, WritesOnlyUsed, Free, AddPage;
    HandlesOrdinary(s, p, pd, owner, d);
    RootsInPool(s, p, pd, owner);
    DirectoryUsed(s, p, pd, owner);
    LeastFreeIsFree(s, p);
    NoWrites(s, p);
    if HasTable(s, pd, d) {
      TableUsed(s, p, pd, owner, d);
      AddPageWrites(s, p, TableOf(s, pd, d), t);
    } else if LeastFree(s, p, 0).Some? {
      var f := p.base + LeastFree(s, p, 0).value;
      var s1 := InstallTable(s, p, pd, d, f);
      FreeNotUsed(s, p, f);
      InstallTableWrites(s, p, pd, d, f);
      InstallTableWords(s, p, pd, d, f);
      AddPageWrites(s1, p, f, t);
      WritesCompose(s, s1, AddPage(s1, p, f, t).1, p);
    }
  }

  lemma AddPageWrites(s: Ram, p: Pool, f: nat, t: nat)
    requires BitmapBelow(p) && InProcessPool(f) && f in UsedFrames(s, p) && t < 1024
    ensures WritesOnlyUsed(s, AddPage(s, p, f, t).1, p)
    ensures UsedFrames(s, p) <= UsedFrames(AddPage(s, p, f, t).1, p)
  {
    hide UsedFrames, MapPage, WritesOnlyUsed, Used;
    NoWrites(s, p);
    if LeastFree(s, p, 0).Some? {
      MapPageWrites(s, p, f, t, p.base + LeastFree(s, p, 0).value);
      MapPageWords(s, p, f, t, p.base + LeastFree(s, p, 0).value);
    }
  }

  lemma NoWrites(s: Ram, p: Pool)
    requires p.Fits()
    ensures WritesOnlyUsed(s, s, p)
  {
  }

  lemma FreeNotUsed(s: Ram, p: Pool, f: nat)
    requires p.Fits() && f in Free(s, p)
    ensures p.Has(f) && f !in UsedFrames(s, p)
  {
  }

  lemma DirectoryUsed(s: Ram, p: Pool, pd: nat, owner: Owners)
    requires WellFormed(s, p, pd, owner)
    ensures p.Fits() && pd in UsedFrames(s, p)
  {
    hide UsedFrames, EntryAt, IdentityMap, SelfMap, TablesOwned, PagesOwned;
  }

  lemma TableUsed(s: Ram, p: Pool, pd: nat, owner: Owners, d: nat)
    requires WellFormed(s, p, pd, owner) && Ordinary(d) && HasTable(s, pd, d)
    ensures p.Fits() && TableOf(s, pd, d) in UsedFrames(s, p) && InProcessPool(TableOf(s, pd, d))
  {
    hide UsedFrames, EntryAt, IdentityMap, SelfMap, TablesOwned, PagesOwned;
    OrdinaryTable(s, p, pd, owner, d);
  }

  /** A release writes only in the bitmap and in the page's table, which stays used. */
  lemma FreePageWritesOnlyUsed(s: Ram, st: Statics, p: Pool, pd: nat, owner: Owners, d: nat, t: nat)
    requires WellFormed(s, p, pd, owner) && ProcessPoolOf(st, p)
    requires Ordinary(d) && HasTable(s, pd, d) && t < 1024
    ensures TableOf(s, pd, d) < FRAMES && p.Fits()
    ensures WritesOnlyUsed(s, FreePage(s, st, TableOf(s, pd, d), t), p)
  {
    hide WellFormed, UsedFrames, EntryAt, HasTable, TableOf, FreePage, Lookup, WritesOnlyUsed, UnmapPage;
    OrdinaryTable(s, p, pd, owner, d);
    TableUsed(s, p, pd, owner, d);
    FreePageIsUnmap(s, st, p, pd, owner, d, t);
    NoWrites(s, p);
    if Lookup(s, pd, d, t).Some? {
      UnmapPageWrites(s, p, TableOf(s, pd, d), t, Lookup(s, pd, d, t).value);
    }
  }

  lemma UnmapPageWrites(s: Ram, p: Pool, f: nat, t: nat, g: nat)
    requires BitmapBelow(p) && InProcessPool(f) && InProcessPool(g) && t < 1024 && f in UsedFrames(s, p) && g != f
    ensures WritesOnlyUsed(s, UnmapPage(s, p, f, t, g), p)
  {
    hide UsedFrames, ClearBit, Used;
    UnmapPageWords(s, p, f, t, g);
    ClearBitStaysInBitmap(s, p, g - p.base);
  }

  lemma StoreWritesOnlyUsed(s: Ram, p: Pool, pd: nat, owner: Owners, va: Word, v: Word)
    requires WellFormed(s, p, pd, owner) && Ordinary(DirectoryIndex(va)) && Translate(s, pd, va).Some?
    ensures Translate(s, pd, va).value / 4 < RAM_WORDS && p.Fits()
    ensures WritesOnlyUsed(s, s[Translate(s, pd, va).value / 4 := v], p)
  {
    hide WellFormed, UsedFrames, Lookup;
    IndexBounds(va);
    RootsInPool(s, p, pd, owner);
    DirectoryUsed(s, p, pd, owner);
    StoreIsSeparate(s, p, pd, owner, va, v);
    MappedFrameIsOwned(s, p, pd, owner, DirectoryIndex(va), TableIndex(va));
    var g := Lookup(s, pd, DirectoryIndex(va), TableIndex(va)).value;
    NamedFrameUsed(s, p, pd, owner, g);
    WordInFrame(g, va % 4096);
    NamedFrameUsed(s[Translate(s, pd, va).value / 4 := v], p, pd, owner, g);
  }

  lemma NamedFrameUsed(s: Ram, p: Pool, pd: nat, owner: Owners, f: nat)
    requires WellFormed(s, p, pd, owner) && f in owner
    ensures p.Fits() && f in UsedFrames(s, p)
  {
    hide UsedFrames, EntryAt, IdentityMap, SelfMap, TablesOwned, PagesOwned, FixedRoles;
  }

  // ----- the constructor -----

  /** Every word changed lies in one of the two bitmaps or in a process frame marked used. */
  ghost predicate SetupWritesOnlyUsed(s: Ram, s': Ram, k: Pool, p: Pool)
    requires p.Fits()
  {
    forall w: nat | w < RAM_WORDS && s'[w] != s[w] :: InBitmap(k, w) || InBitmap(p, w) || w / 1024 in UsedFrames(s', p)
  }

  /** The constructor: two process frames, the tables built in them, and a kernel frame. */
  lemma ConstructorWritesOnlyUsed(s: Ram, k: Pool, p: Pool, pd: nat, pt: nat)
    requires BitmapBelow(p) && UsedFrames(s, p) == HoleFrames()
    requires k == KernelPool(k.bitmap) && k.Fits() && SameOrApart(k, p) && k.bitmap != p.bitmap
    requires var (f, s1) := GetFrame(s, p); pd == f && pt == GetFrame(s1, p).0
    ensures pd < FRAMES && pt < FRAMES
    ensures var s2 := GetFrame(GetFrame(s, p).1, p).1;
      SetupWritesOnlyUsed(s, GetFrame(BuildTables(s2, pd, pt), k).1, k, p)
  {
    hide UsedFrames, HoleFrames, BuildTables, GetFrame;
    TwoFrames(s, p);
    var s1 := GetFrame(s, p).1;
    var s2 := GetFrame(s1, p).1;
    var s3 := BuildTables(s2, pd, pt);
    var s4 := GetFrame(s3, k).1;
    BuildTablesBuilds(s2, p, pd, pt);
    SameBitmapSameUsed(s2, s3, p);
    TakenElsewhere(s3, k, p);
    forall w: nat | w < RAM_WORDS && s4[w] != s[w]
      ensures InBitmap(k, w) || InBitmap(p, w) || w / 1024 in UsedFrames(s4, p)
    {
      TakenInBitmap(s, p, w);
      TakenInBitmap(s1, p, w);
      BuildTablesWord(s2, pd, pt, w);
      TakenInBitmap(s3, k, w);
    }
  }

  lemma TakenInBitmap(s: Ram, q: Pool, w: nat)
    requires q.Fits() && w < RAM_WORDS
    ensures GetFrame(s, q).1[w] != s[w] ==> InBitmap(q, w)
  {
    hide SetBit;
    if LeastFree(s, q, 0).Some? { SetBitStaysInBitmap(s, q, LeastFree(s, q, 0).value); }
  }
}
