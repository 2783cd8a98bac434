/** What the paging edits do to address translation, for every virtual address; how well-formed
    states keep frames, mappings and control structures apart. */
module Translation {
  import opened PhysicalMemory
  import opened FramePools
  import opened Paging

  /** Page `t` of slot `d` is now mapped to frame `g` (or unmapped); every other page of the whole
      address space is mapped as before. */
  ghost predicate ChangesOnlyPage(s: Ram, s': Ram, pd: nat, d: nat, t: nat, g: Option<nat>)
    requires pd < FRAMES
  {
    forall k: nat, j: nat | k < 1024 && j < 1024 ::
      Lookup(s', pd, k, j) == if k == d && j == t then g else Lookup(s, pd, k, j)
  }

  /** The slot through which tables are seen as pages: the last 4 MB. */
  const WINDOW: nat := 1023

  /** In terms of addresses. */
  lemma OnlyPageTranslatesAnew(s: Ram, s': Ram, pd: nat, d: nat, t: nat, g: Option<nat>, va: Word)
    requires pd < FRAMES && ChangesOnlyPage(s, s', pd, d, t, g)
    ensures Translate(s', pd, va) ==
      if DirectoryIndex(va) != d || TableIndex(va) != t then Translate(s, pd, va)
      else if g.None? then None
      else Some(4096 * g.value + va % 4096)
  {
    hide Lookup;
  }

  function RoleOfSlot(k: nat): Role {
    if k == 0 then FirstTable else if k == 1023 then Directory else Table(k)
  }

  /** Each present slot's table frame carries that slot's role; the last slot is the directory itself. */
  ghost predicate Rooted(s: Ram, pd: nat, owner: Owners) {
    && InProcessPool(pd)
    && HasTable(s, pd, 1023) && TableOf(s, pd, 1023) == pd
    && forall k: nat {:trigger HasTable(s, pd, k)} {:trigger TableOf(s, pd, k)} | k < 1024 && HasTable(s, pd, k) ::
         InProcessPool(TableOf(s, pd, k)) && TableOf(s, pd, k) in owner && owner[TableOf(s, pd, k)] == RoleOfSlot(k)
  }

  lemma WellFormedRooted(s: Ram, p: Pool, pd: nat, owner: Owners)
    requires WellFormed(s, p, pd, owner)
    ensures BitmapBelow(p) && InProcessPool(pd) && HasTable(s, pd, 1023)
    ensures Rooted(s, pd, owner)
  {
    hide UsedFrames, EntryAt, PagesOwned, HoleOwned, Present, FrameOf, Used;
    EntryParts(pd, 3);
    EntryParts(TableOf(s, pd, 0), 3);
    forall k: nat | k < 1024 && HasTable(s, pd, k)
      ensures InProcessPool(TableOf(s, pd, k))
      ensures TableOf(s, pd, k) in owner && owner[TableOf(s, pd, k)] == RoleOfSlot(k)
    {
      if Ordinary(k) { OrdinaryTable(s, p, pd, owner, k); }
    }
  }

  /** A new table maps one page: its own window in the last 4 MB. */
  lemma NewTableTranslates(s: Ram, s': Ram, p: Pool, pd: nat, owner: Owners, d: nat, f: nat)
    requires WellFormed(s, p, pd, owner) && Ordinary(d) && !HasTable(s, pd, d)
    requires InProcessPool(f) && f !in owner && Entered(s, s', pd, d, f)
    ensures ChangesOnlyPage(s, s', pd, WINDOW, d, Some(f))
  {
    hide WellFormed, Entered, Rooted, UsedFrames, EntryAt, Lookup, HasTable;
    WellFormedRooted(s, p, pd, owner);
    forall k: nat, j: nat | k < 1024 && j < 1024
      ensures Lookup(s', pd, k, j) == if k == WINDOW && j == d then Some(f) else Lookup(s, pd, k, j)
    {
      NewTableLookup(s, s', pd, owner, d, f, k, j);
    }
  }

  lemma InstallTableTranslates(s: Ram, p: Pool, pd: nat, owner: Owners, d: nat, f: nat)
    requires WellFormed(s, p, pd, owner) && Ordinary(d) && !HasTable(s, pd, d)
    requires InProcessPool(f) && f !in owner
    ensures ChangesOnlyPage(s, InstallTable(s, p, pd, d, f), pd, WINDOW, d, Some(f))
  {
    hide InstallTable, WellFormed, Entered, Rooted, UsedFrames, EntryAt, ChangesOnlyPage;
    WellFormedRooted(s, p, pd, owner);
    assert pd != f && InProcessPool(pd) by { SlotFrame(s, pd, owner, 1023); }
    InstallTableEnters(s, p, pd, d, f);
    NewTableTranslates(s, InstallTable(s, p, pd, d, f), p, pd, owner, d, f);
  }

  lemma SlotFrame(s: Ram, pd: nat, owner: Owners, k: nat)
    requires pd < FRAMES && k < 1024 && HasTable(s, pd, k) && Rooted(s, pd, owner)
    ensures InProcessPool(TableOf(s, pd, k)) && TableOf(s, pd, k) in owner
    ensures owner[TableOf(s, pd, k)] == RoleOfSlot(k) && TableOf(s, pd, 1023) == pd
  {
  }

  lemma NewTableLookup(s: Ram, s': Ram, pd: nat, owner: Owners, d: nat, f: nat, k: nat, j: nat)
    requires Rooted(s, pd, owner) && Ordinary(d) && !HasTable(s, pd, d)
    requires InProcessPool(f) && f !in owner && k < 1024 && j < 1024 && Entered(s, s', pd, d, f)
    ensures Lookup(s', pd, k, j) == if k == WINDOW && j == d then Some(f) else Lookup(s, pd, k, j)
  {
    hide EntryAt, Present, FrameOf;
    assert TableOf(s, pd, 1023) == pd && pd in owner;
    if k == d {
      assert !Present(EntryAt(s', f, j));
    } else {
      assert EntryAt(s', pd, k) == EntryAt(s, pd, k);
      if HasTable(s, pd, k) { SlotFrame(s, pd, owner, k); }
    }
  }

  lemma MapPageTranslates(s: Ram, p: Pool, pd: nat, owner: Owners, d: nat, t: nat, g: nat)
    requires WellFormed(s, p, pd, owner) && Ordinary(d) && HasTable(s, pd, d) && t < 1024
    requires InProcessPool(g)
    ensures ChangesOnlyPage(s, MapPage(s, p, TableOf(s, pd, d), t, g), pd, d, t, Some(g))
  {
    hide MapPage, WellFormed, Edited, ChangesOnlyPage, EntryAt, UsedFrames;
    OrdinaryTable(s, p, pd, owner, d);
    var f := TableOf(s, pd, d);
    var s' := MapPage(s, p, f, t, g);
    assert Edited(s, s', f, t, 4096 * g + 7, {}) by { MapPageWords(s, p, f, t, g); }
    EntryParts(g, 7);
    hide TableOf, HasTable, Present, FrameOf, InProcessPool;
    EntryTranslates(s, s', p, pd, owner, d, t, 4096 * g + 7, Some(g));
  }

  lemma UnmapPageTranslates(s: Ram, p: Pool, pd: nat, owner: Owners, d: nat, t: nat, g: nat)
    requires WellFormed(s, p, pd, owner) && Ordinary(d) && HasTable(s, pd, d) && t < 1024
    requires InProcessPool(g)
    ensures ChangesOnlyPage(s, UnmapPage(s, p, TableOf(s, pd, d), t, g), pd, d, t, None)
  {
    hide UnmapPage, WellFormed, Edited, ChangesOnlyPage, EntryAt, UsedFrames;
    OrdinaryTable(s, p, pd, owner, d);
    var f := TableOf(s, pd, d);
    var s' := UnmapPage(s, p, f, t, g);
    assert Edited(s, s', f, t, 0, {}) by { UnmapPageWords(s, p, f, t, g); }
    ZeroEntry();
    hide TableOf, HasTable, Present, FrameOf, InProcessPool;
    EntryTranslates(s, s', p, pd, owner, d, t, 0, None);
  }

  lemma ZeroEntry()
    ensures !Present(0)
  {
  }

  /** Writing one entry of one ordinary table changes the mapping of one page. */
  lemma EntryTranslates(s: Ram, s': Ram, p: Pool, pd: nat, owner: Owners, d: nat, t: nat, v: Word, g: Option<nat>)
    requires WellFormed(s, p, pd, owner) && Ordinary(d) && HasTable(s, pd, d) && t < 1024
    requires TableOf(s, pd, d) < FRAMES && Edited(s, s', TableOf(s, pd, d), t, v, {})
    requires g == if Present(v) then Some(FrameOf(v)) else None
    ensures ChangesOnlyPage(s, s', pd, d, t, g)
  {
    WellFormedRooted(s, p, pd, owner);
    hide Lookup, WellFormed, Edited, Rooted;
    forall k: nat, j: nat | k < 1024 && j < 1024
      ensures Lookup(s', pd, k, j) == if k == d && j == t then g else Lookup(s, pd, k, j)
    {
      EntryLookup(s, s', pd, owner, d, t, v, k, j);
    }
  }

  lemma EntryLookup(s: Ram, s': Ram, pd: nat, owner: Owners, d: nat, t: nat, v: Word, k: nat, j: nat)
    requires Rooted(s, pd, owner) && Ordinary(d) && HasTable(s, pd, d) && t < 1024
    requires TableOf(s, pd, d) < FRAMES && Edited(s, s', TableOf(s, pd, d), t, v, {})
    requires k < 1024 && j < 1024
    ensures Lookup(s', pd, k, j) ==
      if k == d && j == t then (if Present(v) then Some(FrameOf(v)) else None) else Lookup(s, pd, k, j)
  {
    hide EntryAt, Present, FrameOf;
    assert TableOf(s, pd, d) != pd;
    assert EntryAt(s', pd, k) == EntryAt(s, pd, k);
    if HasTable(s, pd, k) { SlotFrame(s, pd, owner, k); }
  }

  // ----- where ordinary addresses lead -----

  /** A mapped page outside the first and last 4 MB is the page its frame is owned as. */
  lemma MappedFrameIsOwned(s: Ram, p: Pool, pd: nat, owner: Owners, d: nat, t: nat)
    requires WellFormed(s, p, pd, owner) && Ordinary(d) && t < 1024 && Lookup(s, pd, d, t).Some?
    ensures var g := Lookup(s, pd, d, t).value;
      g in owner && InProcessPool(g) && owner[g] == Page(d, t)
  {
    hide UsedFrames, EntryAt, FixedRoles, IdentityMap, HoleOwned;
    OrdinaryTable(s, p, pd, owner, d);
    assert Present(EntryAt(s, TableOf(s, pd, d), t));
  }

  /** Two addresses outside the first and last 4 MB reach the same byte only if they are equal. */
  lemma OrdinaryTranslationInjective(s: Ram, p: Pool, pd: nat, owner: Owners, va: Word, vb: Word)
    requires WellFormed(s, p, pd, owner)
    requires Ordinary(DirectoryIndex(va)) && Ordinary(DirectoryIndex(vb))
    requires Translate(s, pd, va).Some? && Translate(s, pd, vb) == Translate(s, pd, va)
    ensures va == vb
  {
    hide Lookup, WellFormed, DirectoryIndex, TableIndex;
    IndexBounds(va);
    IndexBounds(vb);
    MappedFrameIsOwned(s, p, pd, owner, DirectoryIndex(va), TableIndex(va));
    MappedFrameIsOwned(s, p, pd, owner, DirectoryIndex(vb), TableIndex(vb));
    AddressParts(va);
    AddressParts(vb);
  }

  lemma IndexBounds(va: Word)
    ensures DirectoryIndex(va) < 1024 && TableIndex(va) < 1024
  {
  }

  lemma AddressParts(va: Word)
    ensures va == 0x40_0000 * DirectoryIndex(va) + 4096 * TableIndex(va) + va % 4096
  {
  }

  lemma WordInFrame(g: nat, offset: nat)
    requires offset < 4096
    ensures 1024 * g <= (4096 * g + offset) / 4 < 1024 * g + 1024
  {
  }

  /** A store through any mapped address outside the first and last 4 MB disturbs no directory,
      table or bitmap: the state stays well formed with the same owners, every page is mapped as
      before, and every pool tracked below the process frames has the same frames in use. */
  lemma StoreIsSeparate(s: Ram, p: Pool, pd: nat, owner: Owners, va: Word, v: Word)
    requires WellFormed(s, p, pd, owner) && Ordinary(DirectoryIndex(va)) && Translate(s, pd, va).Some?
    ensures var w := Translate(s, pd, va).value / 4;
      && w < RAM_WORDS
      && WellFormed(s[w := v], p, pd, owner)
      && (forall k: nat, j: nat | k < 1024 && j < 1024 :: Lookup(s[w := v], pd, k, j) == Lookup(s, pd, k, j))
      && (forall q: Pool | q.Fits() && q.bitmap + (q.n + 7) / 8 <= 4 * POOL_WORDS ::
            UsedFrames(s[w := v], q) == UsedFrames(s, q))
  {
    hide Lookup, UsedFrames, DirectoryIndex, TableIndex;
    IndexBounds(va);
    WellFormedRooted(s, p, pd, owner);
    hide WellFormed;
    MappedFrameIsOwned(s, p, pd, owner, DirectoryIndex(va), TableIndex(va));
    var g, w := Lookup(s, pd, DirectoryIndex(va), TableIndex(va)).value, Translate(s, pd, va).value / 4;
    WordInFrame(g, va % 4096);
    hide Translate, InProcessPool;
    var s' := s[w := v];
    forall q: Pool | q.Fits() && q.bitmap + (q.n + 7) / 8 <= 4 * POOL_WORDS
      ensures UsedFrames(s', q) == UsedFrames(s, q)
    {
      UsedDependsOnBitmap(s, s', q);
    }
    DataFrameWrite(s, s', p, pd, owner, g);
  }

  /** Changing words of one data frame only. */
  lemma DataFrameWrite(s: Ram, s': Ram, p: Pool, pd: nat, owner: Owners, g: nat)
    requires WellFormed(s, p, pd, owner) && g in owner && owner[g].Page? && InProcessPool(g)
    requires forall w: nat | w < RAM_WORDS && !(1024 * g <= w < 1024 * g + 1024) :: s'[w] == s[w]
    ensures WellFormed(s', p, pd, owner)
    ensures forall k: nat, j: nat | k < 1024 && j < 1024 :: Lookup(s', pd, k, j) == Lookup(s, pd, k, j)
  {
    assert SameOutside(s, s', g);
    SameBitmapSameUsed(s, s', p);
    hide Lookup, SameOutside, UsedFrames;
    DataFrameWriteOwners(s, s', p, pd, owner, g);
    WellFormedRooted(s, p, pd, owner);
    forall k: nat, j: nat | k < 1024 && j < 1024
      ensures Lookup(s', pd, k, j) == Lookup(s, pd, k, j)
    {
      hide WellFormed, Rooted;
      DataFrameWriteLookup(s, s', pd, owner, g, k, j);
    }
  }

  ghost predicate SameOutside(s: Ram, s': Ram, g: nat) {
    forall h: nat, k: nat {:trigger EntryAt(s', h, k)} | h < FRAMES && k < 1024 && h != g ::
      EntryAt(s', h, k) == EntryAt(s, h, k)
  }

  lemma DataFrameWriteLookup(s: Ram, s': Ram, pd: nat, owner: Owners, g: nat, k: nat, j: nat)
    requires Rooted(s, pd, owner) && g in owner && owner[g].Page? && SameOutside(s, s', g)
    requires k < 1024 && j < 1024
    ensures Lookup(s', pd, k, j) == Lookup(s, pd, k, j)
  {
    hide EntryAt, Present, FrameOf;
    assert TableOf(s, pd, 1023) == pd;
    assert EntryAt(s', pd, k) == EntryAt(s, pd, k);
    if HasTable(s, pd, k) { SlotFrame(s, pd, owner, k); }
  }

  lemma DataFrameWriteOwners(s: Ram, s': Ram, p: Pool, pd: nat, owner: Owners, g: nat)
    requires WellFormed(s, p, pd, owner) && g in owner && owner[g].Page?
    requires SameOutside(s, s', g)
    requires UsedFrames(s', p) == UsedFrames(s, p)
    ensures WellFormed(s', p, pd, owner)
  {
    hide UsedFrames, EntryAt;
    assert TableOf(s', pd, 0) == TableOf(s, pd, 0);
    assert TablesOwned(s', pd, owner);
  }

  // ----- the self-map -----

  /** Address `0xFFFFF000 + 4 * d` is directory word `d`. */
  lemma DirectoryWindow(s: Ram, pd: nat, d: nat)
    requires pd < FRAMES && SelfMap(s, pd) && d < 1024
    ensures Translate(s, pd, 0xFFFF_F000 + 4 * d) == Some(4 * (1024 * pd + d))
  {
    hide EntryAt, DirectoryIndex, TableIndex, Present, FrameOf;
    DirectoryWindowParts(d);
    EntryParts(pd, 3);
  }

  lemma DirectoryWindowParts(d: nat)
    requires d < 1024
    ensures var va: Word := 0xFFFF_F000 + 4 * d;
      DirectoryIndex(va) == 1023 && TableIndex(va) == 1023 && va % 4096 == 4 * d
  {
    var va: Word := 0xFFFF_F000 + 4 * d;
    assert va / 4096 == 0xF_FFFF;
    assert va / 0x40_0000 == 1023;
  }

  /** Address `0xFFC00000 + 4096 * d + 4 * t` is word `t` of table `d`, and is mapped exactly when
      that table is present. */
  lemma TableWindow(s: Ram, pd: nat, d: nat, t: nat)
    requires pd < FRAMES && SelfMap(s, pd) && d < 1024 && t < 1024
    ensures Translate(s, pd, 0xFFC0_0000 + 4096 * d + 4 * t)
      == if HasTable(s, pd, d) then Some(4 * (1024 * TableOf(s, pd, d) + t)) else None
  {
    WindowParts(d, t);
    EntryParts(pd, 3);
    hide EntryAt, DirectoryIndex, TableIndex, Present, FrameOf;
  }

  lemma WindowParts(d: nat, t: nat)
    requires d < 1024 && t < 1024
    ensures var va: Word := 0xFFC0_0000 + 4096 * d + 4 * t;
      DirectoryIndex(va) == 1023 && TableIndex(va) == d && va % 4096 == 4 * t
  {
    var va: Word := 0xFFC0_0000 + 4096 * d + 4 * t;
    assert va / 4096 == 0xF_FC00 + d;
    assert va / 0x40_0000 == 1023;
  }

  /** The first 4 MB, where both bitmaps live, translate to themselves. */
  lemma IdentityTranslates(s: Ram, p: Pool, pd: nat, owner: Owners, va: Word)
    requires WellFormed(s, p, pd, owner) && va < 0x40_0000
    ensures Translate(s, pd, va) == Some(va)
  {
    hide UsedFrames, EntryAt, TablesOwned, PagesOwned, InPool, FixedRoles, HoleOwned, SelfMap, BitmapBelow;
    hide DirectoryIndex, TableIndex, Present, FrameOf;
    FirstSlot(va);
    IndexBounds(va);
    EntryParts(TableIndex(va), 3);
    EntryParts(TableOf(s, pd, 0), 3);
  }

  lemma FirstSlot(va: Word)
    requires va < 0x40_0000
    ensures DirectoryIndex(va) == 0 && va == 4096 * TableIndex(va) + va % 4096
  {
  }
}
