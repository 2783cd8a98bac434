/** Releasing a page: the release the code is written for, and the one it performs. */
module PageRelease {
  import opened PhysicalMemory
  import opened FramePools
  import opened Paging
  import opened Translation
  import opened Accounting

  /** Pool `p` is the process pool of `st`, and no information frame lies in it. */
  ghost predicate ProcessPoolOf(st: Statics, p: Pool) {
    && st.Fits() && p == ProcessPool(st.processBitmap)
    && !InProcessPool(st.processInfo) && !InProcessPool(st.kernelInfo)
  }

  /** Entry `t` of the table in frame `f`: if present, `released` is passed to release_frame and
      the entry is emptied. */
  function FreePageAs(s: Ram, st: Statics, f: nat, t: nat, released: nat): Ram
    requires st.Fits() && f < FRAMES && t < 1024
  {
    if Present(EntryAt(s, f, t)) then ReleaseFrame(s, st, released)[1024 * f + t := 0] else s
  }

  /** The intended release: of the frame the entry names. */
  function FreePage(s: Ram, st: Statics, f: nat, t: nat): Ram
    requires st.Fits() && f < FRAMES && t < 1024
  {
    FreePageAs(s, st, f, t, FrameOf(EntryAt(s, f, t)))
  }

  /** The release as coded: of the whole entry, address and flags, taken as a frame number. */
  function FreePageAsCoded(s: Ram, st: Statics, f: nat, t: nat): Ram
    requires st.Fits() && f < FRAMES && t < 1024
  {
    FreePageAs(s, st, f, t, EntryAt(s, f, t))
  }

  lemma FreePageIsUnmap(s: Ram, st: Statics, p: Pool, pd: nat, owner: Owners, d: nat, t: nat)
    requires WellFormed(s, p, pd, owner) && ProcessPoolOf(st, p)
    requires Ordinary(d) && HasTable(s, pd, d) && t < 1024
    ensures TableOf(s, pd, d) < FRAMES
    ensures match Lookup(s, pd, d, t)
      case None => FreePage(s, st, TableOf(s, pd, d), t) == s
      case Some(g) =>
        && g in owner && owner[g] == Page(d, t) && p.Has(g)
        && FreePage(s, st, TableOf(s, pd, d), t) == UnmapPage(s, p, TableOf(s, pd, d), t, g)
  {
    hide UsedFrames, EntryAt, IdentityMap, SelfMap, TablesOwned, PagesOwned, ClearBit, WellFormed, Present, FrameOf;
    OrdinaryTable(s, p, pd, owner, d);
    if Lookup(s, pd, d, t).Some? {
      MappedFrameIsOwned(s, p, pd, owner, d, t);
      var g := Lookup(s, pd, d, t).value;
      NamedFrameOwned(s, p, pd, owner, PagePlace(d, t));
    }
  }

  /** The intended release unmaps exactly that page, gives back exactly its frame, and keeps the
      invariant; a page that is not mapped is left as it is. */
  lemma FreePageTheorem(s: Ram, st: Statics, p: Pool, pd: nat, owner: Owners, d: nat, t: nat)
    returns (owner': Owners)
    requires WellFormed(s, p, pd, owner) && ProcessPoolOf(st, p)
    requires Ordinary(d) && HasTable(s, pd, d) && t < 1024
    ensures TableOf(s, pd, d) < FRAMES
    ensures var s' := FreePage(s, st, TableOf(s, pd, d), t);
      && WellFormed(s', p, pd, owner')
      && ChangesOnlyPage(s, s', pd, d, t, None)
      && UsedFrames(s', p) == UsedFrames(s, p)
           - (match Lookup(s, pd, d, t) case None => {} case Some(g) => {g})
      && (forall k: nat | Ordinary(k) :: EntryAt(s', pd, k) == EntryAt(s, pd, k))
  {
    hide WellFormed, Lookup, UnmapPage, UsedFrames, EntryAt, FreePage, Edited, HasTable, TableOf, ChangesOnlyPage;
    OrdinaryTable(s, p, pd, owner, d);
    FreePageIsUnmap(s, st, p, pd, owner, d, t);
    if Lookup(s, pd, d, t).None? {
      owner' := owner;
      UnmappedStays(s, pd, d, t);
    } else {
      var g := Lookup(s, pd, d, t).value;
      owner' := owner - {g};
      UnmapPageKeeps(s, p, pd, owner, d, t, g);
      UnmapPageTranslates(s, p, pd, owner, d, t, g);
      UnmapPageWords(s, p, TableOf(s, pd, d), t, g);
      EditedElsewhere(s, UnmapPage(s, p, TableOf(s, pd, d), t, g), TableOf(s, pd, d), t, 0, pd);
    }
  }

  lemma EditedElsewhere(s: Ram, s': Ram, f: nat, t: nat, v: Word, pd: nat)
    requires f < FRAMES && t < 1024 && Edited(s, s', f, t, v, {}) && InProcessPool(pd) && pd != f
    ensures forall k: nat | k < 1024 :: EntryAt(s', pd, k) == EntryAt(s, pd, k)
  {
    hide EntryAt;
  }

  lemma UnmappedStays(s: Ram, pd: nat, d: nat, t: nat)
    requires pd < FRAMES && d < 1024 && t < 1024 && Lookup(s, pd, d, t).None?
    ensures ChangesOnlyPage(s, s, pd, d, t, None)
  {
    hide Lookup;
  }

  /** As coded, the number passed to release_frame is always refused, so a mapped page is unmapped
      but its frame stays marked used with nothing naming it: the accounting survives exactly when
      there was no page to free. */
  lemma FreePageAsCodedLeaks(s: Ram, st: Statics, p: Pool, pd: nat, owner: Owners, d: nat, t: nat)
    requires WellFormed(s, p, pd, owner) && ProcessPoolOf(st, p)
    requires Ordinary(d) && HasTable(s, pd, d) && t < 1024
    ensures TableOf(s, pd, d) < FRAMES
    ensures var s' := FreePageAsCoded(s, st, TableOf(s, pd, d), t);
      && UsedFrames(s', p) == UsedFrames(s, p) && ChangesOnlyPage(s, s', pd, d, t, None)
      && ((exists owner': Owners :: WellFormed(s', p, pd, owner')) <==> Lookup(s, pd, d, t).None?)
  {
    hide WellFormed, UsedFrames, EntryAt, ReleaseFrame, Edited, Present, FrameOf, ChangesOnlyPage;
    OrdinaryTable(s, p, pd, owner, d);
    if Lookup(s, pd, d, t).Some? {
      var f := TableOf(s, pd, d);
      var s' := FreePageAsCoded(s, st, f, t);
      FlaggedAddressRefused(s, st, p, pd, owner, d, t);
      EntryWrite(s, p, f, t, 0);
      LeakWitness(s, s', p, pd, owner, d, t);
      assert forall owner': Owners :: !WellFormed(s', p, pd, owner');
    } else {
      UnmappedStays(s, pd, d, t);
    }
  }

  /** The entry of a mapped page, read as a frame number, is beyond every pool. */
  lemma FlaggedAddressRefused(s: Ram, st: Statics, p: Pool, pd: nat, owner: Owners, d: nat, t: nat)
    requires WellFormed(s, p, pd, owner) && ProcessPoolOf(st, p)
    requires Ordinary(d) && HasTable(s, pd, d) && t < 1024 && Lookup(s, pd, d, t).Some?
    ensures TableOf(s, pd, d) < FRAMES
    ensures ReleaseFrame(s, st, EntryAt(s, TableOf(s, pd, d), t)) == s
  {
    hide UsedFrames, EntryAt, IdentityMap, SelfMap, TablesOwned, FixedRoles, ClearBit;
    MappedFrameIsOwned(s, p, pd, owner, d, t);
    OrdinaryTable(s, p, pd, owner, d);
    assert EntryAt(s, TableOf(s, pd, d), t) == 4096 * Lookup(s, pd, d, t).value + 7;
  }

  lemma EntryWrite(s: Ram, p: Pool, f: nat, t: nat, v: Word)
    requires BitmapBelow(p) && InProcessPool(f) && t < 1024
    ensures Edited(s, s[1024 * f + t := v], f, t, v, {})
    ensures UsedFrames(s[1024 * f + t := v], p) == UsedFrames(s, p)
  {
    hide UsedFrames;
    SameBitmapSameUsed(s, s[1024 * f + t := v], p);
  }

  /** Emptying the entry of a mapped page without releasing its frame leaks the frame. */
  lemma LeakWitness(s: Ram, s': Ram, p: Pool, pd: nat, owner: Owners, d: nat, t: nat)
    requires WellFormed(s, p, pd, owner) && Ordinary(d) && HasTable(s, pd, d) && t < 1024
    requires Lookup(s, pd, d, t).Some? && TableOf(s, pd, d) < FRAMES
    requires Edited(s, s', TableOf(s, pd, d), t, 0, {}) && UsedFrames(s', p) == UsedFrames(s, p)
    ensures ChangesOnlyPage(s, s', pd, d, t, None)
    ensures forall owner': Owners :: !WellFormed(s', p, pd, owner')
  {
    hide WellFormed, Lookup, UsedFrames, EntryAt, Edited, Present, FrameOf, HasTable, TableOf, ChangesOnlyPage;
    OrdinaryTable(s, p, pd, owner, d);
    var g := Lookup(s, pd, d, t).value;
    NamedFrameOwned(s, p, pd, owner, PagePlace(d, t));
    ZeroEntry();
    EntryTranslates(s, s', p, pd, owner, d, t, 0, None);
    EditedElsewhere(s, s', TableOf(s, pd, d), t, 0, pd);
    forall x: Place
      ensures Names(s', pd, x) != Some(g)
    {
      NamesAfter(s, s', p, pd, owner, d, t, g, x);
    }
    SameDirectory(s, s', pd);
    LeakedFrame(s', p, pd, g);
  }

  lemma SameDirectory(s: Ram, s': Ram, pd: nat)
    requires pd < FRAMES && forall k: nat | k < 1024 :: EntryAt(s', pd, k) == EntryAt(s, pd, k)
    ensures forall k: nat | k < 1024 ::
      HasTable(s', pd, k) == HasTable(s, pd, k) && TableOf(s', pd, k) == TableOf(s, pd, k)
  {
    hide EntryAt;
  }

  lemma NamesAfter(s: Ram, s': Ram, p: Pool, pd: nat, owner: Owners, d: nat, t: nat, g: nat, x: Place)
    requires WellFormed(s, p, pd, owner) && pd < FRAMES
    requires Names(s, pd, PagePlace(d, t)) == Some(g) && ChangesOnlyPage(s, s', pd, d, t, None)
    requires forall k: nat | k < 1024 :: EntryAt(s', pd, k) == EntryAt(s, pd, k)
    ensures Names(s', pd, x) != Some(g)
  {
    hide WellFormed, Lookup, UsedFrames, EntryAt;
    if x != PagePlace(d, t) {
      assert Names(s', pd, x) == Names(s, pd, x);
      if Names(s, pd, x) == Some(g) { FramesAreExclusive(s, p, pd, owner, x, PagePlace(d, t)); }
    }
  }
}
