/** The self-map stays usable while the fault handler edits tables through it. */
module SelfMapAccess {
  import opened PhysicalMemory
  import opened FramePools
  import opened Paging
  import opened Translation
  import opened Faults
  import opened PageRelease

  /** Table `d` can be reached through the window, in frame `f`. */
  ghost predicate Window(s: Ram, pd: nat, d: nat, f: nat) {
    && InProcessPool(pd) && InProcessPool(f) && d < 1024
    && SelfMap(s, pd) && HasTable(s, pd, d) && TableOf(s, pd, d) == f
  }

  lemma BitKeepsWindow(s: Ram, p: Pool, pd: nat, d: nat, f: nat, i: nat)
    requires BitmapBelow(p) && i < p.n && Window(s, pd, d, f)
    ensures Window(SetBit(s, p, i), pd, d, f) && Window(ClearBit(s, p, i), pd, d, f)
  {
    hide SetBit, ClearBit, Present, FrameOf;
    BitmapWordsLow(s, p, i, 1024 * pd + d);
    BitmapWordsLow(s, p, i, 1024 * pd + 1023);
  }

  lemma BitKeepsSelfMap(s: Ram, p: Pool, pd: nat, i: nat)
    requires BitmapBelow(p) && i < p.n && InProcessPool(pd) && SelfMap(s, pd)
    ensures SelfMap(SetBit(s, p, i), pd)
  {
    hide SetBit;
    BitmapWordsLow(s, p, i, 1024 * pd + 1023);
  }

  lemma StoreKeepsWindow(s: Ram, pd: nat, d: nat, f: nat, t: nat, v: Word)
    requires Window(s, pd, d, f) && t < 1024 && (f == pd ==> t != 1023 && t != d)
    ensures Window(s[1024 * f + t := v], pd, d, f)
  {
    hide Present, FrameOf;
  }

  lemma DirectoryStoreKeepsSelfMap(s: Ram, pd: nat, d: nat, v: Word)
    requires InProcessPool(pd) && SelfMap(s, pd) && d < 1023
    ensures SelfMap(s[1024 * pd + d := v], pd)
  {
  }

  /** The new table's own window opens as soon as its directory entry is written. */
  lemma NewTableOpensWindow(s: Ram, pd: nat, d: nat, f: nat, m: nat)
    requires InProcessPool(pd) && InProcessPool(f) && f != pd && SelfMap(s, pd) && d < 1023 && m <= 1024
    ensures Window(ClearWords(s[1024 * pd + d := 4096 * f + 3], f, m), pd, d, f)
  {
    hide ClearWords, Present, FrameOf;
    var s' := s[1024 * pd + d := 4096 * f + 3];
    ClearWordsEffect(s', f, m, 1024 * pd + d);
    ClearWordsEffect(s', f, m, 1024 * pd + 1023);
    EntryParts(f, 3);
  }

  /** In a well-formed state the handler can work at any slot, through the window if it is present. */
  lemma AnySlot(s: Ram, p: Pool, pd: nat, owner: Owners, d: nat)
    requires WellFormed(s, p, pd, owner) && d < 1024
    ensures BitmapBelow(p) && InProcessPool(pd) && SelfMap(s, pd) && pd in owner
    ensures HasTable(s, pd, d) ==> Window(s, pd, d, TableOf(s, pd, d))
    ensures HasTable(s, pd, d) && TableOf(s, pd, d) == pd ==> d == 1023
    ensures !HasTable(s, pd, d) ==> Ordinary(d)
  {
    hide UsedFrames, EntryAt, PagesOwned, HoleOwned, Rooted, IdentityMap, TablesOwned;
    WellFormedRooted(s, p, pd, owner);
    SlotFrame(s, pd, owner, 1023);
    if HasTable(s, pd, d) { SlotFrame(s, pd, owner, d); }
    FirstSlotPresent(s, p, pd, owner);
  }

  lemma FirstSlotPresent(s: Ram, p: Pool, pd: nat, owner: Owners)
    requires WellFormed(s, p, pd, owner)
    ensures InProcessPool(pd) && HasTable(s, pd, 0)
  {
    hide UsedFrames, EntryAt, PagesOwned, HoleOwned, TablesOwned, SelfMap, FixedRoles, Present, FrameOf;
    EntryParts(TableOf(s, pd, 0), 3);
  }

  lemma SlotHandles(s: Ram, p: Pool, pd: nat, owner: Owners, d: nat)
    requires WellFormed(s, p, pd, owner) && d < 1024
    ensures Handles(s, p, pd, d)
  {
    hide WellFormed, HasTable, TableOf, SelfMap;
    AnySlot(s, p, pd, owner, d);
  }

  lemma PresentIs(s: Ram, pd: nat, d: nat)
    requires pd < FRAMES && d < 1024
    ensures HasTable(s, pd, d) <==> s[1024 * pd + d] % 2 == 1
  {
  }

  /** An unmapped page whose table is the directory itself is neither the self-map's own nor in a
      slot it would overwrite. */
  lemma UnmappedNotRoot(s: Ram, p: Pool, pd: nat, owner: Owners, d: nat, t: nat)
    requires WellFormed(s, p, pd, owner) && d < 1024 && t < 1024 && pd < FRAMES
    requires Lookup(s, pd, d, t).None? && HasTable(s, pd, d)
    ensures TableOf(s, pd, d) == pd ==> t != 1023 && t != d
  {
    hide WellFormed, EntryAt, Present, FrameOf;
    AnySlot(s, p, pd, owner, d);
    EntryParts(pd, 3);
  }

  lemma RootUsed(s: Ram, p: Pool, pd: nat, owner: Owners)
    requires WellFormed(s, p, pd, owner)
    ensures p.Fits() && pd in UsedFrames(s, p)
  {
    hide UsedFrames, EntryAt, IdentityMap, SelfMap, TablesOwned, PagesOwned;
  }

  lemma PageParts(page: nat)
    ensures var va := page * 4096 % 0x1_0000_0000;
      va / 0x40_0000 == page / 1024 % 1024 && va / 4096 % 1024 == page % 1024
  {
    PageWraps(page);
    LowPageParts(page, page % 0x10_0000);
  }

  lemma PageWraps(page: nat)
    ensures page * 4096 % 0x1_0000_0000 == page % 0x10_0000 * 4096
  {
    var q, r := page / 0x10_0000, page % 0x10_0000;
    assert page * 4096 == q * 0x1_0000_0000 + r * 4096;
  }

  lemma LowPageParts(page: nat, r: nat)
    requires r == page % 0x10_0000
    ensures r * 4096 / 0x40_0000 == page / 1024 % 1024
    ensures r * 4096 / 4096 % 1024 == page % 1024
  {
    var q := page / 0x10_0000;
    assert page / 1024 == 1024 * q + r / 1024;
    assert r * 4096 / 0x40_0000 == r / 1024;
  }

  /** Whatever number is released, only bitmap bytes change, so the window stays open. */
  lemma ReleaseKeepsWindow(s: Ram, st: Statics, p: Pool, pd: nat, d: nat, f: nat, released: nat)
    requires Window(s, pd, d, f) && ProcessPoolOf(st, p) && BitmapBelow(p)
    requires st.kernelBitmap + KERNEL_SIZE / 8 <= 4096 * PROCESS_START
    ensures Window(ReleaseFrame(s, st, released), pd, d, f)
  {
    hide SetBit, ClearBit, Window;
    if ReleaseFrame(s, st, released) != s {
      if InProcessPool(released) {
        BitKeepsWindow(s, p, pd, d, f, released - PROCESS_START);
      } else {
        KernelBitKeepsWindow(s, KernelPool(st.kernelBitmap), pd, d, f, released - KERNEL_START);
      }
    }
  }

  lemma KernelBitKeepsWindow(s: Ram, k: Pool, pd: nat, d: nat, f: nat, i: nat)
    requires k == KernelPool(k.bitmap) && k.Fits() && k.bitmap + KERNEL_SIZE / 8 <= 4096 * PROCESS_START
    requires Window(s, pd, d, f) && i < k.n
    ensures Window(ClearBit(s, k, i), pd, d, f)
  {
    hide ClearBit, Present, FrameOf;
    ClearBitStaysInBitmap(s, k, i);
  }
}
