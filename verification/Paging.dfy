/** 32-bit paging over flat memory (Intel 64 and IA-32 SDM, Volume 3A, section 4.3), the invariant
    tying page directory, page tables and frame bitmap together, and the three edits that keep it. */
module Paging {
  import opened PhysicalMemory
  import opened FramePools

  const POOL_WORDS: nat := 0x10_0000  // words below the process pool's first frame

  predicate Present(e: Word) {
    e % 2 == 1
  }

  function FrameOf(e: Word): nat {
    e / 4096
  }

  function DirectoryIndex(va: Word): nat {
    va / 0x40_0000
  }

  function TableIndex(va: Word): nat {
    va / 4096 % 1024
  }

  /** Word `k` of frame `f`. */
  function EntryAt(s: Ram, f: nat, k: nat): Word
    requires f < FRAMES && k < 1024
  {
    s[1024 * f + k]
  }

  /** The frame that page `t` under directory slot `d` is mapped to, if any. */
  function Lookup(s: Ram, pd: nat, d: nat, t: nat): Option<nat>
    requires pd < FRAMES && d < 1024 && t < 1024
  {
    var pde := EntryAt(s, pd, d);
    if !Present(pde) || FrameOf(pde) >= FRAMES then None
    else
      var pte := EntryAt(s, FrameOf(pde), t);
      if Present(pte) then Some(FrameOf(pte)) else None
  }

  /** The physical address of `va` under the directory in frame `pd`, if it is mapped. */
  function Translate(s: Ram, pd: nat, va: Word): Option<nat>
    requires pd < FRAMES
  {
    match Lookup(s, pd, DirectoryIndex(va), TableIndex(va))
    case None => None
    case Some(f) => Some(4096 * f + va % 4096)
  }

  // ----- who owns each used frame of the process pool -----

  datatype Role = Hole | Directory | FirstTable | Table(d: nat) | Page(d: nat, t: nat)

  type Owners = map<nat, Role>

  /** Directory slots that the fault handler fills: not the identity map's, not the self-map's. */
  predicate Ordinary(d: nat) {
    1 <= d < 1023
  }

  predicate HasTable(s: Ram, pd: nat, d: nat)
    requires pd < FRAMES && d < 1024
  {
    Present(EntryAt(s, pd, d))
  }

  function TableOf(s: Ram, pd: nat, d: nat): nat
    requires pd < FRAMES && d < 1024
  {
    FrameOf(EntryAt(s, pd, d))
  }

  ghost predicate InPool(owner: Owners) {
    forall f | f in owner :: InProcessPool(f)
  }

  ghost predicate HoleOwned(owner: Owners) {
    forall f: nat | InHole(f) :: f in owner
  }

  ghost predicate FixedRoles(owner: Owners, pd: nat, pt0: nat) {
    && pd in owner && pt0 in owner
    && forall f | f in owner ::
         && (owner[f] == Directory <==> f == pd)
         && (owner[f] == FirstTable <==> f == pt0)
         && (owner[f] == Hole <==> InHole(f))
  }

  ghost predicate IdentityMap(s: Ram, pd: nat, pt0: nat)
    requires pd < FRAMES && pt0 < FRAMES
  {
    && EntryAt(s, pd, 0) == 4096 * pt0 + 3
    && forall t: nat | t < 1024 :: EntryAt(s, pt0, t) == 4096 * t + 3
  }

  ghost predicate SelfMap(s: Ram, pd: nat)
    requires pd < FRAMES
  {
    EntryAt(s, pd, 1023) == 4096 * pd + 3
  }

  /** A present ordinary directory entry names the frame owned as that table, and conversely; which
      access flags it carries is left open. */
  ghost predicate TablesOwned(s: Ram, pd: nat, owner: Owners)
    requires pd < FRAMES
  {
    && (forall d: nat | Ordinary(d) && HasTable(s, pd, d) ::
          TableOf(s, pd, d) in owner && owner[TableOf(s, pd, d)] == Table(d))
    && (forall f | f in owner && owner[f].Table? ::
          Ordinary(owner[f].d) && HasTable(s, pd, owner[f].d) && TableOf(s, pd, owner[f].d) == f)
  }

  /** A present entry of a table names the frame owned as that page, and conversely. */
  ghost predicate PagesOwned(s: Ram, pd: nat, owner: Owners)
    requires pd < FRAMES && InPool(owner)
  {
    && (forall f, t: nat | f in owner && owner[f].Table? && t < 1024 && Present(EntryAt(s, f, t)) ::
          var g := FrameOf(EntryAt(s, f, t));
          g in owner && owner[g] == Page(owner[f].d, t))
    && (forall g | g in owner && owner[g].Page? ::
          var d, t := owner[g].d, owner[g].t;
          && Ordinary(d) && t < 1024 && HasTable(s, pd, d)
          && TableOf(s, pd, d) < FRAMES
          && EntryAt(s, TableOf(s, pd, d), t) == 4096 * g + 7)
  }

  /** The bitmap lives among the kernel frames, below every frame of the process pool. */
  ghost predicate BitmapBelow(p: Pool) {
    && p == ProcessPool(p.bitmap)
    && 4096 * KERNEL_START <= p.bitmap
    && p.bitmap + PROCESS_SIZE / 8 <= 4096 * PROCESS_START
  }

  ghost predicate WellFormed(s: Ram, p: Pool, pd: nat, owner: Owners) {
    && BitmapBelow(p)
    && UsedFrames(s, p) == owner.Keys
    && InPool(owner)
    && HoleOwned(owner)
    && InProcessPool(pd)
    && InProcessPool(TableOf(s, pd, 0))
    && FixedRoles(owner, pd, TableOf(s, pd, 0))
    && IdentityMap(s, pd, TableOf(s, pd, 0))
    && SelfMap(s, pd)
    && TablesOwned(s, pd, owner)
    && PagesOwned(s, pd, owner)
  }

  // ----- the edits -----

  /** Words `0..m` of frame `f` cleared. */
  function ClearWords(s: Ram, f: nat, m: nat): Ram
    requires f < FRAMES && m <= 1024
  {
    if m == 0 then s else ClearWords(s, f, m - 1)[1024 * f + (m - 1) := 0]
  }

  lemma {:induction false} ClearWordsEffect(s: Ram, f: nat, m: nat, w: nat)
    requires f < FRAMES && m <= 1024 && w < RAM_WORDS
    ensures ClearWords(s, f, m)[w] == if 1024 * f <= w < 1024 * f + m then 0 else s[w]
  {
    if m > 0 { ClearWordsEffect(s, f, m - 1, w); }
  }

  lemma ClearWordsStep(s: Ram, f: nat, m: nat)
    requires f < FRAMES && m < 1024
    ensures ClearWords(s, f, m + 1) == ClearWords(s, f, m)[1024 * f + m := 0]
    ensures ClearWords(s, f, 0) == s
  {
  }

  /** Directory slot `d` now names frame `f`, whose 1024 entries are empty. */
  function InstallTable(s: Ram, p: Pool, pd: nat, d: nat, f: nat): Ram
    requires p.Fits() && p.Has(f) && pd < FRAMES && f < FRAMES && d < 1024
  {
    ClearWords(SetBit(s, p, f - p.base)[1024 * pd + d := 4096 * f + 3], f, 1024)
  }

  /** Entry `t` of table `f` now names frame `g`. */
  function MapPage(s: Ram, p: Pool, f: nat, t: nat, g: nat): Ram
    requires p.Fits() && p.Has(g) && f < FRAMES && g < FRAMES && t < 1024
  {
    SetBit(s, p, g - p.base)[1024 * f + t := 4096 * g + 7]
  }

  /** Entry `t` of table `f`, which named frame `g`, is emptied and the frame given back. */
  function UnmapPage(s: Ram, p: Pool, f: nat, t: nat, g: nat): Ram
    requires p.Fits() && p.Has(g) && f < FRAMES && t < 1024
  {
    ClearBit(s, p, g - p.base)[1024 * f + t := 0]
  }

  /** `s'` has the words of `s` in the process pool, except word `k` of frame `f`, now `v`,
      and the frame `cleared`, now all zero. */
  ghost predicate Edited(s: Ram, s': Ram, f: nat, k: nat, v: Word, cleared: set<nat>)
    requires f < FRAMES && k < 1024
  {
    && EntryAt(s', f, k) == v
    && (forall g: nat, j: nat {:trigger EntryAt(s', g, j)} | InProcessPool(g) && j < 1024 && !(g == f && j == k) ::
          EntryAt(s', g, j) == if g in cleared then 0 else EntryAt(s, g, j))
  }

  /** Marking and clearing a frame leave the words of the process pool alone. */
  lemma BitmapWordsLow(s: Ram, p: Pool, i: nat, w: nat)
    requires BitmapBelow(p) && i < p.n && POOL_WORDS <= w < RAM_WORDS
    ensures SetBit(s, p, i)[w] == s[w] && ClearBit(s, p, i)[w] == s[w]
  {
    hide SetBit, ClearBit;
    SetBitStaysInBitmap(s, p, i);
    ClearBitStaysInBitmap(s, p, i);
  }

  lemma SameBitmapSameUsed(s: Ram, s': Ram, p: Pool)
    requires BitmapBelow(p)
    requires forall w: nat | w < POOL_WORDS :: s'[w] == s[w]
    ensures UsedFrames(s', p) == UsedFrames(s, p)
  {
    hide UsedFrames, Used;
    UsedDependsOnBitmap(s, s', p);
  }

  lemma InstallTableWords(s: Ram, p: Pool, pd: nat, d: nat, f: nat)
    requires BitmapBelow(p) && InProcessPool(f) && InProcessPool(pd) && f != pd && d < 1024
    ensures var s' := InstallTable(s, p, pd, d, f);
      && UsedFrames(s', p) == UsedFrames(s, p) + {f}
      && Edited(s, s', pd, d, 4096 * f + 3, {f})
  {
    hide UsedFrames, Used, SetBit, ClearBit, ClearWords;
    var s1 := SetBit(s, p, f - p.base);
    var s2 := s1[1024 * pd + d := 4096 * f + 3];
    var s' := ClearWords(s2, f, 1024);
    SetBitAddsFrame(s, p, f - p.base, p);
    forall w: nat | w < RAM_WORDS
      ensures s'[w] == if 1024 * f <= w < 1024 * f + 1024 then 0 else s2[w]
    {
      ClearWordsEffect(s2, f, 1024, w);
    }
    SameBitmapSameUsed(s1, s', p);
    forall g: nat, k: nat | InProcessPool(g) && k < 1024 && !(g == pd && k == d)
      ensures EntryAt(s', g, k) == if g in {f} then 0 else EntryAt(s, g, k)
    {
      BitmapWordsLow(s, p, f - p.base, 1024 * g + k);
    }
  }

  lemma MapPageWords(s: Ram, p: Pool, f: nat, t: nat, g: nat)
    requires BitmapBelow(p) && InProcessPool(f) && InProcessPool(g) && t < 1024
    ensures var s' := MapPage(s, p, f, t, g);
      && UsedFrames(s', p) == UsedFrames(s, p) + {g}
      && Edited(s, s', f, t, 4096 * g + 7, {})
  {
    hide UsedFrames, Used, SetBit, ClearBit;
    var s1 := SetBit(s, p, g - p.base);
    var s' := s1[1024 * f + t := 4096 * g + 7];
    SetBitAddsFrame(s, p, g - p.base, p);
    SameBitmapSameUsed(s1, s', p);
    forall h: nat, k: nat | InProcessPool(h) && k < 1024 && !(h == f && k == t)
      ensures EntryAt(s', h, k) == EntryAt(s, h, k)
    {
      BitmapWordsLow(s, p, g - p.base, 1024 * h + k);
    }
  }

  lemma UnmapPageWords(s: Ram, p: Pool, f: nat, t: nat, g: nat)
    requires BitmapBelow(p) && InProcessPool(f) && InProcessPool(g) && t < 1024
    ensures var s' := UnmapPage(s, p, f, t, g);
      && UsedFrames(s', p) == UsedFrames(s, p) - {g}
      && Edited(s, s', f, t, 0, {})
  {
    hide UsedFrames, Used, SetBit, ClearBit;
    var s1 := ClearBit(s, p, g - p.base);
    var s' := s1[1024 * f + t := 0];
    ClearBitRemovesFrame(s, p, g - p.base, p);
    SameBitmapSameUsed(s1, s', p);
    forall h: nat, k: nat | InProcessPool(h) && k < 1024 && !(h == f && k == t)
      ensures EntryAt(s', h, k) == EntryAt(s, h, k)
    {
      BitmapWordsLow(s, p, g - p.base, 1024 * h + k);
    }
  }

  // ----- the edits keep the invariant -----

  /** An ordinary table has its own frame in the pool. */
  lemma OrdinaryTable(s: Ram, p: Pool, pd: nat, owner: Owners, d: nat)
    requires WellFormed(s, p, pd, owner) && Ordinary(d) && HasTable(s, pd, d)
    ensures BitmapBelow(p) && InProcessPool(pd)
    ensures InProcessPool(TableOf(s, pd, d)) && TableOf(s, pd, d) in owner
    ensures owner[TableOf(s, pd, d)] == Table(d) && pd in owner && owner[pd] == Directory
    ensures TableOf(s, pd, d) != pd && TableOf(s, pd, d) != TableOf(s, pd, 0)
  {
    hide UsedFrames, EntryAt, IdentityMap, SelfMap, PagesOwned;
  }

  lemma DirectoryRole(s: Ram, p: Pool, pd: nat, owner: Owners)
    requires WellFormed(s, p, pd, owner)
    ensures pd in owner && owner[pd] == Directory && TableOf(s, pd, 0) in owner && TableOf(s, pd, 0) != pd
  {
    hide UsedFrames, EntryAt, IdentityMap, SelfMap, TablesOwned, PagesOwned;
  }

  lemma RoleAdded(owner: Owners, pd: nat, pt0: nat, f: nat, r: Role)
    requires InPool(owner) && FixedRoles(owner, pd, pt0) && HoleOwned(owner)
    requires InProcessPool(f) && f !in owner && (r.Table? || r.Page?)
    ensures InPool(owner[f := r]) && FixedRoles(owner[f := r], pd, pt0)
    ensures HoleOwned(owner[f := r])
    ensures owner[f := r].Keys == owner.Keys + {f}
  {
  }

  lemma RoleDropped(owner: Owners, pd: nat, pt0: nat, f: nat)
    requires InPool(owner) && FixedRoles(owner, pd, pt0) && HoleOwned(owner)
    requires f in owner && owner[f].Page?
    ensures InPool(owner - {f}) && FixedRoles(owner - {f}, pd, pt0)
    ensures HoleOwned(owner - {f})
    ensures (owner - {f}).Keys == owner.Keys - {f}
  {
  }

  lemma FixedPartsKept(s: Ram, s': Ram, pd: nat, f: nat, k: nat, v: Word, cleared: set<nat>)
    requires InProcessPool(pd) && InProcessPool(f) && k < 1024 && Edited(s, s', f, k, v, cleared)
    requires InProcessPool(TableOf(s, pd, 0)) && IdentityMap(s, pd, TableOf(s, pd, 0)) && SelfMap(s, pd)
    requires f != TableOf(s, pd, 0) && (f == pd ==> Ordinary(k))
    requires pd !in cleared && TableOf(s, pd, 0) !in cleared
    ensures TableOf(s', pd, 0) == TableOf(s, pd, 0)
    ensures IdentityMap(s', pd, TableOf(s, pd, 0)) && SelfMap(s', pd)
  {
    hide EntryAt;
  }

  /** In the process pool `s'` differs from `s` at most in directory slot `d`, which names frame `f`, and
      in the words of that frame. */
  ghost predicate Linked(s: Ram, s': Ram, pd: nat, d: nat, f: nat)
    requires pd < FRAMES && f < FRAMES && d < 1024
  {
    && HasTable(s', pd, d) && TableOf(s', pd, d) == f
    && (forall g: nat, j: nat {:trigger EntryAt(s', g, j)}
          | InProcessPool(g) && j < 1024 && g != f && !(g == pd && j == d) :: EntryAt(s', g, j) == EntryAt(s, g, j))
  }

  /** No word of the frame is a present entry. */
  ghost predicate Blank(s: Ram, f: nat)
    requires f < FRAMES
  {
    forall k: nat | k < 1024 :: !Present(EntryAt(s, f, k))
  }

  ghost predicate Entered(s: Ram, s': Ram, pd: nat, d: nat, f: nat)
    requires pd < FRAMES && f < FRAMES && d < 1024
  {
    Linked(s, s', pd, d, f) && Blank(s', f)
  }

  lemma NewTableTables(s: Ram, s': Ram, pd: nat, owner: Owners, d: nat, f: nat)
    requires InProcessPool(pd) && Ordinary(d) && !HasTable(s, pd, d)
    requires InPool(owner) && TablesOwned(s, pd, owner) && pd in owner
    requires InProcessPool(f) && f !in owner && Entered(s, s', pd, d, f)
    ensures TablesOwned(s', pd, owner[f := Table(d)])
  {
    hide EntryAt;
    forall k: nat | k < 1024 && k != d
      ensures HasTable(s', pd, k) == HasTable(s, pd, k) && TableOf(s', pd, k) == TableOf(s, pd, k)
    {
      assert EntryAt(s', pd, k) == EntryAt(s, pd, k);
    }
  }

  lemma NewTablePages(s: Ram, s': Ram, pd: nat, owner: Owners, d: nat, f: nat)
    requires InProcessPool(pd) && Ordinary(d) && !HasTable(s, pd, d)
    requires InPool(owner) && TablesOwned(s, pd, owner) && pd in owner && owner[pd] == Directory
    requires PagesOwned(s, pd, owner)
    requires InProcessPool(f) && f !in owner && Entered(s, s', pd, d, f)
    ensures PagesOwned(s', pd, owner[f := Table(d)])
  {
    hide EntryAt;
  }

  lemma NewTableFixedParts(s: Ram, s': Ram, pd: nat, d: nat, f: nat)
    requires InProcessPool(pd) && InProcessPool(f) && Ordinary(d) && Entered(s, s', pd, d, f)
    requires InProcessPool(TableOf(s, pd, 0)) && IdentityMap(s, pd, TableOf(s, pd, 0)) && SelfMap(s, pd)
    requires f != TableOf(s, pd, 0) && f != pd && TableOf(s, pd, 0) != pd
    ensures TableOf(s', pd, 0) == TableOf(s, pd, 0)
    ensures IdentityMap(s', pd, TableOf(s, pd, 0)) && SelfMap(s', pd)
  {
    hide EntryAt;
  }

  /** A free frame with no present words, entered in an absent slot, keeps the invariant. */
  lemma NewTableKeeps(s: Ram, s': Ram, p: Pool, pd: nat, owner: Owners, d: nat, f: nat)
    requires WellFormed(s, p, pd, owner) && Ordinary(d) && !HasTable(s, pd, d)
    requires InProcessPool(f) && f !in owner
    requires Entered(s, s', pd, d, f) && UsedFrames(s', p) == UsedFrames(s, p) + {f}
    ensures WellFormed(s', p, pd, owner[f := Table(d)])
  {
    hide UsedFrames, EntryAt, IdentityMap, SelfMap, TablesOwned, PagesOwned, Entered, FixedRoles;
    hide InPool, HoleOwned, BitmapBelow, TableOf, HasTable;
    DirectoryRole(s, p, pd, owner);
    RoleAdded(owner, pd, TableOf(s, pd, 0), f, Table(d));
    NewTableFixedParts(s, s', pd, d, f);
    NewTableTables(s, s', pd, owner, d, f);
    NewTablePages(s, s', pd, owner, d, f);
  }

  lemma EntryParts(f: nat, flags: nat)
    requires f < FRAMES && flags < 4096
    ensures FrameOf(4096 * f + flags) == f && (Present(4096 * f + flags) <==> flags % 2 == 1)
  {
    assert (4096 * f + flags) / 4096 == f;
  }

  lemma InstallTableEnters(s: Ram, p: Pool, pd: nat, d: nat, f: nat)
    requires BitmapBelow(p) && InProcessPool(f) && InProcessPool(pd) && f != pd && d < 1024
    ensures var s' := InstallTable(s, p, pd, d, f);
      Entered(s, s', pd, d, f) && UsedFrames(s', p) == UsedFrames(s, p) + {f}
  {
    hide InstallTable, UsedFrames, EntryAt, Present, FrameOf, BitmapBelow;
    InstallTableWords(s, p, pd, d, f);
    EntryParts(f, 3);
    EntryParts(0, 0);
  }

  lemma InstallTableKeeps(s: Ram, p: Pool, pd: nat, owner: Owners, d: nat, f: nat)
    requires WellFormed(s, p, pd, owner) && Ordinary(d) && !HasTable(s, pd, d)
    requires InProcessPool(f) && f !in owner
    ensures WellFormed(InstallTable(s, p, pd, d, f), p, pd, owner[f := Table(d)])
  {
    hide InstallTable, UsedFrames, EntryAt, IdentityMap, SelfMap, TablesOwned, PagesOwned, Entered, FixedRoles;
    hide HasTable;
    DirectoryRole(s, p, pd, owner);
    InstallTableEnters(s, p, pd, d, f);
    NewTableKeeps(s, InstallTable(s, p, pd, d, f), p, pd, owner, d, f);
  }

  lemma MapPageTables(s: Ram, s': Ram, pd: nat, owner: Owners, d: nat, t: nat, g: nat)
    requires InProcessPool(pd) && Ordinary(d) && HasTable(s, pd, d) && t < 1024
    requires InPool(owner) && TablesOwned(s, pd, owner) && pd in owner && owner[pd] == Directory
    requires InProcessPool(g) && g !in owner
    requires Edited(s, s', TableOf(s, pd, d), t, 4096 * g + 7, {})
    ensures TablesOwned(s', pd, owner[g := Page(d, t)])
  {
    hide EntryAt;
  }

  lemma MapPagePages(s: Ram, s': Ram, pd: nat, owner: Owners, d: nat, t: nat, g: nat)
    requires InProcessPool(pd) && Ordinary(d) && HasTable(s, pd, d) && t < 1024
    requires InPool(owner) && TablesOwned(s, pd, owner) && pd in owner && owner[pd] == Directory
    requires PagesOwned(s, pd, owner)
    requires !Present(EntryAt(s, TableOf(s, pd, d), t))
    requires InProcessPool(g) && g !in owner
    requires Edited(s, s', TableOf(s, pd, d), t, 4096 * g + 7, {})
    ensures PagesOwned(s', pd, owner[g := Page(d, t)])
  {
    hide EntryAt, Present, FrameOf, TablesOwned, PagesOwned;
    var owner' := owner[g := Page(d, t)];
    forall f, j: nat | f in owner' && owner'[f].Table? && j < 1024 && Present(EntryAt(s', f, j))
      ensures var h := FrameOf(EntryAt(s', f, j)); h in owner' && owner'[h] == Page(owner'[f].d, j)
    {
      MapPageNames(s, s', pd, owner, d, t, g, f, j);
    }
    forall h | h in owner' && owner'[h].Page?
      ensures var k, j := owner'[h].d, owner'[h].t;
        Ordinary(k) && j < 1024 && HasTable(s', pd, k) && TableOf(s', pd, k) < FRAMES
        && EntryAt(s', TableOf(s', pd, k), j) == 4096 * h + 7
    {
      MapPageNamed(s, s', pd, owner, d, t, g, h);
    }
    PagesOwnedIs(s', pd, owner');
  }

  lemma PagesOwnedIs(s: Ram, pd: nat, owner: Owners)
    requires pd < FRAMES && InPool(owner)
    requires forall f, j: nat | f in owner && owner[f].Table? && j < 1024 && Present(EntryAt(s, f, j)) ::
      var h := FrameOf(EntryAt(s, f, j)); h in owner && owner[h] == Page(owner[f].d, j)
    requires forall h | h in owner && owner[h].Page? ::
      var k, j := owner[h].d, owner[h].t;
      Ordinary(k) && j < 1024 && HasTable(s, pd, k) && TableOf(s, pd, k) < FRAMES
      && EntryAt(s, TableOf(s, pd, k), j) == 4096 * h + 7
    ensures PagesOwned(s, pd, owner)
  {
    hide EntryAt, Present, FrameOf, Ordinary, HasTable, TableOf;
  }

  /** After the page is entered, a present entry still names the frame owned as its page. */
  lemma MapPageNames(s: Ram, s': Ram, pd: nat, owner: Owners, d: nat, t: nat, g: nat, f: nat, j: nat)
    requires InProcessPool(pd) && Ordinary(d) && HasTable(s, pd, d) && t < 1024
    requires InPool(owner) && TablesOwned(s, pd, owner) && PagesOwned(s, pd, owner)
    requires InProcessPool(g) && g !in owner && Edited(s, s', TableOf(s, pd, d), t, 4096 * g + 7, {})
    requires f in owner && owner[f].Table? && j < 1024 && Present(EntryAt(s', f, j))
    ensures var h := FrameOf(EntryAt(s', f, j));
      if f == TableOf(s, pd, d) && j == t then h == g && owner[f].d == d
      else h in owner && h != g && owner[h] == Page(owner[f].d, j)
  {
    hide EntryAt, Present, FrameOf;
    EntryParts(g, 7);
    if f != TableOf(s, pd, d) || j != t { assert EntryAt(s', f, j) == EntryAt(s, f, j); }
  }

  /** And each page's frame is still named by its entry. */
  lemma MapPageNamed(s: Ram, s': Ram, pd: nat, owner: Owners, d: nat, t: nat, g: nat, h: nat)
    requires InProcessPool(pd) && Ordinary(d) && HasTable(s, pd, d) && t < 1024
    requires InPool(owner) && TablesOwned(s, pd, owner) && pd in owner && owner[pd] == Directory
    requires PagesOwned(s, pd, owner) && !Present(EntryAt(s, TableOf(s, pd, d), t))
    requires InProcessPool(g) && g !in owner && Edited(s, s', TableOf(s, pd, d), t, 4096 * g + 7, {})
    requires h == g || (h in owner && owner[h].Page?)
    ensures var k, j := if h == g then d else owner[h].d, if h == g then t else owner[h].t;
      Ordinary(k) && j < 1024 && HasTable(s', pd, k) && TableOf(s', pd, k) < FRAMES
      && EntryAt(s', TableOf(s', pd, k), j) == 4096 * h + 7
  {
    hide EntryAt, FrameOf;
    var k := if h == g then d else owner[h].d;
    assert EntryAt(s', pd, k) == EntryAt(s, pd, k);
    if h != g {
      assert EntryAt(s, TableOf(s, pd, k), owner[h].t) == 4096 * h + 7;
      assert TableOf(s, pd, k) in owner && owner[TableOf(s, pd, k)] == Table(k);
    }
  }

  lemma MapPageKeeps(s: Ram, p: Pool, pd: nat, owner: Owners, d: nat, t: nat, g: nat)
    requires WellFormed(s, p, pd, owner) && Ordinary(d) && HasTable(s, pd, d) && t < 1024
    requires !Present(EntryAt(s, TableOf(s, pd, d), t))
    requires InProcessPool(g) && g !in owner
    ensures WellFormed(MapPage(s, p, TableOf(s, pd, d), t, g), p, pd, owner[g := Page(d, t)])
  {
    hide MapPage, UsedFrames, EntryAt, IdentityMap, SelfMap, TablesOwned, PagesOwned, Edited, FixedRoles;
    OrdinaryTable(s, p, pd, owner, d);
    var f := TableOf(s, pd, d);
    MapPageWords(s, p, f, t, g);
    var s' := MapPage(s, p, f, t, g);
    hide InPool, HoleOwned, BitmapBelow, TableOf, HasTable;
    RoleAdded(owner, pd, TableOf(s, pd, 0), g, Page(d, t));
    FixedPartsKept(s, s', pd, f, t, 4096 * g + 7, {});
    MapPageTables(s, s', pd, owner, d, t, g);
    MapPagePages(s, s', pd, owner, d, t, g);
  }

  lemma UnmapPageTables(s: Ram, s': Ram, pd: nat, owner: Owners, d: nat, t: nat, g: nat)
    requires InProcessPool(pd) && Ordinary(d) && HasTable(s, pd, d) && t < 1024
    requires InPool(owner) && TablesOwned(s, pd, owner) && pd in owner && owner[pd] == Directory
    requires g in owner && owner[g].Page?
    requires Edited(s, s', TableOf(s, pd, d), t, 0, {})
    ensures TablesOwned(s', pd, owner - {g})
  {
    hide EntryAt;
  }

  lemma UnmapPagePages(s: Ram, s': Ram, pd: nat, owner: Owners, d: nat, t: nat, g: nat)
    requires InProcessPool(pd) && Ordinary(d) && HasTable(s, pd, d) && t < 1024
    requires InPool(owner) && TablesOwned(s, pd, owner) && pd in owner && owner[pd] == Directory
    requires PagesOwned(s, pd, owner)
    requires g in owner && owner[g] == Page(d, t)
    requires Edited(s, s', TableOf(s, pd, d), t, 0, {})
    ensures PagesOwned(s', pd, owner - {g})
  {
    hide EntryAt;
  }

  lemma UnmapPageKeeps(s: Ram, p: Pool, pd: nat, owner: Owners, d: nat, t: nat, g: nat)
    requires WellFormed(s, p, pd, owner) && g in owner && owner[g] == Page(d, t)
    ensures WellFormed(UnmapPage(s, p, TableOf(s, pd, d), t, g), p, pd, owner - {g})
  {
    hide UnmapPage, UsedFrames, EntryAt, IdentityMap, SelfMap, TablesOwned, Edited, FixedRoles, HoleOwned;
    var f := TableOf(s, pd, d);
    OrdinaryTable(s, p, pd, owner, d);
    UnmapPageWords(s, p, f, t, g);
    var s' := UnmapPage(s, p, f, t, g);
    hide TableOf, HasTable;
    RoleDropped(owner, pd, TableOf(s, pd, 0), g);
    FixedPartsKept(s, s', pd, f, t, 0, {});
    UnmapPageTables(s, s', pd, owner, d, t, g);
    UnmapPagePages(s, s', pd, owner, d, t, g);
  }
}
