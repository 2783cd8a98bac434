/** The earlier page table (P3) in its own arrangement: directory and tables in kernel frames, reached
    by their physical addresses, and pages in process frames. */
module DirectRuns {
  import opened PhysicalMemory
  import opened FramePools
  import opened Paging
  import opened Faults
  import opened DirectPaging

  /** The kernel frames that hold the two bitmaps and the directory. */
  datatype Layout = Layout(kernelInfo: nat, processInfo: nat, pd: nat) {
    function Tables(): Pool {
      KernelPool(4096 * kernelInfo)
    }

    function Pages(): Pool {
      ProcessPool(4096 * processInfo)
    }

    predicate Fixed(f: nat) {
      f == kernelInfo || f == processInfo || f == pd
    }

    ghost predicate Apart() {
      && InKernelPool(kernelInfo) && InKernelPool(processInfo) && InKernelPool(pd)
      && kernelInfo != processInfo && kernelInfo != pd && processInfo != pd
    }
  }

  ghost predicate FixedUsed(s: Ram, l: Layout)
    requires l.Apart()
  {
    forall f | l.Fixed(f) :: f in UsedFrames(s, l.Tables())
  }

  /** Each present slot has a used kernel frame of its own. */
  ghost predicate OwnTables(s: Ram, l: Layout)
    requires l.Apart()
  {
    && (forall d: nat | d < 1024 && HasTable(s, l.pd, d) ::
          && InKernelPool(TableOf(s, l.pd, d)) && !l.Fixed(TableOf(s, l.pd, d))
          && TableOf(s, l.pd, d) in UsedFrames(s, l.Tables()))
    && (forall d: nat, d': nat | d < d' < 1024 && HasTable(s, l.pd, d) && HasTable(s, l.pd, d') ::
          TableOf(s, l.pd, d) != TableOf(s, l.pd, d'))
  }

  /** Each page mapped outside the first 4 MB has a used process frame of its own. */
  ghost predicate OwnPages(s: Ram, l: Layout)
    requires l.Apart()
  {
    && (forall d: nat, t: nat | 1 <= d < 1024 && t < 1024 && Lookup(s, l.pd, d, t).Some? ::
          Lookup(s, l.pd, d, t).value in UsedFrames(s, l.Pages()))
    && (forall d: nat, t: nat, d': nat, t': nat
          | 1 <= d < 1024 && t < 1024 && 1 <= d' < 1024 && t' < 1024 && Lookup(s, l.pd, d, t).Some?
            && Lookup(s, l.pd, d', t') == Lookup(s, l.pd, d, t) ::
          d == d' && t == t')
  }

  ghost predicate Arranged(s: Ram, l: Layout) {
    && l.Apart() && FixedUsed(s, l) && OwnTables(s, l) && OwnPages(s, l)
    && HasTable(s, l.pd, 0)
    && forall t: nat | t < 1024 :: Lookup(s, l.pd, 0, t) == Some(t)
  }

  /** Only words of the named frames differ. */
  ghost predicate SameBut(s: Ram, s': Ram, frames: set<nat>) {
    forall w: nat | w < RAM_WORDS && w / 1024 !in frames :: s'[w] == s[w]
  }

  ghost predicate SameLookups(s: Ram, s': Ram, pd: nat)
    requires pd < FRAMES
  {
    forall d: nat, t: nat | d < 1024 && t < 1024 :: Lookup(s', pd, d, t) == Lookup(s, pd, d, t)
  }

  lemma SameEntry(s: Ram, s': Ram, frames: set<nat>, f: nat, k: nat)
    requires SameBut(s, s', frames) && f < FRAMES && k < 1024 && f !in frames
    ensures EntryAt(s', f, k) == EntryAt(s, f, k)
  {
    assert (1024 * f + k) / 1024 == f;
  }

  lemma BitInFrame(s: Ram, q: Pool, info: nat, i: nat)
    requires q.bitmap == 4096 * info && q.n <= 8192 && info < FRAMES && i < q.n && q.Fits()
    ensures SameBut(s, SetBit(s, q, i), {info})
  {
    hide SetBit;
    SetBitStaysInBitmap(s, q, i);
  }

  lemma SameBitmap(s: Ram, s': Ram, q: Pool, info: nat, frames: set<nat>)
    requires q.bitmap == 4096 * info && q.n <= 8192 && info < FRAMES && q.Fits()
    requires SameBut(s, s', frames) && info !in frames
    ensures UsedFrames(s', q) == UsedFrames(s, q) && LeastFree(s', q, 0) == LeastFree(s, q, 0)
  {
    hide Used, UsedFrames, LeastFree;
    UsedDependsOnBitmap(s, s', q);
    SameSearch(s, s', q, 0);
  }

  /** A free kernel frame, taken and cleared. */
  lemma TableTaken(s: Ram, l: Layout, f: nat)
    requires l.Apart() && InKernelPool(f) && f !in UsedFrames(s, l.Tables()) && FixedUsed(s, l)
    ensures !l.Fixed(f)
    ensures var s1 := ClearWords(SetBit(s, l.Tables(), f - KERNEL_START), f, 1024);
      && SameBut(s, s1, {l.kernelInfo, f})
      && (forall k: nat | k < 1024 :: EntryAt(s1, f, k) == 0)
      && UsedFrames(s1, l.Tables()) == UsedFrames(s, l.Tables()) + {f}
      && UsedFrames(s1, l.Pages()) == UsedFrames(s, l.Pages())
      && LeastFree(s1, l.Pages(), 0) == LeastFree(s, l.Pages(), 0)
  {
    hide SetBit, ClearWords, UsedFrames, LeastFree;
    var a := SetBit(s, l.Tables(), f - KERNEL_START);
    var s1 := ClearWords(a, f, 1024);
    BitInFrame(s, l.Tables(), l.kernelInfo, f - KERNEL_START);
    SetBitAddsFrame(s, l.Tables(), f - KERNEL_START, l.Tables());
    forall w: nat | w < RAM_WORDS
      ensures s1[w] == if w / 1024 == f then 0 else a[w]
    {
      ClearWordsEffect(a, f, 1024, w);
    }
    assert SameBut(a, s1, {f});
    SameBitmap(a, s1, l.Tables(), l.kernelInfo, {f});
    SameBitmap(s, s1, l.Pages(), l.processInfo, {l.kernelInfo, f});
  }

  /** Changes in the bitmap frames, and in a frame that no table is in, move no page. */
  lemma ElsewhereKeepsLookups(s: Ram, s': Ram, l: Layout, frames: set<nat>)
    requires l.Apart() && OwnTables(s, l) && SameBut(s, s', frames) && l.pd !in frames
    requires forall d: nat | d < 1024 && HasTable(s, l.pd, d) :: TableOf(s, l.pd, d) !in frames
    ensures forall d: nat | d < 1024 :: EntryAt(s', l.pd, d) == EntryAt(s, l.pd, d)
    ensures SameLookups(s, s', l.pd)
  {
    hide UsedFrames, EntryAt;
    forall d: nat | d < 1024 ensures EntryAt(s', l.pd, d) == EntryAt(s, l.pd, d) {
      SameEntry(s, s', frames, l.pd, d);
    }
    forall d: nat, t: nat | d < 1024 && t < 1024 ensures Lookup(s', l.pd, d, t) == Lookup(s, l.pd, d, t) {
      if HasTable(s, l.pd, d) { SameEntry(s, s', frames, TableOf(s, l.pd, d), t); }
    }
  }

  /** Used sets that only grow, and the same entries: the arrangement stands. */
  lemma GrownKeeps(s: Ram, s': Ram, l: Layout)
    requires Arranged(s, l) && SameLookups(s, s', l.pd)
    requires forall d: nat | d < 1024 :: EntryAt(s', l.pd, d) == EntryAt(s, l.pd, d)
    requires UsedFrames(s, l.Tables()) <= UsedFrames(s', l.Tables())
    requires UsedFrames(s, l.Pages()) <= UsedFrames(s', l.Pages())
    ensures Arranged(s', l)
  {
    hide UsedFrames, EntryAt, Lookup;
    assert forall d: nat | d < 1024 ::
      HasTable(s', l.pd, d) == HasTable(s, l.pd, d) && TableOf(s', l.pd, d) == TableOf(s, l.pd, d);
  }

  /** An empty table, in a used frame of its own, entered in an absent slot. */
  lemma EnteredKeeps(s: Ram, l: Layout, d: nat, f: nat)
    requires Arranged(s, l) && d < 1024 && !HasTable(s, l.pd, d)
    requires InKernelPool(f) && !l.Fixed(f) && f in UsedFrames(s, l.Tables())
    requires forall k: nat | k < 1024 && HasTable(s, l.pd, k) :: TableOf(s, l.pd, k) != f
    requires forall k: nat | k < 1024 :: EntryAt(s, f, k) == 0
    ensures var s' := s[1024 * l.pd + d := 4096 * f + 3];
      && Arranged(s', l) && SameLookups(s, s', l.pd)
      && HasTable(s', l.pd, d) && TableOf(s', l.pd, d) == f
      && UsedFrames(s', l.Tables()) == UsedFrames(s, l.Tables())
      && UsedFrames(s', l.Pages()) == UsedFrames(s, l.Pages())
  {
    hide UsedFrames;
    var s' := s[1024 * l.pd + d := 4096 * f + 3];
    SameBitmap(s, s', l.Tables(), l.kernelInfo, {l.pd});
    SameBitmap(s, s', l.Pages(), l.processInfo, {l.pd});
    EnteredTables(s, s', l, d, f);
    EnteredLookups(s, s', l, d, f);
    EnteredParts(s', l, d);
  }

  lemma EnteredParts(s': Ram, l: Layout, d: nat)
    requires l.Apart() && d < 1024
    ensures HasTable(s', l.pd, d) <==> s'[1024 * l.pd + d] % 2 == 1
  {
  }

  lemma EnteredTables(s: Ram, s': Ram, l: Layout, d: nat, f: nat)
    requires l.Apart() && OwnTables(s, l) && d < 1024 && !HasTable(s, l.pd, d)
    requires InKernelPool(f) && !l.Fixed(f) && f in UsedFrames(s, l.Tables())
    requires forall k: nat | k < 1024 && HasTable(s, l.pd, k) :: TableOf(s, l.pd, k) != f
    requires s' == s[1024 * l.pd + d := 4096 * f + 3] && UsedFrames(s', l.Tables()) == UsedFrames(s, l.Tables())
    ensures HasTable(s', l.pd, d) && TableOf(s', l.pd, d) == f
    ensures forall k: nat | k < 1024 && k != d :: EntryAt(s', l.pd, k) == EntryAt(s, l.pd, k)
    ensures OwnTables(s', l)
  {
    hide UsedFrames, EntryAt;
    EnteredEntries(s, s', l.pd, d, f);
    assert forall k: nat | k < 1024 && k != d ::
      HasTable(s', l.pd, k) == HasTable(s, l.pd, k) && TableOf(s', l.pd, k) == TableOf(s, l.pd, k);
  }

  lemma EnteredEntries(s: Ram, s': Ram, pd: nat, d: nat, f: nat)
    requires pd < FRAMES && f < FRAMES && d < 1024 && s' == s[1024 * pd + d := 4096 * f + 3]
    ensures forall k: nat | k < 1024 :: EntryAt(s', pd, k) == if k == d then 4096 * f + 3 else EntryAt(s, pd, k)
  {
  }

  lemma EnteredLookups(s: Ram, s': Ram, l: Layout, d: nat, f: nat)
    requires l.Apart() && OwnTables(s, l) && d < 1024 && !HasTable(s, l.pd, d)
    requires InKernelPool(f) && !l.Fixed(f) && forall k: nat | k < 1024 :: EntryAt(s, f, k) == 0
    requires s' == s[1024 * l.pd + d := 4096 * f + 3]
    ensures SameLookups(s, s', l.pd)
  {
    hide UsedFrames, Lookup, EntryAt;
    forall k: nat, t: nat | k < 1024 && t < 1024 ensures Lookup(s', l.pd, k, t) == Lookup(s, l.pd, k, t) {
      EnteredLookupAt(s, s', l, d, f, k, t);
    }
  }

  lemma EnteredLookupAt(s: Ram, s': Ram, l: Layout, d: nat, f: nat, k: nat, t: nat)
    requires l.Apart() && OwnTables(s, l) && d < 1024 && !HasTable(s, l.pd, d) && k < 1024 && t < 1024
    requires InKernelPool(f) && !l.Fixed(f) && EntryAt(s, f, t) == 0
    requires s' == s[1024 * l.pd + d := 4096 * f + 3]
    ensures Lookup(s', l.pd, k, t) == Lookup(s, l.pd, k, t)
  {
    hide UsedFrames;
    if k == d {
      assert EntryAt(s', l.pd, d) == 4096 * f + 3;
      SameEntry(s, s', {l.pd}, f, t);
    } else {
      assert EntryAt(s', l.pd, k) == EntryAt(s, l.pd, k);
      if HasTable(s, l.pd, k) { SameEntry(s, s', {l.pd}, TableOf(s, l.pd, k), t); }
    }
  }

  /** A free process frame entered at an empty place. */
  lemma PageKeeps(s: Ram, l: Layout, d: nat, t: nat, g: nat)
    requires Arranged(s, l) && d < 1024 && t < 1024 && HasTable(s, l.pd, d) && Lookup(s, l.pd, d, t).None?
    requires InProcessPool(g) && g !in UsedFrames(s, l.Pages())
    ensures TableOf(s, l.pd, d) < FRAMES
    ensures var s' := MapPage(s, l.Pages(), TableOf(s, l.pd, d), t, g);
      && Arranged(s', l) && FaultMapping(s, s', l.pd, d, t, None, Some(g))
      && UsedFrames(s', l.Tables()) == UsedFrames(s, l.Tables())
      && UsedFrames(s', l.Pages()) == UsedFrames(s, l.Pages()) + {g}
      && (forall k: nat | k < 1024 :: EntryAt(s', l.pd, k) == EntryAt(s, l.pd, k))
  {
    hide UsedFrames, SetBit, Lookup, EntryAt;
    var f := TableOf(s, l.pd, d);
    var a := SetBit(s, l.Pages(), g - PROCESS_START);
    var s' := a[1024 * f + t := 4096 * g + 7];
    BitInFrame(s, l.Pages(), l.processInfo, g - PROCESS_START);
    SetBitAddsFrame(s, l.Pages(), g - PROCESS_START, l.Pages());
    SameBitmap(s, s', l.Tables(), l.kernelInfo, {l.processInfo, f});
    SameBitmap(a, s', l.Pages(), l.processInfo, {f});
    PageLookups(s, a, s', l, d, t, g);
    PageOwns(s, s', l, d, t, g);
  }

  lemma PageLookups(s: Ram, a: Ram, s': Ram, l: Layout, d: nat, t: nat, g: nat)
    requires l.Apart() && OwnTables(s, l) && d < 1024 && t < 1024 && HasTable(s, l.pd, d) && InProcessPool(g)
    requires SameBut(s, a, {l.processInfo}) && TableOf(s, l.pd, d) < FRAMES
    requires s' == a[1024 * TableOf(s, l.pd, d) + t := 4096 * g + 7]
    ensures forall k: nat | k < 1024 :: EntryAt(s', l.pd, k) == EntryAt(s, l.pd, k)
    ensures FaultMapping(s, s', l.pd, d, t, None, Some(g))
  {
    hide UsedFrames, Lookup, EntryAt;
    var f := TableOf(s, l.pd, d);
    assert SameBut(s, s', {l.processInfo, f});
    forall k: nat | k < 1024 ensures EntryAt(s', l.pd, k) == EntryAt(s, l.pd, k) {
      SameEntry(s, s', {l.processInfo, f}, l.pd, k);
    }
    forall k: nat, j: nat | k < 1024 && j < 1024
      ensures Lookup(s', l.pd, k, j) == if k == d && j == t then Some(g) else Lookup(s, l.pd, k, j)
    {
      PageLookupAt(s, a, s', l, d, t, g, k, j);
    }
  }

  lemma PageLookupAt(s: Ram, a: Ram, s': Ram, l: Layout, d: nat, t: nat, g: nat, k: nat, j: nat)
    requires l.Apart() && OwnTables(s, l) && d < 1024 && t < 1024 && HasTable(s, l.pd, d) && InProcessPool(g)
    requires SameBut(s, a, {l.processInfo}) && k < 1024 && j < 1024 && TableOf(s, l.pd, d) < FRAMES
    requires s' == a[1024 * TableOf(s, l.pd, d) + t := 4096 * g + 7]
    requires EntryAt(s', l.pd, k) == EntryAt(s, l.pd, k)
    ensures Lookup(s', l.pd, k, j) == if k == d && j == t then Some(g) else Lookup(s, l.pd, k, j)
  {
    hide UsedFrames, SameBut, OwnTables, EntryAt;
    EntryParts(g, 7);
    if HasTable(s, l.pd, k) {
      var f, f' := TableOf(s, l.pd, d), TableOf(s, l.pd, k);
      OwnTable(s, l, d, k);
      SameEntry(s, a, {l.processInfo}, f', j);
      UpdatedEntry(a, f, t, 4096 * g + 7, f', j);
    }
  }

  lemma OwnTable(s: Ram, l: Layout, d: nat, k: nat)
    requires l.Apart() && OwnTables(s, l) && d < 1024 && k < 1024 && HasTable(s, l.pd, d) && HasTable(s, l.pd, k)
    ensures InKernelPool(TableOf(s, l.pd, k)) && !l.Fixed(TableOf(s, l.pd, k))
    ensures TableOf(s, l.pd, k) == TableOf(s, l.pd, d) <==> k == d
  {
    hide UsedFrames, TableOf, HasTable;
    if k < d {
      assert TableOf(s, l.pd, k) != TableOf(s, l.pd, d);
    } else if k > d {
      assert TableOf(s, l.pd, d) != TableOf(s, l.pd, k);
    }
  }

  lemma UpdatedEntry(a: Ram, f: nat, t: nat, v: Word, f': nat, t': nat)
    requires f < FRAMES && t < 1024 && f' < FRAMES && t' < 1024
    ensures EntryAt(a[1024 * f + t := v], f', t') == if f' == f && t' == t then v else EntryAt(a, f', t')
  {
  }

  lemma PageOwns(s: Ram, s': Ram, l: Layout, d: nat, t: nat, g: nat)
    requires Arranged(s, l) && d < 1024 && t < 1024 && Lookup(s, l.pd, d, t).None?
    requires forall k: nat | k < 1024 :: EntryAt(s', l.pd, k) == EntryAt(s, l.pd, k)
    requires FaultMapping(s, s', l.pd, d, t, None, Some(g)) && g !in UsedFrames(s, l.Pages())
    requires UsedFrames(s', l.Tables()) == UsedFrames(s, l.Tables())
    requires UsedFrames(s', l.Pages()) == UsedFrames(s, l.Pages()) + {g}
    ensures Arranged(s', l)
  {
    hide UsedFrames, EntryAt, Lookup;
    assert forall k: nat | k < 1024 ::
      HasTable(s', l.pd, k) == HasTable(s, l.pd, k) && TableOf(s', l.pd, k) == TableOf(s, l.pd, k);
    assert d != 0;
  }

  /** Setting a bitmap bit and writing a word of another frame can be done in either order. */
  lemma BitThenWord(s: Ram, q: Pool, info: nat, i: nat, w: nat, v: Word)
    requires q.bitmap == 4096 * info && q.n <= 8192 && info < FRAMES && q.Fits() && i < q.n
    requires w < RAM_WORDS && w / 1024 != info
    ensures SetBit(s, q, i)[w := v] == SetBit(s[w := v], q, i)
  {
    hide WithByte;
    assert (q.bitmap + i / 8) / 4 != w;
  }

  lemma FreeIs(s: Ram, q: Pool, f: nat)
    requires q.Fits()
    ensures f in Free(s, q) <==> q.Has(f) && f !in UsedFrames(s, q)
  {
    hide UsedFrames;
  }

  /** A page added to a table that is there. */
  lemma PageAdded(s: Ram, l: Layout, d: nat, t: nat) returns (page: Option<nat>)
    requires Arranged(s, l) && d < 1024 && t < 1024 && HasTable(s, l.pd, d) && Lookup(s, l.pd, d, t).None?
    ensures TableOf(s, l.pd, d) < FRAMES
    ensures var (o, s') := AddPage(s, l.Pages(), TableOf(s, l.pd, d), t);
      && Arranged(s', l) && FaultMapping(s, s', l.pd, d, t, None, page)
      && (page.Some? <==> |Free(s, l.Pages())| > 0)
      && o == (if page.Some? then PageMapped else NoFrameForPage)
      && (page.Some? ==> page.value in Free(s, l.Pages()))
      && UsedFrames(s', l.Pages()) == UsedFrames(s, l.Pages()) + (if page.Some? then {page.value} else {})
      && UsedFrames(s', l.Tables()) == UsedFrames(s, l.Tables())
    ensures page == match LeastFree(s, l.Pages(), 0) case Some(i) => Some(PROCESS_START + i) case None => None
  {
    hide UsedFrames, Lookup, MapPage, FaultMapping, Free;
    page := None;
    LeastFreeIsFree(s, l.Pages());
    match LeastFree(s, l.Pages(), 0)
    case None =>
      NothingMapped(s, l.pd, d, t);
    case Some(i) =>
      page := Some(PROCESS_START + i);
      FreeIs(s, l.Pages(), page.value);
      PageKeeps(s, l, d, t, page.value);
  }

  /** A free kernel frame taken and cleared leaves everything in place; entered, it is an empty table. */
  lemma TableAdded(s: Ram, l: Layout, d: nat, f: nat)
    requires Arranged(s, l) && d < 1024 && !HasTable(s, l.pd, d) && f in Free(s, l.Tables())
    ensures InKernelPool(f)
    ensures var s1 := ClearWords(SetBit(s, l.Tables(), f - KERNEL_START), f, 1024);
      && Arranged(s1, l) && SameLookups(s, s1, l.pd) && !HasTable(s1, l.pd, d)
      && UsedFrames(s1, l.Tables()) == UsedFrames(s, l.Tables()) + {f}
      && UsedFrames(s1, l.Pages()) == UsedFrames(s, l.Pages())
      && LeastFree(s1, l.Pages(), 0) == LeastFree(s, l.Pages(), 0)
      && (forall k: nat | k < 1024 && HasTable(s1, l.pd, k) :: TableOf(s1, l.pd, k) != f)
      && (forall k: nat | k < 1024 :: EntryAt(s1, f, k) == 0)
    ensures !l.Fixed(f)
  {
    hide UsedFrames, Lookup, SetBit, ClearWords, EntryAt, LeastFree;
    FreeIs(s, l.Tables(), f);
    TableTaken(s, l, f);
    var s1 := ClearWords(SetBit(s, l.Tables(), f - KERNEL_START), f, 1024);
    assert forall k: nat | k < 1024 && HasTable(s, l.pd, k) :: TableOf(s, l.pd, k) != f;
    ElsewhereKeepsLookups(s, s1, l, {l.kernelInfo, f});
    GrownKeeps(s, s1, l);
    assert forall k: nat | k < 1024 ::
      HasTable(s1, l.pd, k) == HasTable(s, l.pd, k) && TableOf(s1, l.pd, k) == TableOf(s, l.pd, k);
  }

  lemma MapThenEnter(s: Ram, l: Layout, d: nat, t: nat, f: nat, g: nat)
    requires l.Apart() && InKernelPool(f) && f != l.pd && InProcessPool(g) && d < 1024 && t < 1024
    ensures MapPage(s, l.Pages(), f, t, g)[1024 * l.pd + d := 4096 * f + 3]
      == MapPage(s[1024 * l.pd + d := 4096 * f + 3], l.Pages(), f, t, g)
  {
    hide SetBit;
    BitThenWord(s, l.Pages(), l.processInfo, g - PROCESS_START, 1024 * l.pd + d, 4096 * f + 3);
  }

  lemma MappingAfterSame(s: Ram, s1: Ram, s': Ram, l: Layout, d: nat, t: nat, page: Option<nat>)
    requires l.Apart() && SameLookups(s, s1, l.pd)
    requires page.Some? ==> FaultMapping(s1, s', l.pd, d, t, None, page)
    requires page.None? ==> s' == s1
    ensures FaultMapping(s, s', l.pd, d, t, None, page)
  {
    hide Lookup;
  }

  /** The page and the table entered at last, the page first. */
  lemma EnteredPage(s1: Ram, l: Layout, d: nat, t: nat, f: nat, g: nat)
    requires Arranged(s1, l) && d < 1024 && t < 1024 && !HasTable(s1, l.pd, d)
    requires InKernelPool(f) && !l.Fixed(f) && f in UsedFrames(s1, l.Tables())
    requires forall k: nat | k < 1024 && HasTable(s1, l.pd, k) :: TableOf(s1, l.pd, k) != f
    requires forall k: nat | k < 1024 :: EntryAt(s1, f, k) == 0
    requires InProcessPool(g) && g !in UsedFrames(s1, l.Pages())
    ensures var s' := MapPage(s1, l.Pages(), f, t, g)[1024 * l.pd + d := 4096 * f + 3];
      && Arranged(s', l) && FaultMapping(s1, s', l.pd, d, t, None, Some(g))
      && UsedFrames(s', l.Tables()) == UsedFrames(s1, l.Tables())
      && UsedFrames(s', l.Pages()) == UsedFrames(s1, l.Pages()) + {g}
      && HasTable(s', l.pd, d) && TableOf(s', l.pd, d) == f
  {
    hide UsedFrames, MapPage, EntryAt, Lookup;
    var e := s1[1024 * l.pd + d := 4096 * f + 3];
    EnteredKeeps(s1, l, d, f);
    NoTableNoPage(s1, l.pd, d, t);
    assert Lookup(e, l.pd, d, t).None?;
    PageKeeps(e, l, d, t, g);
    MapThenEnter(s1, l, d, t, f, g);
    var s' := MapPage(e, l.Pages(), f, t, g);
    assert EntryAt(s', l.pd, d) == EntryAt(e, l.pd, d);
  }

  /** A fault that needs a table, with a kernel frame for it. */
  lemma TableAndPage(s: Ram, l: Layout, d: nat, t: nat, f: nat) returns (page: Option<nat>)
    requires Arranged(s, l) && d < 1024 && t < 1024 && !HasTable(s, l.pd, d) && f in Free(s, l.Tables())
    requires Lookup(s, l.pd, d, t).None?
    ensures InKernelPool(f)
    ensures var s1 := ClearWords(SetBit(s, l.Tables(), f - KERNEL_START), f, 1024);
      page == (match LeastFree(s1, l.Pages(), 0) case Some(i) => Some(PROCESS_START + i) case None => None)
      && (page.Some? <==> |Free(s, l.Pages())| > 0)
      && (page.Some? ==> page.value in Free(s, l.Pages()) && InProcessPool(page.value))
      && var s' := if page.None? then s1
           else MapPage(s1, l.Pages(), f, t, page.value)[1024 * l.pd + d := 4096 * f + 3];
      && Arranged(s', l) && FaultMapping(s, s', l.pd, d, t, None, page)
      && UsedFrames(s', l.Pages()) == UsedFrames(s, l.Pages()) + (if page.Some? then {page.value} else {})
      && UsedFrames(s', l.Tables()) == UsedFrames(s, l.Tables()) + {f}
      && (if page.Some? then HasTable(s', l.pd, d) && TableOf(s', l.pd, d) == f else !HasTable(s', l.pd, d))
  {
    hide UsedFrames, SetBit, ClearWords, MapPage, EntryAt, LeastFree, Arranged, Lookup, Free, FaultMapping, SameLookups;
    ArrangedHandles(s, l, d);
    TableAdded(s, l, d, f);
    var s1 := ClearWords(SetBit(s, l.Tables(), f - KERNEL_START), f, 1024);
    LeastFreeIsFree(s, l.Pages());
    match LeastFree(s1, l.Pages(), 0)
    case None =>
      page := None;
      NothingMapped(s, l.pd, d, t);
      MappingAfterSame(s, s1, s1, l, d, t, page);
    case Some(i) =>
      page := Some(PROCESS_START + i);
      FreeIs(s, l.Pages(), page.value);
      EnteredPage(s1, l, d, t, f, page.value);
      MappingAfterSame(s, s1, MapPage(s1, l.Pages(), f, t, page.value)[1024 * l.pd + d := 4096 * f + 3], l, d, t, page);
  }

  /** What a fault at an unmapped page comes to, with the table frame and the page frame it took. The page
      is mapped exactly when a process frame is free, and a kernel frame too if a table is needed; then over
      the whole address space that page alone is mapped anew, to a frame that was free. */
  ghost predicate DirectEffect(s: Ram, l: Layout, d: nat, t: nat, effect: (Outcome, Ram),
                               table: Option<nat>, page: Option<nat>)
    requires l.Apart() && d < 1024
  {
    var (o, s') := effect;
    && Arranged(s', l) && FaultMapping(s, s', l.pd, d, t, None, page)
    && (table.Some? <==> !HasTable(s, l.pd, d) && |Free(s, l.Tables())| > 0)
    && (page.Some? <==> |Free(s, l.Pages())| > 0 && (HasTable(s, l.pd, d) || |Free(s, l.Tables())| > 0))
    && o == (if page.Some? then PageMapped
             else if HasTable(s, l.pd, d) || table.Some? then NoFrameForPage else NoFrameForTable)
    && (page.Some? ==> page.value in Free(s, l.Pages()))
    && UsedFrames(s', l.Pages()) == UsedFrames(s, l.Pages()) + (if page.Some? then {page.value} else {})
    && UsedFrames(s', l.Tables()) == UsedFrames(s, l.Tables()) + (if table.Some? then {table.value} else {})
    && (table.Some? ==> table.value in Free(s, l.Tables()))
    && (table.Some? && page.Some? ==> HasTable(s', l.pd, d) && TableOf(s', l.pd, d) == table.value)
    && (table.Some? && page.None? ==> !HasTable(s', l.pd, d))
  }

  lemma DirectCases(s: Ram, l: Layout, d: nat, t: nat, err: Word)
    requires l.Apart() && Handles(s, l.Pages(), l.pd, d) && t < 1024 && err % 2 == 0
    ensures var after, i := HandleFaultDirect(s, l.Tables(), l.Pages(), l.pd, d, t, err), LeastFree(s, l.Tables(), 0);
      && (HasTable(s, l.pd, d) ==> after == AddPage(s, l.Pages(), TableOf(s, l.pd, d), t))
      && (!HasTable(s, l.pd, d) && i.None? ==> after == (NoFrameForTable, s))
      && (!HasTable(s, l.pd, d) && i.Some? ==>
            var f := KERNEL_START + i.value;
            var s1 := ClearWords(SetBit(s, l.Tables(), i.value), f, 1024);
            after == match LeastFree(s1, l.Pages(), 0)
                     case None => (NoFrameForPage, s1)
                     case Some(j) =>
                       (PageMapped, MapPage(s1, l.Pages(), f, t, PROCESS_START + j)[1024 * l.pd + d := 4096 * f + 3]))
  {
    hide AddPage, LeastFree, SetBit, ClearWords, MapPage, HasTable, TableOf;
  }

  lemma DirectPresent(s: Ram, l: Layout, d: nat, t: nat, err: Word) returns (page: Option<nat>)
    requires Arranged(s, l) && d < 1024 && t < 1024 && err % 2 == 0 && Lookup(s, l.pd, d, t).None?
    requires Handles(s, l.Pages(), l.pd, d) && HasTable(s, l.pd, d)
    ensures DirectEffect(s, l, d, t, HandleFaultDirect(s, l.Tables(), l.Pages(), l.pd, d, t, err), None, page)
  {
    hide UsedFrames, Lookup, Free, FaultMapping, AddPage, HandleFaultDirect, HasTable, TableOf, LeastFree;
    hide FixedUsed, OwnTables, OwnPages;
    DirectCases(s, l, d, t, err);
    page := PageAdded(s, l, d, t);
  }

  lemma DirectRefused(s: Ram, l: Layout, d: nat, t: nat, err: Word)
    requires Arranged(s, l) && d < 1024 && t < 1024 && err % 2 == 0 && Lookup(s, l.pd, d, t).None?
    requires Handles(s, l.Pages(), l.pd, d) && !HasTable(s, l.pd, d) && LeastFree(s, l.Tables(), 0).None?
    ensures DirectEffect(s, l, d, t, HandleFaultDirect(s, l.Tables(), l.Pages(), l.pd, d, t, err), None, None)
  {
    hide UsedFrames, Lookup, Free, FaultMapping, AddPage, HandleFaultDirect, HasTable, TableOf, LeastFree;
    hide FixedUsed, OwnTables, OwnPages;
    DirectCases(s, l, d, t, err);
    LeastFreeIsFree(s, l.Tables());
    NothingMapped(s, l.pd, d, t);
  }

  lemma DirectTaken(s: Ram, l: Layout, d: nat, t: nat, err: Word) returns (page: Option<nat>)
    requires Arranged(s, l) && d < 1024 && t < 1024 && err % 2 == 0 && Lookup(s, l.pd, d, t).None?
    requires Handles(s, l.Pages(), l.pd, d) && !HasTable(s, l.pd, d) && LeastFree(s, l.Tables(), 0).Some?
    ensures DirectEffect(s, l, d, t, HandleFaultDirect(s, l.Tables(), l.Pages(), l.pd, d, t, err),
              Some(KERNEL_START + LeastFree(s, l.Tables(), 0).value), page)
  {
    hide UsedFrames, Lookup, Free, FaultMapping, AddPage, HandleFaultDirect, HasTable, TableOf, LeastFree;
    hide FixedUsed, OwnTables, OwnPages, SetBit, ClearWords, MapPage;
    DirectCases(s, l, d, t, err);
    LeastFreeIsFree(s, l.Tables());
    page := TableAndPage(s, l, d, t, KERNEL_START + LeastFree(s, l.Tables(), 0).value);
  }

  /** A not-present fault in this arrangement. No outcome disturbs it; but a table taken when no page frame
      is left stays marked used, and unused. */
  lemma DirectFaultTheorem(s: Ram, l: Layout, d: nat, t: nat, err: Word)
    returns (table: Option<nat>, page: Option<nat>)
    requires Arranged(s, l) && d < 1024 && t < 1024 && err % 2 == 0 && Lookup(s, l.pd, d, t).None?
    ensures Handles(s, l.Pages(), l.pd, d)
    ensures DirectEffect(s, l, d, t, HandleFaultDirect(s, l.Tables(), l.Pages(), l.pd, d, t, err), table, page)
  {
    hide Lookup, Arranged, HandleFaultDirect, HasTable, LeastFree, DirectEffect;
    table, page := None, None;
    ArrangedHandles(s, l, d);
    if HasTable(s, l.pd, d) {
      page := DirectPresent(s, l, d, t, err);
    } else if LeastFree(s, l.Tables(), 0).None? {
      DirectRefused(s, l, d, t, err);
    } else {
      table := Some(KERNEL_START + LeastFree(s, l.Tables(), 0).value);
      page := DirectTaken(s, l, d, t, err);
    }
  }

  lemma ArrangedHandles(s: Ram, l: Layout, d: nat)
    requires Arranged(s, l) && d < 1024
    ensures l.Apart() && Handles(s, l.Pages(), l.pd, d)
  {
    hide UsedFrames;
  }

  datatype Fault = Fault(d: nat, t: nat)

  /** The arrangement stands before, between and after the faults; a fault is raised only for a page
      that is not mapped. */
  ghost predicate ArrangedThroughout(s: Ram, l: Layout, faults: seq<Fault>)
    decreases |faults|
  {
    && Arranged(s, l)
    && (faults == [] ||
        var d, t := faults[0].d, faults[0].t;
        d < 1024 && t < 1024 && Lookup(s, l.pd, d, t).None? ==>
          && Handles(s, l.Pages(), l.pd, d)
          && ArrangedThroughout(HandleFaultDirect(s, l.Tables(), l.Pages(), l.pd, d, t, 0).1, l, faults[1..]))
  }

  /** Over every run of faults, tables and pages keep used frames of their own, and the first 4 MB stand. */
  lemma {:induction false} DirectRunsStayArranged(s: Ram, l: Layout, faults: seq<Fault>)
    requires Arranged(s, l)
    ensures ArrangedThroughout(s, l, faults)
    decreases |faults|
  {
    hide UsedFrames, Arranged, Lookup, HandleFaultDirect, FaultMapping, Free;
    if faults != [] {
      var d, t := faults[0].d, faults[0].t;
      ArrangedHandles(s, l, 0);
      if d < 1024 && t < 1024 && Lookup(s, l.pd, d, t).None? {
        var table, page := DirectFaultTheorem(s, l, d, t, 0);
        DirectRunsStayArranged(HandleFaultDirect(s, l.Tables(), l.Pages(), l.pd, d, t, 0).1, l, faults[1..]);
      }
    }
  }
}
