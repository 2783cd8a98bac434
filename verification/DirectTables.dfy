/** The earlier page table (P3) as an object that writes its tables at their physical addresses, which
    the identity map of the first 4 MB keeps usable once paging is on. */
module DirectTables {
  import opened Bits
  import opened PhysicalMemory
  import opened FramePools
  import opened FrameAllocator
  import opened FrameRuns
  import opened Paging
  import opened TableSetup
  import opened Faults
  import opened DirectPaging
  import opened DirectRuns

  /** Every address of the first 4 MB translates to itself. */
  lemma LowAddressesStand(s: Ram, l: Layout, va: Word)
    requires Arranged(s, l) && va < 0x40_0000
    ensures Translate(s, l.pd, va) == Some(va)
  {
    hide UsedFrames, Lookup, OwnTables, OwnPages;
    assert DirectoryIndex(va) == 0 && TableIndex(va) < 1024 && va == 4096 * TableIndex(va) + va % 4096;
  }

  /** Entries `0..1024` of a new first table, slot 0, and the other slots absent. */
  function BuildDirect(s: Ram, pd: nat, pt: nat): Ram
    requires pd < FRAMES && pt < FRAMES
  {
    FillAbsent(FillIdentity(s, pt, 1024)[1024 * pd := 4096 * pt + 3], pd, 1024)
  }

  lemma BuildDirectWord(s: Ram, pd: nat, pt: nat, w: nat)
    requires pd < FRAMES && pt < FRAMES && pd != pt && w < RAM_WORDS
    ensures BuildDirect(s, pd, pt)[w] ==
      if 1024 * pt <= w < 1024 * pt + 1024 then 4096 * (w - 1024 * pt) + 3
      else if w == 1024 * pd then 4096 * pt + 3
      else if 1024 * pd < w < 1024 * pd + 1024 then 2
      else s[w]
  {
    hide FillIdentity, FillAbsent;
    FillIdentityEffect(s, pt, 1024, w);
    FillAbsentEffect(FillIdentity(s, pt, 1024)[1024 * pd := 4096 * pt + 3], pd, 1024, w);
  }

  /** The tables the constructor builds are arranged, and map the first 4 MB to itself and nothing else. */
  lemma BuiltIsArranged(s: Ram, l: Layout, pt: nat)
    requires l.Apart() && InKernelPool(pt) && !l.Fixed(pt)
    requires FixedUsed(s, l) && pt in UsedFrames(s, l.Tables())
    ensures var s' := BuildDirect(s, l.pd, pt);
      && Arranged(s', l)
      && UsedFrames(s', l.Tables()) == UsedFrames(s, l.Tables())
      && UsedFrames(s', l.Pages()) == UsedFrames(s, l.Pages())
      && (forall d: nat, t: nat | d < 1024 && t < 1024 :: Lookup(s', l.pd, d, t) == if d == 0 then Some(t) else None)
  {
    hide UsedFrames, BuildDirect, Lookup, EntryAt;
    var s' := BuildDirect(s, l.pd, pt);
    forall w: nat | w < RAM_WORDS && w / 1024 !in {l.pd, pt} ensures s'[w] == s[w] {
      BuildDirectWord(s, l.pd, pt, w);
    }
    assert SameBut(s, s', {l.pd, pt});
    SameBitmap(s, s', l.Tables(), l.kernelInfo, {l.pd, pt});
    SameBitmap(s, s', l.Pages(), l.processInfo, {l.pd, pt});
    BuiltLookups(s, s', l.pd, pt);
  }

  lemma BuiltLookups(s: Ram, s': Ram, pd: nat, pt: nat)
    requires pd < FRAMES && pt < FRAMES && pd != pt && s' == BuildDirect(s, pd, pt)
    ensures forall d: nat, t: nat | d < 1024 && t < 1024 :: Lookup(s', pd, d, t) == if d == 0 then Some(t) else None
    ensures forall d: nat | d < 1024 :: HasTable(s', pd, d) <==> d == 0
    ensures TableOf(s', pd, 0) == pt
  {
    hide BuildDirect, EntryAt;
    forall d: nat | d < 1024 ensures EntryAt(s', pd, d) == if d == 0 then 4096 * pt + 3 else 2 {
      BuiltEntry(s, s', pd, pt, pd, d);
    }
    forall t: nat | t < 1024 ensures EntryAt(s', pt, t) == 4096 * t + 3 {
      BuiltEntry(s, s', pd, pt, pt, t);
    }
    EntryParts(pt, 3);
    AbsentParts();
    forall t: nat | t < 1024 ensures Present(4096 * t + 3) && FrameOf(4096 * t + 3) == t {
      EntryParts(t, 3);
    }
  }

  lemma BuiltEntry(s: Ram, s': Ram, pd: nat, pt: nat, f: nat, k: nat)
    requires pd < FRAMES && pt < FRAMES && pd != pt && s' == BuildDirect(s, pd, pt) && (f == pd || f == pt) && k < 1024
    ensures EntryAt(s', f, k) == if f == pt then 4096 * k + 3 else if k == 0 then 4096 * pt + 3 else 2
  {
    hide BuildDirect;
    BuildDirectWord(s, pd, pt, 1024 * f + k);
  }

  /** The constructor's two frames. */
  lemma TwoKernelFrames(s: Ram, l: Layout, pt: nat)
    requires InKernelPool(l.kernelInfo) && InKernelPool(l.processInfo) && l.kernelInfo != l.processInfo
    requires UsedFrames(s, l.Tables()) == {l.kernelInfo, l.processInfo}
    requires var (f, s1) := GetFrame(s, l.Tables()); f == l.pd && GetFrame(s1, l.Tables()).0 == pt
    ensures var s2 := GetFrame(GetFrame(s, l.Tables()).1, l.Tables()).1;
      && l.Apart() && InKernelPool(pt) && !l.Fixed(pt) && FixedUsed(s2, l)
      && UsedFrames(s2, l.Tables()) == {l.kernelInfo, l.processInfo, l.pd, pt}
      && UsedFrames(s2, l.Pages()) == UsedFrames(s, l.Pages())
  {
    hide UsedFrames, GetFrame, Frames;
    var k := l.Tables();
    var s1 := GetFrame(s, k).1;
    FewUsed(k, {l.kernelInfo, l.processInfo});
    GetFrameRefinesSet(s, k);
    FewUsed(k, {l.kernelInfo, l.processInfo, l.pd});
    GetFrameRefinesSet(s1, k);
    InFrames(k, l.pd);
    InFrames(k, pt);
    TakenElsewhere(s, k, l.Pages());
    TakenElsewhere(s1, k, l.Pages());
  }

  lemma InFrames(q: Pool, f: nat)
    ensures f in Frames(q) <==> q.Has(f)
  {
  }

  /** A handful of frames never fills the kernel pool. */
  lemma FewUsed(k: Pool, few: set<nat>)
    requires k == KernelPool(k.bitmap) && |few| <= 3
    ensures few != Frames(k)
  {
    if few == Frames(k) {
      var four := {KERNEL_START, KERNEL_START + 1, KERNEL_START + 2, KERNEL_START + 3};
      assert four <= few;
      Smaller(four, few);
      assert false;
    }
  }

  lemma {:induction false} Smaller(a: set<nat>, b: set<nat>)
    requires a <= b
    ensures |a| <= |b|
  {
    if a != {} {
      var x :| x in a;
      Smaller(a - {x}, b - {x});
    }
  }

  class DirectPageTable {
    const ram: array<Word>
    const kernelPool: FramePool
    const processPool: FramePool
    var pageDirectory: nat

    /** The pools keep their bitmaps in two frames of the kernel pool. */
    ghost predicate Wired()
      reads this, kernelPool, processPool
    {
      && ram.Length == RAM_WORDS && kernelPool.ram == ram && processPool.ram == ram
      && kernelPool.Valid() && processPool.Valid()
      && kernelPool.Desc() == Plan().Tables() && processPool.Desc() == Plan().Pages()
      && pageDirectory % 4096 == 0
    }

    ghost function Plan(): Layout
      reads this, kernelPool, processPool
    {
      Layout(kernelPool.frameBitmap / 4096, processPool.frameBitmap / 4096, pageDirectory / 4096)
    }

    ghost predicate Valid()
      reads this, kernelPool, processPool, ram
    {
      Wired() && Arranged(ram[..], Plan())
    }

    /** Builds the directory and its first table in two kernel frames. */
    constructor (ram: array<Word>, kernelPool: FramePool, processPool: FramePool)
      requires ram.Length == RAM_WORDS && kernelPool.ram == ram && processPool.ram == ram
      requires kernelPool.Valid() && processPool.Valid()
      requires kernelPool.Desc() == KernelPool(KERNEL_START * 4096)
      requires processPool.Desc() == ProcessPool(PROCESS_INFO * 4096)
      requires UsedFrames(ram[..], kernelPool.Desc()) == {KERNEL_START, PROCESS_INFO}
      modifies ram
      ensures this.ram == ram && this.kernelPool == kernelPool && this.processPool == processPool
      ensures Valid()
      ensures forall d: nat, t: nat | d < 1024 && t < 1024 ::
        Lookup(ram[..], Plan().pd, d, t) == if d == 0 then Some(t) else None
      ensures UsedFrames(ram[..], processPool.Desc()) == old(UsedFrames(ram[..], processPool.Desc()))
    {
      hide UsedFrames, FramePools.GetFrame, BuildDirect, Arranged, Lookup, FixedUsed;
      this.ram, this.kernelPool, this.processPool := ram, kernelPool, processPool;
      var directory := kernelPool.GetFrame();
      var table := kernelPool.GetFrame();
      pageDirectory := directory * 4096;
      new;
      ghost var l := Plan();
      TwoKernelFrames(old(ram[..]), l, table);
      BuiltIsArranged(ram[..], l, table);
      FillTables(ram, directory, table);
    }

    /** The constructor's loops, before paging is on. */
    static method FillTables(ram: array<Word>, pd: nat, pt: nat)
      requires ram.Length == RAM_WORDS && pd < FRAMES && pt < FRAMES && pd != pt
      modifies ram
      ensures ram[..] == BuildDirect(old(ram[..]), pd, pt)
    {
      hide FillIdentity, FillAbsent, BitOr;
      var addr := 0;
      var i := 0;
      FillIdentityStep(ram[..], pt, 0);
      while i < 1024
        invariant i <= 1024 && addr == 4096 * i
        invariant ram[..] == FillIdentity(old(ram[..]), pt, i)
      {
        OrFlags(i, 3);
        FillIdentityStep(old(ram[..]), pt, i);
        ram[1024 * pt + i] := BitOr(addr, 3);
        addr := addr + 4096;
        i := i + 1;
      }
      OrFlags(pt, 3);
      ram[1024 * pd] := 4096 * pt;
      ram[1024 * pd] := BitOr(ram[1024 * pd], 3);
      ghost var s := ram[..];
      assert s == FillIdentity(old(ram[..]), pt, 1024)[1024 * pd := (4096 * pt + 3) as Word];
      FillAbsentStart(s, pd);
      i := 1;
      while i < 1024
        invariant 1 <= i <= 1024
        invariant ram[..] == FillAbsent(s, pd, i)
      {
        FillAbsentStep(s, pd, i);
        ram[1024 * pd + i] := 2;
        i := i + 1;
      }
    }

    /** The fault handler, by direct physical access. */
    method HandleFault(a: Word, err: Word) returns (outcome: Outcome)
      requires Valid()
      requires err % 2 == 0 ==> Lookup(ram[..], Plan().pd, DirectoryIndex(a), TableIndex(a)).None?
      modifies ram
      ensures Valid()
      ensures Handles(old(ram[..]), processPool.Desc(), Plan().pd, DirectoryIndex(a))
      ensures (outcome, ram[..]) == HandleFaultDirect(old(ram[..]), kernelPool.Desc(), processPool.Desc(),
        Plan().pd, DirectoryIndex(a), TableIndex(a), err)
    {
      hide UsedFrames, Arranged, Lookup, HandleFaultDirect, FaultMapping, DirectoryIndex, TableIndex;
      var d, t := a / 0x40_0000, a / 4096 % 1024;
      ghost var l, s := Plan(), ram[..];
      IndexIs(a, d, t);
      ArrangedHandles(s, l, d);
      LowBit(err);
      if BitAnd(err, 1) != 0 {
        DirectIgnoresProtection(s, l, d, t, err);
        return ProtectionFault;
      }
      ghost var table, page := DirectFaultTheorem(s, l, d, t, err);
      outcome := ServeFault(d, t, err);
    }

    /** The handler's work for a page that is not present. */
    method ServeFault(d: nat, t: nat, err: Word) returns (outcome: Outcome)
      requires Wired() && Plan().Apart() && Handles(ram[..], processPool.Desc(), Plan().pd, d)
      requires d < 1024 && t < 1024 && err % 2 == 0
      modifies ram
      ensures (outcome, ram[..])
        == HandleFaultDirect(old(ram[..]), kernelPool.Desc(), processPool.Desc(), Plan().pd, d, t, err)
    {
      hide SetBit, ClearWords, BitOr, Used, UsedFrames;
      ghost var s, l := ram[..], Plan();
      var pd := pageDirectory / 4096;
      LowBit(ram[1024 * pd + d]);
      if BitAnd(ram[1024 * pd + d], 1) != 0 {
        outcome := AddPageAt(ram[1024 * pd + d] / 4096, t);
        return;
      }
      var f := kernelPool.GetFrame();
      if f * 4096 == 0 {
        return NoFrameForTable;
      }
      ClearTable(f);
      ghost var s1 := ram[..];
      outcome := AddPageAt(f, t);
      if outcome == PageMapped {
        ghost var s2 := ram[..];
        OrFlags(f, 3);
        ram[1024 * pd + d] := 4096 * f;
        ram[1024 * pd + d] := BitOr(ram[1024 * pd + d], 3);
        assert ram[..] == s2[1024 * pd + d := (4096 * f + 3) as Word];
      }
    }

    /** Takes a process frame and enters it in the table at frame `f`. */
    method AddPageAt(f: nat, t: nat) returns (outcome: Outcome)
      requires Wired() && f < FRAMES && t < 1024 && processPool.Desc() == ProcessPool(processPool.frameBitmap)
      modifies ram
      ensures (outcome, ram[..]) == AddPage(old(ram[..]), processPool.Desc(), f, t)
    {
      hide SetBit, BitOr, Used, UsedFrames;
      var g := processPool.GetFrame();
      if g * 4096 == 0 {
        return NoFrameForPage;
      }
      ghost var s := ram[..];
      OrFlags(g, 7);
      ram[1024 * f + t] := 4096 * g;
      ram[1024 * f + t] := BitOr(ram[1024 * f + t], 7);
      assert ram[..] == s[1024 * f + t := (4096 * g + 7) as Word];
      outcome := PageMapped;
    }

    /** The loop that empties a new table. */
    method ClearTable(f: nat)
      requires ram.Length == RAM_WORDS && f < FRAMES
      modifies ram
      ensures ram[..] == ClearWords(old(ram[..]), f, 1024)
    {
      hide ClearWords;
      ghost var s: Ram := ram[..];
      ClearWordsStep(s, f, 0);
      var i := 0;
      while i < 1024
        invariant i <= 1024 && ram[..] == ClearWords(s, f, i)
      {
        ClearWordsStep(s, f, i);
        ram[1024 * f + i] := 0;
        i := i + 1;
      }
    }
  }

  lemma IndexIs(a: Word, d: nat, t: nat)
    requires d == a / 0x40_0000 && t == a / 4096 % 1024
    ensures d == DirectoryIndex(a) && t == TableIndex(a) && d < 1024 && t < 1024
  {
  }

  lemma DirectIgnoresProtection(s: Ram, l: Layout, d: nat, t: nat, err: Word)
    requires l.Apart() && Handles(s, l.Pages(), l.pd, d) && t < 1024 && err % 2 == 1
    ensures HandleFaultDirect(s, l.Tables(), l.Pages(), l.pd, d, t, err) == (ProtectionFault, s)
  {
  }
}
