/** The memory manager's objects: the processor's view of memory, the page table it is set to, and
    the virtual-memory pools that page table serves. */
module MemoryManager {
  import opened Bits
  import opened PhysicalMemory
  import opened FramePools
  import opened FrameAllocator
  import opened Paging
  import opened Translation
  import opened Accounting
  import opened Faults
  import opened PageRelease
  import opened PagingWrites
  import opened PageRuns
  import opened RegionPages
  import opened TableSetup
  import opened SelfMapAccess
  import opened WindowFaults
  import opened Regions

  /** Memory, and the register that says which directory translates addresses. */
  class Machine {
    const ram: array<Word>
    var cr3: nat

    constructor (ram: array<Word>)
      ensures this.ram == ram && cr3 == 0
    {
      this.ram := ram;
      cr3 := 0;
    }

    ghost predicate Mapped(va: Word)
      reads this, ram
    {
      && ram.Length == RAM_WORDS && cr3 / 4096 < FRAMES && va % 4 == 0
      && Translate(ram[..], cr3 / 4096, va).Some?
      && Translate(ram[..], cr3 / 4096, va).value / 4 < RAM_WORDS
    }

    ghost function Target(va: Word): nat
      requires Mapped(va)
      reads this, ram
    {
      Translate(ram[..], cr3 / 4096, va).value / 4
    }

    /** A load through the page tables. */
    method Load(va: Word) returns (v: Word)
      requires Mapped(va)
      ensures v == ram[Target(va)]
    {
      var pa := Walk(va);
      v := ram[pa / 4];
    }

    /** A store through the page tables. */
    method Store(va: Word, v: Word)
      requires Mapped(va)
      modifies ram
      ensures ram[..] == old(ram[..])[old(Target(va)) := v]
    {
      var pa := Walk(va);
      ram[pa / 4] := v;
    }

    /** Whether a reference to the address would go through, or fault for want of a present entry. */
    method IsMapped(va: Word) returns (mapped: bool)
      requires ram.Length == RAM_WORDS && cr3 / 4096 < FRAMES
      ensures mapped <==> Translate(ram[..], cr3 / 4096, va).Some?
    {
      IndexBounds(va);
      var pde := ram[1024 * (cr3 / 4096) + DirectoryIndex(va)];
      mapped := Present(pde) && FrameOf(pde) < FRAMES
        && Present(ram[1024 * FrameOf(pde) + TableIndex(va)]);
    }

    /** The processor's table walk. */
    method Walk(va: Word) returns (pa: nat)
      requires Mapped(va)
      ensures pa == Translate(ram[..], cr3 / 4096, va).value
    {
      IndexBounds(va);
      var pde := ram[1024 * (cr3 / 4096) + DirectoryIndex(va)];
      var pte := ram[1024 * FrameOf(pde) + TableIndex(va)];
      pa := 4096 * FrameOf(pte) + va % 4096;
    }
  }

  lemma SameMapping(s: Ram, s': Ram, pd: nat, pt: nat)
    requires pd < FRAMES && InitialMapping(s, pd, pt)
    requires forall d: nat, t: nat | d < 1024 && t < 1024 :: Lookup(s', pd, d, t) == Lookup(s, pd, d, t)
    ensures InitialMapping(s', pd, pt)
  {
    hide Lookup;
  }

  lemma ProtectionIgnored(s: Ram, p: Pool, pd: nat, d: nat, t: nat, err: Word)
    requires Handles(s, p, pd, d) && t < 1024 && err % 2 == 1
    ensures Faults.HandleFault(s, p, pd, d, t, err) == (ProtectionFault, s)
  {
  }

  class PageTable {
    const machine: Machine
    const statics: PoolStatics
    const kernelPool: FramePool
    const processPool: FramePool
    var pageDirectory: nat
    const vmPools: array<VMPool?>
    var poolIndex: nat

    /** The pools and machine fit together. */
    ghost predicate Wired()
      reads this, machine, statics, kernelPool, processPool
    {
      && machine.ram.Length == RAM_WORDS
      && kernelPool.ram == machine.ram && processPool.ram == machine.ram
      && kernelPool.Valid() && processPool.Valid()
      && BitmapBelow(processPool.Desc())
      && kernelPool.Desc() == KernelPool(kernelPool.frameBitmap)
      && kernelPool.frameBitmap + KERNEL_SIZE / 8 <= 4096 * PROCESS_START
      && kernelPool.frameBitmap != processPool.frameBitmap
      && SameOrApart(kernelPool.Desc(), processPool.Desc())
      && ProcessPoolOf(statics.Value(), processPool.Desc())
      && statics.kernelBitmap == kernelPool.frameBitmap
      && vmPools.Length == 1024 && poolIndex <= 1024
    }

    function Root(): nat
      reads this
    {
      pageDirectory / 4096
    }

    ghost predicate Owned(owner: Owners)
      reads this, machine, statics, kernelPool, processPool, machine.ram
    {
      && Wired() && pageDirectory % 4096 == 0
      && WellFormed(machine.ram[..], processPool.Desc(), Root(), owner)
    }

    ghost predicate Valid()
      reads this, machine, statics, kernelPool, processPool, machine.ram
    {
      exists owner: Owners :: Owned(owner)
    }

    constructor (machine: Machine, statics: PoolStatics, kernelPool: FramePool, processPool: FramePool)
      requires machine.ram.Length == RAM_WORDS
      requires kernelPool.ram == machine.ram && processPool.ram == machine.ram
      requires kernelPool.Valid() && processPool.Valid() && BitmapBelow(processPool.Desc())
      requires kernelPool.Desc() == KernelPool(kernelPool.frameBitmap)
      requires kernelPool.frameBitmap + KERNEL_SIZE / 8 <= 4096 * PROCESS_START
      requires kernelPool.frameBitmap != processPool.frameBitmap
      requires SameOrApart(kernelPool.Desc(), processPool.Desc())
      requires ProcessPoolOf(statics.Value(), processPool.Desc())
      requires statics.kernelBitmap == kernelPool.frameBitmap
      requires UsedFrames(machine.ram[..], processPool.Desc()) == HoleFrames()
      modifies machine.ram
      ensures this.machine == machine && this.statics == statics
      ensures this.kernelPool == kernelPool && this.processPool == processPool
      ensures Valid() && Root() < FRAMES && poolIndex == 0 && fresh(vmPools) && vmPools.Length == 1024
      ensures var s := machine.ram[..];
        && InitialMapping(s, Root(), TableOf(s, Root(), 0))
        && UsedFrames(s, processPool.Desc()) == HoleFrames() + {Root(), TableOf(s, Root(), 0)}
        && SetupWritesOnlyUsed(old(machine.ram[..]), s, kernelPool.Desc(), processPool.Desc())
    {
      hide WellFormed, UsedFrames, HoleFrames, InitialMapping, SameOrApart, BitmapBelow, ProcessPoolOf;
      hide FramePool.Valid, KernelPool, TableOf, InitialOwners, SetupWritesOnlyUsed;
      this.machine, this.statics := machine, statics;
      this.kernelPool, this.processPool := kernelPool, processPool;
      poolIndex := 0;
      vmPools := new VMPool?[1024](_ => null);
      pageDirectory := 0;
      new;
      var pd, pt := BuildInitial(machine.ram, kernelPool, processPool);
      pageDirectory := pd * 4096;
      assert Owned(InitialOwners(pd, pt));
    }

    /** The constructor's frames and tables. */
    static method BuildInitial(ram: array<Word>, kernelPool: FramePool, processPool: FramePool)
      returns (pd: nat, ghost pt: nat)
      requires ram.Length == RAM_WORDS && kernelPool.ram == ram && processPool.ram == ram
      requires kernelPool.Valid() && processPool.Valid() && BitmapBelow(processPool.Desc())
      requires kernelPool.Desc() == KernelPool(kernelPool.frameBitmap)
      requires kernelPool.frameBitmap + KERNEL_SIZE / 8 <= 4096 * PROCESS_START
      requires kernelPool.frameBitmap != processPool.frameBitmap
      requires SameOrApart(kernelPool.Desc(), processPool.Desc())
      requires UsedFrames(ram[..], processPool.Desc()) == HoleFrames()
      modifies ram
      ensures pd < FRAMES && WellFormed(ram[..], processPool.Desc(), pd, InitialOwners(pd, pt))
      ensures InitialMapping(ram[..], pd, pt) && TableOf(ram[..], pd, 0) == pt
      ensures UsedFrames(ram[..], processPool.Desc()) == HoleFrames() + {pd, pt}
      ensures SetupWritesOnlyUsed(old(ram[..]), ram[..], kernelPool.Desc(), processPool.Desc())
    {
      hide WellFormed, UsedFrames, HoleFrames, BuildTables, FramePools.GetFrame, InitialMapping, Used, SetBit, TableOf;
      hide SetupWritesOnlyUsed;
      ghost var p, k := processPool.Desc(), kernelPool.Desc();
      TwoFrames(ram[..], p);
      pd := processPool.GetFrame();
      var table := processPool.GetFrame();
      pt := table;
      TablesFromFrames(ram[..], p, pd, pt);
      FillTables(ram, pd, table);
      ghost var s := ram[..];
      KernelFrameTaken(s, k, p, pd, InitialOwners(pd, pt));
      var list := kernelPool.GetFrame();
      ConstructorWritesOnlyUsed(old(ram[..]), k, p, pd, pt);
      SameMapping(s, ram[..], pd, pt);
    }

    /** The constructor's loops, before paging is on: plain physical writes. */
    static method FillTables(ram: array<Word>, pd: nat, pt: nat)
      requires ram.Length == RAM_WORDS && pd < FRAMES && pt < FRAMES && pd != pt
      modifies ram
      ensures ram[..] == BuildTables(old(ram[..]), pd, pt)
    {
      hide FillIdentity, FillAbsent, BitOr;
      var addr := 0;
      var i := 0;
      FillIdentityStep(ram[..], pt, 0);
      while i < 1024
        invariant i <= 1024 && addr == 4096 * i
        invariant ram[..] == FillIdentity(old(ram[..]), pt, i)
      {
        OrFlags(i, 3);
        FillIdentityStep(old(ram[..]), pt, i);
        ram[1024 * pt + i] := BitOr(addr, 3);
        addr := addr + 4096;
        i := i + 1;
      }
      OrFlags(pt, 3);
      OrFlags(pd, 3);
      ram[1024 * pd] := 4096 * pt;
      ram[1024 * pd] := BitOr(ram[1024 * pd], 3);
      ghost var s := ram[..];
      assert s == FillIdentity(old(ram[..]), pt, 1024)[1024 * pd := (4096 * pt + 3) as Word];
      FillAbsentStart(s, pd);
      i := 1;
      while i < 1023
        invariant 1 <= i <= 1023
        invariant ram[..] == FillAbsent(s, pd, i)
      {
        FillAbsentStep(s, pd, i);
        ram[1024 * pd + i] := 2;
        i := i + 1;
      }
      ram[1024 * pd + 1023] := 4096 * pd;
      ram[1024 * pd + 1023] := BitOr(ram[1024 * pd + 1023], 3);
      assert ram[..] == FillAbsent(s, pd, 1023)[1024 * pd + 1023 := (4096 * pd + 3) as Word];
    }

    lemma StaticsFit()
      requires Valid()
      ensures statics.Value().Fits()
    {
      hide WellFormed;
    }

    /** A release that can be made is made, and keeps this table valid. */
    lemma ReleaseGoes(q: nat)
      requires Valid() && Root() < FRAMES && PageCanGo(machine.ram[..], processPool.Desc(), Root(), q)
      ensures var s, st, p := machine.ram[..], statics.Value(), processPool.Desc();
        && st.Fits() && SlotOf(q) % 1024 == SlotOf(q) && Ordinary(SlotOf(q)) && CanFree(s, SlotOf(q))
        && FreeKeeps(s, st, p, Root(), SlotOf(q), q % 1024, false)
        && FreePageFaulting(s, st, p, Root(), SlotOf(q), q % 1024, false)
           == Some(PageStep(s, st, p, Root(), Drop(SlotOf(q), q % 1024)))
    {
      hide WellFormed, HasTable, TableOf, UsedFrames, PageRelease.FreePage, Clean, FreeKeeps, Free, Faults.HandleFault;
      ghost var s, st, p, d := machine.ram[..], statics.Value(), processPool.Desc(), SlotOf(q);
      ghost var owner :| Owned(owner);
      CleanKeeps(s, st, p, Root(), owner, d, q % 1024);
      if HasTable(s, Root(), d) {
        PresentTableFrees(s, st, p, Root(), d, q % 1024);
      } else {
        CleanReleaseIsFault(s, st, p, Root(), owner, d, q % 1024);
      }
    }

    lemma OwnersExist()
      requires Valid()
      ensures exists owner: Owners :: WellFormed(machine.ram[..], processPool.Desc(), Root(), owner)
    {
      hide WellFormed, Wired;
      var owner :| Owned(owner);
    }

    /** load: make this the page table the processor uses. */
    method LoadDirectory()
      modifies machine`cr3
      ensures Loaded() && (old(Valid()) ==> Valid())
    {
      hide WellFormed;
      machine.cr3 := pageDirectory;
      assert forall owner: Owners :: old(Owned(owner)) ==> Owned(owner);
    }

    ghost predicate Loaded()
      reads this, machine
    {
      machine.cr3 == pageDirectory
    }

    /** Registers a pool; false, and no change, when the list is full. */
    method RegisterPool(pool: VMPool) returns (ok: bool)
      requires vmPools.Length == 1024 && poolIndex <= 1024
      modifies this`poolIndex, vmPools
      ensures ok <==> old(poolIndex) < 1024
      ensures ok ==> poolIndex == old(poolIndex) + 1 && vmPools[..] == old(vmPools[..])[old(poolIndex) := pool]
      ensures !ok ==> poolIndex == old(poolIndex) && vmPools[..] == old(vmPools[..])
      ensures old(Valid()) ==> Valid()
    {
      hide WellFormed;
      ok := poolIndex < 1024;
      if ok {
        vmPools[poolIndex] := pool;
        poolIndex := poolIndex + 1;
      }
      assert forall owner: Owners :: old(Owned(owner)) ==> Owned(owner);
    }

    /** Whether some registered pool has an allocated region holding the address. */
    method SomePoolAllows(a: nat) returns (found: bool)
      requires vmPools.Length == 1024 && poolIndex <= 1024
      ensures found <==> exists i | 0 <= i < poolIndex ::
        vmPools[i] != null && Legitimate(vmPools[i].regions[..], a)
    {
      var i := 0;
      while i < poolIndex
        invariant i <= poolIndex
        invariant forall j | 0 <= j < i :: vmPools[j] != null ==> !Legitimate(vmPools[j].regions[..], a)
      {
        if vmPools[i] != null {
          var legitimate := vmPools[i].IsLegitimate(a);
          if legitimate { return true; }
        }
        i := i + 1;
      }
      found := false;
    }

    /** The entry, in two stores through the window of its table: the frame's address, then the flags. */
    method SetEntryThroughWindow(d: nat, t: nat, g: nat, ghost f: nat)
      requires machine.ram.Length == RAM_WORDS && Loaded() && pageDirectory % 4096 == 0 && t < 1024 && g < FRAMES
      requires Window(machine.ram[..], Root(), d, f)
      requires f == Root() ==> t != 1023 && t != d
      modifies machine.ram
      ensures machine.ram[..] == old(machine.ram[..])[1024 * f + t := (4096 * g + 7) as Word]
    {
      hide Translate, SelfMap, HasTable, TableOf, EntryAt, BitOr;
      ghost var s, pd := machine.ram[..], Root();
      var va: Word := 0xFFC0_0000 + 4096 * d + 4 * t;
      StoreKeepsWindow(s, pd, d, f, t, 4096 * g);
      TableWindow(s, pd, d, t);
      machine.Store(va, 4096 * g);
      TableWindow(machine.ram[..], pd, d, t);
      var e := machine.Load(va);
      OrFlags(g, 7);
      machine.Store(va, BitOr(e, 7));
    }

    /** Takes a frame and enters it in table `d` through the window. */
    method AddPageThroughWindow(d: nat, t: nat, ghost f: nat) returns (outcome: Outcome)
      requires Wired() && Loaded() && pageDirectory % 4096 == 0 && t < 1024
      requires Window(machine.ram[..], Root(), d, f)
      requires f == Root() ==> t != 1023 && t != d
      modifies machine.ram
      ensures (outcome, machine.ram[..]) == AddPage(old(machine.ram[..]), processPool.Desc(), f, t)
    {
      hide Translate, SetBit, SelfMap, HasTable, TableOf, EntryAt, BitOr, Used;
      ghost var s, p, pd := machine.ram[..], processPool.Desc(), Root();
      var g := processPool.GetFrame();
      if g * 4096 == 0 {
        return NoFrameForPage;
      }
      BitKeepsWindow(s, p, pd, d, f, g - p.base);
      SetEntryThroughWindow(d, t, g, f);
      outcome := PageMapped;
    }

    /** Takes a frame for table `d`, enters it in the directory through the window, and empties it. */
    method AddTableThroughWindow(d: nat) returns (f: nat)
      requires Wired() && Loaded() && pageDirectory % 4096 == 0 && d < 1023
      requires InProcessPool(Root()) && SelfMap(machine.ram[..], Root())
      requires Root() in UsedFrames(machine.ram[..], processPool.Desc())
      modifies machine.ram
      ensures var p := processPool.Desc(); var s := old(machine.ram[..]);
        match LeastFree(s, p, 0)
        case None => f == 0 && machine.ram[..] == s
        case Some(i) =>
          && f == p.base + i && f != Root() && InProcessPool(f)
          && machine.ram[..] == InstallTable(s, p, Root(), d, f)
          && Window(machine.ram[..], Root(), d, f)
    {
      hide Translate, SetBit, SelfMap, HasTable, TableOf, EntryAt, BitOr, Used, ClearWords, UsedFrames, Window;
      ghost var s, p, pd := machine.ram[..], processPool.Desc(), Root();
      f := processPool.GetFrame();
      if f * 4096 == 0 {
        return;
      }
      UsedFramesIn(s, p, pd);
      BitKeepsSelfMap(s, p, pd, f - p.base);
      var va: Word := 0xFFFF_F000 + 4 * d;
      ghost var s1: Ram := machine.ram[..];
      DirectoryWindow(s1, pd, d);
      machine.Store(va, 4096 * f);
      DirectoryStoreKeepsSelfMap(s1, pd, d, 4096 * f);
      DirectoryWindow(machine.ram[..], pd, d);
      var e := machine.Load(va);
      OrFlags(f, 3);
      machine.Store(va, BitOr(e, 3));
      ghost var s2: Ram := s1[1024 * pd + d := (4096 * f + 3) as Word];
      assert machine.ram[..] == s2;
      ClearTableThroughWindow(d, f, s1);
    }

    /** The loop that empties a new table, one store through the window at a time. */
    method ClearTableThroughWindow(d: nat, ghost f: nat, ghost s1: Ram)
      requires Wired() && Loaded() && pageDirectory % 4096 == 0 && d < 1023
      requires InProcessPool(Root()) && InProcessPool(f) && f != Root() && SelfMap(s1, Root())
      requires machine.ram[..] == s1[1024 * Root() + d := (4096 * f + 3) as Word]
      modifies machine.ram
      ensures machine.ram[..] == ClearWords(old(machine.ram[..]), f, 1024)
      ensures Window(machine.ram[..], Root(), d, f)
    {
      hide Translate, SelfMap, HasTable, TableOf, EntryAt, ClearWords;
      ghost var pd := Root();
      ghost var s2: Ram := machine.ram[..];
      ClearWordsStep(s2, f, 0);
      var i := 0;
      while i < 1024
        invariant i <= 1024 && machine.ram[..] == ClearWords(s2, f, i)
      {
        ClearWordsStep(s2, f, i);
        NewTableOpensWindow(s1, pd, d, f, i);
        TableWindow(machine.ram[..], pd, d, i);
        machine.Store(0xFFC0_0000 + 4096 * d + 4 * i, 0);
        i := i + 1;
      }
      NewTableOpensWindow(s1, pd, d, f, 1024);
    }

    /** The page-fault handler. It reports an address that no pool allows, and carries on; its edits,
        all made through the self-map, are exactly those of the handler on physical memory. The
        processor reports a page as not present only when it is unmapped. The page table stays valid
        exactly when there is nothing to map, the address lies outside the first and last 4 MB, or the
        frame handed out next holds no present entry. */
    method HandleFault(a: Word, err: Word) returns (legitimate: bool, outcome: Outcome)
      requires Valid() && Loaded()
      requires err % 2 == 0 ==> Lookup(machine.ram[..], Root(), DirectoryIndex(a), TableIndex(a)).None?
      modifies machine.ram
      ensures legitimate <==> exists i | 0 <= i < poolIndex ::
        vmPools[i] != null && Legitimate(vmPools[i].regions[..], a)
      ensures Handles(old(machine.ram[..]), processPool.Desc(), Root(), DirectoryIndex(a))
      ensures (outcome, machine.ram[..])
        == Faults.HandleFault(old(machine.ram[..]), processPool.Desc(), Root(), DirectoryIndex(a), TableIndex(a), err)
      ensures Valid() <==>
        || err % 2 == 1 || Ordinary(DirectoryIndex(a)) || Clean(old(machine.ram[..]), processPool.Desc())
    {
      hide WellFormed, Lookup, UsedFrames, InstallTable, AddPage, HasTable, TableOf, DirectoryIndex, TableIndex;
      hide Faults.HandleFault, FaultMapping, Clean, Consistent;
      IndexBounds(a);
      ghost var s, p, pd := machine.ram[..], processPool.Desc(), Root();
      ghost var owner :| Owned(owner);
      var d, t := DirectoryIndex(a), TableIndex(a);
      SlotHandles(s, p, pd, owner, d);
      legitimate := SomePoolAllows(a);
      LowBit(err);
      if BitAnd(err, 1) != 0 {
        outcome := ProtectionFault;
        ProtectionIgnored(s, p, pd, d, t, err);
      } else {
        outcome := ServeFault(d, t, err, owner);
        FaultKeepsExactly(s, p, pd, owner, d, t, err);
        assert forall owner': Owners :: Owned(owner') <==> WellFormed(machine.ram[..], p, pd, owner');
      }
    }

    /** The handler's work for a page that is not present. */
    method ServeFault(d: nat, t: nat, err: Word, ghost owner: Owners) returns (outcome: Outcome)
      requires Owned(owner) && Loaded() && d < 1024 && t < 1024 && err % 2 == 0
      requires Lookup(machine.ram[..], Root(), d, t).None?
      modifies machine.ram
      ensures Handles(old(machine.ram[..]), processPool.Desc(), Root(), d)
      ensures (outcome, machine.ram[..])
        == Faults.HandleFault(old(machine.ram[..]), processPool.Desc(), Root(), d, t, err)
    {
      hide WellFormed, Lookup, Window, SelfMap, UsedFrames, InstallTable, AddPage, HasTable, TableOf, EntryAt;
      ghost var s, p, pd := machine.ram[..], processPool.Desc(), Root();
      AnySlot(s, p, pd, owner, d);
      SlotHandles(s, p, pd, owner, d);
      DirectoryWindow(s, pd, d);
      var pde := machine.Load(0xFFFF_F000 + 4 * d);
      LowBit(pde);
      PresentIs(s, pd, d);
      if BitAnd(pde, 1) != 0 {
        UnmappedNotRoot(s, p, pd, owner, d, t);
        outcome := AddPageThroughWindow(d, t, TableOf(s, pd, d));
      } else {
        RootUsed(s, p, pd, owner);
        var f := AddTableThroughWindow(d);
        if f == 0 {
          outcome := NoFrameForTable;
        } else {
          outcome := AddPageThroughWindow(d, t, f);
        }
      }
    }

    /** free_page as intended. It finishes when the page's table is there, or a frame for it is free;
        otherwise the fault it takes is repeated for ever. */
    method FreePage(page: nat) returns (done: bool)
      requires Valid() && Loaded()
      modifies machine.ram
      ensures Wired() && Loaded() && CanFree(old(machine.ram[..]), SlotOf(page) % 1024)
      ensures var s, d := old(machine.ram[..]), SlotOf(page) % 1024;
        match FreePageFaulting(s, statics.Value(), processPool.Desc(), Root(), d, page % 1024, false)
        case None => !done && machine.ram[..] == s
        case Some(s') => done && machine.ram[..] == s'
      ensures Ordinary(SlotOf(page) % 1024) ==>
        (Valid() <==> !done || FreeKeeps(old(machine.ram[..]), statics.Value(), processPool.Desc(), Root(),
           SlotOf(page) % 1024, page % 1024, false))
    {
      hide WellFormed, UsedFrames, HasTable, TableOf, FreePageFaulting, Faults.HandleFault, FreeKeeps, Consistent;
      ghost var s, p, pd, d := machine.ram[..], processPool.Desc(), Root(), SlotOf(page) % 1024;
      ghost var owner :| Owned(owner);
      done := ReleasePage(page, false, owner);
      if Ordinary(d) {
        FreePageKeepsExactly(s, statics.Value(), p, pd, owner, d, page % 1024, false);
        assert forall owner': Owners :: Owned(owner') <==> WellFormed(machine.ram[..], p, pd, owner');
      }
    }

    /** free_page as coded: the whole entry is passed to release_frame. */
    method FreePageAsCoded(page: nat) returns (done: bool)
      requires Valid() && Loaded()
      modifies machine.ram
      ensures Wired() && Loaded() && CanFree(old(machine.ram[..]), SlotOf(page) % 1024)
      ensures var s, d := old(machine.ram[..]), SlotOf(page) % 1024;
        match FreePageFaulting(s, statics.Value(), processPool.Desc(), Root(), d, page % 1024, true)
        case None => !done && machine.ram[..] == s
        case Some(s') => done && machine.ram[..] == s'
      ensures Ordinary(SlotOf(page) % 1024) ==>
        (Valid() <==> !done || FreeKeeps(old(machine.ram[..]), statics.Value(), processPool.Desc(), Root(),
           SlotOf(page) % 1024, page % 1024, true))
    {
      hide WellFormed, UsedFrames, HasTable, TableOf, FreePageFaulting, Faults.HandleFault, FreeKeeps, Consistent;
      ghost var s, p, pd, d := machine.ram[..], processPool.Desc(), Root(), SlotOf(page) % 1024;
      ghost var owner :| Owned(owner);
      done := ReleasePage(page, true, owner);
      if Ordinary(d) {
        FreePageKeepsExactly(s, statics.Value(), p, pd, owner, d, page % 1024, true);
        assert forall owner': Owners :: Owned(owner') <==> WellFormed(machine.ram[..], p, pd, owner');
      }
    }

    /** Every slot's entry, and the window's, can be followed. */
    ghost predicate CanFree(s: Ram, d: nat)
      reads this, statics, processPool
    {
      && statics.Value().Fits() && Handles(s, processPool.Desc(), Root(), WINDOW) && d < 1024
      && (HasTable(s, Root(), d) ==> TableOf(s, Root(), d) < FRAMES)
    }

    /** free_page: the reference to the entry's window, the fault it may take, and the release. */
    method ReleasePage(page: nat, asCoded: bool, ghost owner: Owners) returns (done: bool)
      requires Owned(owner) && Loaded()
      modifies machine.ram
      ensures Wired() && Loaded() && CanFree(old(machine.ram[..]), SlotOf(page) % 1024)
      ensures var s, d := old(machine.ram[..]), SlotOf(page) % 1024;
        match FreePageFaulting(s, statics.Value(), processPool.Desc(), Root(), d, page % 1024, asCoded)
        case None => !done && machine.ram[..] == s
        case Some(s') => done && machine.ram[..] == s'
    {
      hide WellFormed, Lookup, Window, SelfMap, UsedFrames, HasTable, TableOf, Translate, Faults.HandleFault;
      hide Free, EntryAt, FreePageAs, BitmapBelow, SameOrApart, FramePool.Valid;
      ghost var s, p, pd := machine.ram[..], processPool.Desc(), Root();
      var address := page * 4096 % 0x1_0000_0000;
      var d, t := address / 0x40_0000, address / 4096 % 1024;
      PageParts(page);
      AnySlot(s, p, pd, owner, d);
      SlotHandles(s, p, pd, owner, d);
      SlotHandles(s, p, pd, owner, WINDOW);
      TableWindow(s, pd, d, t);
      WindowParts(d, t);
      var va: Word := 0xFFC0_0000 + 4096 * d + 4 * t;
      var mapped := machine.IsMapped(va);
      if !mapped {
        WindowFault(s, p, pd, owner, d);
        var legitimate, outcome := HandleFault(va, 0);
        if outcome != PageMapped {
          return false;
        }
      }
      FreePageThroughWindow(d, t, TableOf(machine.ram[..], pd, d), asCoded);
      done := true;
    }

    /** The body of free_page: what is passed to release_frame is the frame named by the entry or,
        as coded, the entry itself. */
    method FreePageThroughWindow(d: nat, t: nat, ghost f: nat, asCoded: bool)
      requires Wired() && Loaded() && pageDirectory % 4096 == 0 && t < 1024
      requires Window(machine.ram[..], Root(), d, f)
      modifies machine.ram
      ensures var s := old(machine.ram[..]); var e := EntryAt(s, f, t);
        machine.ram[..] == FreePageAs(s, statics.Value(), f, t, if asCoded then e else FrameOf(e))
    {
      hide Translate, SelfMap, HasTable, TableOf, BitAnd, ClearBit;
      ghost var s, pd := machine.ram[..], Root();
      var va: Word := 0xFFC0_0000 + 4096 * d + 4 * t;
      TableWindow(s, pd, d, t);
      var e := machine.Load(va);
      LowBit(e);
      if BitAnd(e, 1) != 0 {
        ReleaseKeepsWindow(s, statics.Value(), processPool.Desc(), pd, d, f, if asCoded then e else FrameOf(e));
        var ok := FramePool.ReleaseFrame(machine.ram, statics, if asCoded then e else FrameOf(e));
        TableWindow(machine.ram[..], pd, d, t);
        machine.Store(va, 0);
      }
    }
  }

  class VMPool {
    var baseAddress: Word
    var size: Word
    const framePool: FramePool
    const pageTable: PageTable
    const regions: array<Region>
    var regionIndex: nat

    ghost predicate Shaped()
      reads this
    {
      regions.Length == MAX_REGIONS && regionIndex < MAX_REGIONS
    }

    function Value(): RegionTable
      reads this, regions
    {
      RegionTable(regions[..], regionIndex)
    }

    /** One available region, the whole pool; the other slots start empty. Registers with the page table. */
    constructor (baseAddress: Word, size: Word, framePool: FramePool, pageTable: PageTable)
      requires pageTable.vmPools.Length == 1024 && pageTable.poolIndex <= 1024
      modifies pageTable`poolIndex, pageTable.vmPools
      ensures this.baseAddress == baseAddress && this.size == size
      ensures this.framePool == framePool && this.pageTable == pageTable
      ensures Shaped() && fresh(regions) && Value() == Initial(Range(baseAddress, size))
      ensures old(pageTable.poolIndex) < 1024 ==>
        && pageTable.poolIndex == old(pageTable.poolIndex) + 1
        && pageTable.vmPools[..] == old(pageTable.vmPools[..])[old(pageTable.poolIndex) := this]
      ensures old(pageTable.Valid()) ==> pageTable.Valid()
    {
      hide PageTable.Valid;
      this.baseAddress, this.size := baseAddress, size;
      this.framePool, this.pageTable := framePool, pageTable;
      regionIndex := 0;
      regions := new Region[MAX_REGIONS](i => EMPTY);
      new;
      var ok := pageTable.RegisterPool(this);
      regions[0] := Region(baseAddress, size, true);
      assert regions[..] == [Region(baseAddress, size, true)] + seq(MAX_REGIONS - 1, _ => EMPTY);
    }

    /** The address of a new region of at least `size` bytes, or 0. */
    method Allocate(size: Word) returns (a: nat)
      requires Shaped()
      modifies regions, this`regionIndex
      ensures Shaped() && (a, Value()) == Regions.Allocate(old(Value()), RoundUp(size))
    {
      hide Split, ShiftRight, AllocateLast, RoundUp;
      var need := RoundUp(size);
      var i := FindFit(need);
      if i < regionIndex {
        a := regions[i].base;
        if regionIndex < MAX_REGIONS - 1 {
          CutRegion(i, need);
        } else {
          regions[i] := regions[i].(available := false);
        }
      } else {
        a := AllocateFromLast(need);
      }
    }

    /** Region `i` taken, its rest, if any, put after it as a region of its own. */
    method CutRegion(i: nat, need: Word)
      requires Shaped() && i < regionIndex < MAX_REGIONS - 1 && regions[i].Fits(need)
      modifies regions, this`regionIndex
      ensures Shaped() && Value() == if old(regions[i]).size > need then Split(old(Value()), i, need)
        else RegionTable(Take(old(Value()), i, need), old(regionIndex))
    {
      hide Split;
      ghost var was := Value();
      var rest := regions[i].size - need;
      regions[i] := regions[i].(size := need, available := false);
      if rest > 0 {
        OpenSlot(i, regionIndex + 1);
        regions[i + 1] := Region(regions[i].End(), rest, true);
        regionIndex := regionIndex + 1;
        assert Value() == Split(was, i, need) by { SplitIs(was, i, need); }
      }
    }

    /** The allocation as coded. Its guard on a full table tests `i`, which is below the last slot
        and so always passes: on a full table a cut leaves the last index one off the table. */
    method AllocateAsCoded(size: Word) returns (a: nat)
      requires Shaped()
      modifies regions, this`regionIndex
      ensures (a, Value()) == Regions.AllocateAsCoded(old(Value()), RoundUp(size))
    {
      hide ShiftRight, AllocateLast, RoundUp;
      var need := RoundUp(size);
      var i := FindFit(need);
      if i < regionIndex {
        a := regions[i].base;
        var rest := regions[i].size - need;
        regions[i] := regions[i].(size := need, available := false);
        if rest > 0 {
          OpenSlot(i, regionIndex);
          regions[i + 1] := Region(regions[regionIndex].End(), rest, true);
          regionIndex := regionIndex + 1;
        }
      } else {
        a := AllocateFromLast(need);
      }
    }

    /** Scans every slot of the table, in use or not. */
    method IsLegitimate(a: nat) returns (found: bool)
      ensures found == Legitimate(regions[..], a)
    {
      var i := 0;
      while i < regions.Length
        invariant i <= regions.Length
        invariant forall j | 0 <= j < i :: !regions[j].Answers(a)
      {
        if regions[i].Answers(a) {
          assert regions[..][i] == regions[i];
          return true;
        }
        i := i + 1;
      }
      found := false;
    }

    /** The search of the regions before the last. */
    method FindFit(need: Word) returns (i: nat)
      requires Shaped()
      ensures match FirstFit(Value(), need, 0) case Some(k) => i == k case None => i == regionIndex
    {
      i := 0;
      while i < regionIndex
        invariant i <= regionIndex
        invariant FirstFit(Value(), need, 0) == FirstFit(Value(), need, i)
      {
        if regions[i].available && regions[i].size >= need { return; }
        i := i + 1;
      }
    }

    /** The shift that makes room after slot `i`, from slot `m` down. */
    method OpenSlot(i: nat, m: nat)
      requires regions.Length == MAX_REGIONS && i <= m < MAX_REGIONS
      modifies regions
      ensures regions[..] == ShiftRight(old(regions[..]), i, m)
    {
      var j := m;
      while j > i
        invariant i <= j <= m
        invariant forall k | 0 <= k < MAX_REGIONS ::
          regions[k] == if j < k <= m then old(regions[k - 1]) else old(regions[k])
      {
        regions[j] := regions[j - 1];
        j := j - 1;
      }
    }

    /** What the last region can give. */
    method AllocateFromLast(need: Word) returns (a: nat)
      requires Shaped()
      modifies regions, this`regionIndex
      ensures Shaped() && (a, Value()) == AllocateLast(old(Value()), need)
    {
      if regions[regionIndex].available && regions[regionIndex].size >= need {
        a := regions[regionIndex].base;
        if regionIndex < MAX_REGIONS - 1 {
          regions[regionIndex + 1] := Region(Region(a, need, false).End(), regions[regionIndex].size - need, true);
          regions[regionIndex] := Region(a, need, false);
          assert regions[..] == SplitLast(old(Value()), need).regions;
          regionIndex := regionIndex + 1;
        } else {
          regions[regionIndex] := regions[regionIndex].(available := false);
        }
      } else {
        a := 0;
      }
    }

    /** release as intended: every page of the region is freed, then the region is marked available
        and the directory reloaded. The page table must have a table for every page of the region,
        since each is read through the window. */
    method Release(start: nat)
      requires Shaped() && pageTable.Valid() && pageTable.Loaded()
      requires Find(Value(), start, 0).Some? ==>
        var r := regions[Find(Value(), start, 0).value];
        && r.base % 4096 == 0 && r.size % 4096 == 0 && pageTable.Root() < FRAMES
        && CanFreePages(pageTable.machine.ram[..], pageTable.statics.Value(), pageTable.processPool.Desc(),
             pageTable.Root(), r.base / 4096, r.size / 4096)
      modifies regions, pageTable.machine.ram, pageTable.machine`cr3
      ensures Value() == Regions.Release(old(Value()), start)
      ensures pageTable.Valid() && pageTable.Loaded()
      ensures var s := old(pageTable.machine.ram[..]);
        match Find(old(Value()), start, 0)
        case None => pageTable.machine.ram[..] == s
        case Some(i) =>
          && pageTable.Root() < FRAMES && pageTable.statics.Value().Fits()
          && pageTable.machine.ram[..] == FreePages(s, pageTable.statics.Value(), pageTable.processPool.Desc(),
               pageTable.Root(),
               old(regions[i]).base / 4096, old(regions[i]).size / 4096)
    {
      hide WellFormed, BitmapBelow, SameOrApart, ProcessPoolOf, FreePages, PageTable.Valid, PageTable.Wired;
      hide CanFreePages;
      ghost var was := Value();
      var i := FindStart(start);
      if i < regionIndex {
        FreeRegionPages(regions[i].base / 4096, regions[i].size / 4096);
        regions[i] := regions[i].(available := true);
        pageTable.LoadDirectory();
      }
    }

    /** The search of release: regions before the last, taken or not. */
    method FindStart(start: nat) returns (i: nat)
      requires Shaped()
      ensures match Find(Value(), start, 0) case Some(k) => i == k case None => i == regionIndex
    {
      i := 0;
      while i < regionIndex && regions[i].base != start
        invariant i <= regionIndex
        invariant Find(Value(), start, 0) == Find(Value(), start, i)
      {
        i := i + 1;
      }
    }

    /** The loop of release: free_page on each page of the region. */
    method FreeRegionPages(first: nat, n: nat)
      requires pageTable.Valid() && pageTable.Loaded() && pageTable.Root() < FRAMES
      requires CanFreePages(pageTable.machine.ram[..], pageTable.statics.Value(), pageTable.processPool.Desc(),
                 pageTable.Root(), first, n)
      modifies pageTable.machine.ram
      ensures pageTable.Valid() && pageTable.Loaded() && pageTable.statics.Value().Fits()
      ensures pageTable.machine.ram[..] == FreePages(old(pageTable.machine.ram[..]),
        pageTable.statics.Value(), pageTable.processPool.Desc(), pageTable.Root(), first, n)
    {
      hide WellFormed, FreePageFaulting, BitmapBelow, SameOrApart, ProcessPoolOf, CanFreePages, FreeKeeps, PageCanGo;
      hide PageStep;
      pageTable.StaticsFit();
      ghost var s, pd, st := pageTable.machine.ram[..], pageTable.Root(), pageTable.statics.Value();
      ghost var p := pageTable.processPool.Desc();
      var k := 0;
      while k < n
        invariant k <= n && pageTable.Valid() && pageTable.Loaded() && st.Fits()
        invariant st == pageTable.statics.Value() && p == pageTable.processPool.Desc()
        invariant pageTable.machine.ram[..] == FreePages(s, st, p, pd, first, k)
      {
        PageCanGoAt(s, st, p, pd, first, n, k);
        pageTable.ReleaseGoes(first + k);
        var done := pageTable.FreePage(first + k);
        k := k + 1;
      }
    }
  }

  lemma SplitIs(t: RegionTable, i: nat, need: Word)
    requires t.Shaped() && i < t.last < MAX_REGIONS - 1 && need <= t.regions[i].size
    ensures Split(t, i, need) == RegionTable(
      ShiftRight(Take(t, i, need), i, t.last + 1)[
        i + 1 := Region(Take(t, i, need)[i].End(), t.regions[i].size - need, true)],
      t.last + 1)
  {
  }
}
