/** The order in which the kernel sets up memory: frame pools, page table, paging, two pools. */
module KernelBoot {
  import opened PhysicalMemory
  import opened FramePools
  import opened FrameAllocator
  import opened FrameRuns
  import opened Paging
  import opened PageRelease
  import opened TableSetup
  import opened Regions
  import opened MemoryManager
  import opened MemoryRuns

  const CODE_POOL := Range(0x2000_0000, 0x1000_0000)
  const HEAP_POOL := Range(0x4000_0000, 0x1000_0000)

  /** The frame pools, the page table and the switch to it. */
  method BootPaging(ram: array<Word>) returns (table: PageTable)
    requires ram.Length == RAM_WORDS
    modifies ram
    ensures table.Valid() && table.Loaded() && table.machine.ram == ram && table.Root() < FRAMES
    ensures fresh(table) && table.poolIndex == 0 && fresh(table.vmPools) && table.vmPools.Length == 1024
    ensures InitialMapping(ram[..], table.Root(), TableOf(ram[..], table.Root(), 0))
  {
    hide UsedFrames, HoleFrames, InitialMapping, WellFormed, TableOf, PageTable.Valid;
    hide BitmapBelow, ProcessPoolOf, SameOrApart;
    var statics, kernel, process := Boot(ram);
    BootPools(statics.Value(), kernel.Desc(), process.Desc());
    var machine := new Machine(ram);
    table := new PageTable(machine, statics, kernel, process);
    table.LoadDirectory();
  }

  /** After boot the page table is valid and loaded, only the first 4 MB and the self-map are mapped,
      and each pool is one available region of its own range, with nothing of it mapped. */
  method BootMemory(ram: array<Word>) returns (table: PageTable, code: VMPool, heap: VMPool)
    requires ram.Length == RAM_WORDS
    modifies ram
    ensures table.Valid() && table.Loaded() && table.machine.ram == ram && table.Root() < FRAMES
    ensures InitialMapping(ram[..], table.Root(), TableOf(ram[..], table.Root(), 0))
    ensures table.poolIndex == 2 && table.vmPools[..2] == [code, heap]
    ensures code.Shaped() && code.pageTable == table && code.Value() == Initial(CODE_POOL)
    ensures heap.Shaped() && heap.pageTable == table && heap.Value() == Initial(HEAP_POOL)
    ensures Joined(ram[..], code.Value(), CODE_POOL, table.processPool.Desc(), table.Root())
    ensures Joined(ram[..], heap.Value(), HEAP_POOL, table.processPool.Desc(), table.Root())
  {
    hide InitialMapping, WellFormed, TableOf, Initial, Joined, PageTable.Valid;
    table := BootPaging(ram);
    code := new VMPool(0x2000_0000, 0x1000_0000, table.processPool, table);
    heap := new VMPool(0x4000_0000, 0x1000_0000, table.processPool, table);
    table.OwnersExist();
    BootJoins(ram[..], CODE_POOL, table.processPool.Desc(), table.Root());
    BootJoins(ram[..], HEAP_POOL, table.processPool.Desc(), table.Root());
  }

  lemma BootJoins(s: Ram, r: Range, p: Pool, pd: nat)
    requires exists owner: Owners :: WellFormed(s, p, pd, owner)
    requires pd < FRAMES && InitialMapping(s, pd, TableOf(s, pd, 0)) && Inside(r)
    ensures Joined(s, Initial(r), r, p, pd)
  {
    hide WellFormed, TableOf, Lookup, Joined, Inside;
    var owner: Owners :| WellFormed(s, p, pd, owner);
    NewPoolJoins(s, r, p, pd, owner);
  }

  lemma BootPools(st: Statics, k: Pool, p: Pool)
    requires st == BootStatics() && k == KernelPool(KERNEL_START * 4096) && p == ProcessPool(PROCESS_INFO * 4096)
    ensures BitmapBelow(p) && ProcessPoolOf(st, p) && SameOrApart(k, p)
  {
  }
}
