/** What the kernel's boot sequence establishes about the frame pools, and what every later run of
    frame requests and releases keeps. */
module FrameRuns {
  import opened PhysicalMemory
  import opened FramePools
  import opened FrameAllocator

  const PROCESS_INFO: nat := 513

  function BootStatics(): Statics {
    Statics(KERNEL_START * 4096, KERNEL_START, PROCESS_INFO * 4096, PROCESS_INFO)
  }

  /** Frames that must never be handed out again after boot. */
  ghost function Reserved(st: Statics): set<nat> {
    {st.kernelInfo, st.processInfo} + HoleFrames()
  }

  // ----- boot -----

  method Boot(ram: array<Word>) returns (statics: PoolStatics, kernel: FramePool, process: FramePool)
    requires ram.Length == RAM_WORDS
    modifies ram
    ensures statics.Value() == BootStatics()
    ensures kernel.Valid() && kernel.ram == ram && kernel.Desc() == KernelPool(KERNEL_START * 4096)
    ensures process.Valid() && process.ram == ram && process.Desc() == ProcessPool(PROCESS_INFO * 4096)
    ensures UsedFrames(ram[..], kernel.Desc()) == {KERNEL_START, PROCESS_INFO}
    ensures UsedFrames(ram[..], process.Desc()) == HoleFrames()
  {
    hide SetBit, SetBits, ClearBits, UsedFrames, HoleFrames, FramePools.GetFrame;
    statics := new PoolStatics();
    kernel := new FramePool(ram, statics, KERNEL_START, KERNEL_SIZE, 0);
    ghost var k := kernel.Desc();
    KernelStart(old(ram[..]), k);
    ghost var s := ram[..];
    var info := kernel.GetFrame();
    FirstRequest(s, k);
    process := new FramePool(ram, statics, PROCESS_START, PROCESS_SIZE, info);
    var ok := process.MarkInaccessible(HOLE_START, HOLE_SIZE);
    ProcessStart(GetFrame(s, k).1, process.Desc(), k);
  }

  lemma KernelStart(s: Ram, k: Pool)
    requires k == KernelPool(KERNEL_START * 4096)
    ensures UsedFrames(SetBit(ClearBits(s, k, k.n), k, 0), k) == {KERNEL_START}
  {
    hide SetBit, ClearBits, Used, UsedFrames;
    var c := ClearBits(s, k, k.n);
    forall f: nat
      ensures f !in UsedFrames(c, k)
    {
      UsedFramesIn(c, k, f);
      if k.Has(f) { ClearBitsEffect(s, k, k.n, k, f - k.base); }
    }
    SetBitAddsFrame(c, k, 0, k);
  }

  /** The first frame after the bitmap's own is the process pool's information frame. */
  lemma FirstRequest(s: Ram, k: Pool)
    requires k == KernelPool(KERNEL_START * 4096)
    requires UsedFrames(s, k) == {KERNEL_START}
    ensures GetFrame(s, k).0 == PROCESS_INFO
    ensures UsedFrames(GetFrame(s, k).1, k) == {KERNEL_START, PROCESS_INFO}
  {
    hide GetFrame, UsedFrames, Frames, Used;
    GetFrameRefinesSet(s, k);
    FreeFrame(s, k, PROCESS_INFO);
    UsedFramesIn(s, k, PROCESS_INFO);
    FreeFrame(s, k, GetFrame(s, k).0);
    assert PROCESS_INFO in Frames(k) - UsedFrames(s, k);
  }

  lemma ProcessStart(s: Ram, p: Pool, k: Pool)
    requires p == ProcessPool(PROCESS_INFO * 4096) && k == KernelPool(KERNEL_START * 4096)
    requires UsedFrames(s, k) == {KERNEL_START, PROCESS_INFO}
    ensures var s' := SetBits(ClearBits(s, p, p.n), p, HOLE_START - p.base, HOLE_START - p.base + HOLE_SIZE);
      UsedFrames(s', p) == HoleFrames() && UsedFrames(s', k) == {KERNEL_START, PROCESS_INFO}
  {
    hide SetBits, ClearBits, Used, UsedFrames;
    var c := ClearBits(s, p, p.n);
    var s' := SetBits(c, p, HOLE_START - p.base, HOLE_START - p.base + HOLE_SIZE);
    forall f: nat
      ensures f in UsedFrames(s', p) <==> f in HoleFrames()
    {
      UsedFramesIn(s', p, f);
      if p.Has(f) {
        ClearBitsEffect(s, p, p.n, p, f - p.base);
        SetBitsEffect(c, p, HOLE_START - p.base, HOLE_START - p.base + HOLE_SIZE, p, f - p.base);
      }
    }
    forall f: nat
      ensures f in UsedFrames(s', k) <==> f in UsedFrames(s, k)
    {
      UsedFramesIn(s', k, f);
      UsedFramesIn(s, k, f);
      if k.Has(f) {
        ClearBitsEffect(s, p, p.n, k, f - k.base);
        SetBitsEffect(c, p, HOLE_START - p.base, HOLE_START - p.base + HOLE_SIZE, k, f - k.base);
      }
    }
  }

  // ----- runs -----

  datatype FrameOp = TakeKernel | TakeProcess | GiveBack(f: nat)

  /** The frame handed out, if any (0 for none), and the memory afterwards. */
  function FrameStep(s: Ram, st: Statics, op: FrameOp): (nat, Ram)
    requires st.Fits()
  {
    match op
    case TakeKernel => GetFrame(s, KernelPool(st.kernelBitmap))
    case TakeProcess => GetFrame(s, ProcessPool(st.processBitmap))
    case GiveBack(f) => (0, ReleaseFrame(s, st, f))
  }

  /** The used bits are exactly the reserved frames and the frames now out with clients. */
  ghost predicate Accounted(s: Ram, st: Statics, out: set<nat>) {
    && st.Apart()
    && InKernelPool(st.kernelInfo) && InKernelPool(st.processInfo)
    && Reserved(st) !! out
    && AllUsed(s, st) == Reserved(st) + out
  }

  ghost function OutAfter(s: Ram, st: Statics, out: set<nat>, op: FrameOp): set<nat>
    requires st.Fits()
  {
    var f := FrameStep(s, st, op).0;
    if op.GiveBack? then out - {op.f} else if f != 0 then out + {f} else out
  }

  lemma BootAccounted(s: Ram)
    requires UsedFrames(s, KernelPool(KERNEL_START * 4096)) == {KERNEL_START, PROCESS_INFO}
    requires UsedFrames(s, ProcessPool(PROCESS_INFO * 4096)) == HoleFrames()
    ensures Accounted(s, BootStatics(), {})
  {
  }

  lemma UsedInPool(s: Ram, st: Statics, p: Pool, f: nat)
    requires st.Fits() && (p == KernelPool(st.kernelBitmap) || p == ProcessPool(st.processBitmap))
    requires p.Has(f)
    ensures f in AllUsed(s, st) <==> f in UsedFrames(s, p)
  {
    hide Used;
    UsedFramesIn(s, KernelPool(st.kernelBitmap), f);
    UsedFramesIn(s, ProcessPool(st.processBitmap), f);
  }

  lemma TakeKeepsAccount(s: Ram, st: Statics, out: set<nat>, p: Pool)
    requires Accounted(s, st, out)
    requires p == KernelPool(st.kernelBitmap) || p == ProcessPool(st.processBitmap)
    ensures var (f, s') := GetFrame(s, p);
      && (f == 0 ==> s' == s)
      && (f == 0 <==> forall g | p.Has(g) :: g in Reserved(st) + out)
      && (f != 0 ==> p.Has(f) && f !in Reserved(st) + out && AllUsed(s', st) == AllUsed(s, st) + {f})
  {
    hide Used, SetBit, UsedFrames, Reserved;
    GetFrameRefinesSet(s, p);
    forall g | p.Has(g) ensures g in UsedFrames(s, p) <==> g in Reserved(st) + out {
      UsedInPool(s, st, p, g);
    }
    forall g | g in UsedFrames(s, p) ensures p.Has(g) {
      UsedFramesIn(s, p, g);
    }
    if LeastFree(s, p, 0).Some? {
      var i := LeastFree(s, p, 0).value;
      UsedInPool(s, st, p, p.base + i);
      SetBitAddsFrame(s, p, i, KernelPool(st.kernelBitmap));
      SetBitAddsFrame(s, p, i, ProcessPool(st.processBitmap));
    }
  }

  /** Giving back keeps every reserved frame marked, exactly when the frame given back is not the
      one that holds the process pool's bitmap: the release test looks for that frame in the wrong pool. */
  lemma GiveBackKeepsReserved(s: Ram, st: Statics, out: set<nat>, f: nat)
    requires Accounted(s, st, out) && st.kernelInfo != st.processInfo
    ensures Reserved(st) <= AllUsed(ReleaseFrame(s, st, f), st) <==> f != st.processInfo
  {
    hide ReleaseFrame, AllUsed;
    ReleaseRefinesSet(s, st, f);
    assert st.processInfo in Reserved(st);
    if f != st.processInfo && Releasable(st, f) {
      assert f !in Reserved(st);
    }
  }

  /** In bytes: a kernel frame handed out lies from 2 MB to 4 MB, a process frame from 4 MB to 32 MB, and no
      byte of either in the hole from 15 MB to 16 MB. */
  predicate InBounds(op: FrameOp, f: nat) {
    && (op.TakeKernel? ==> 0x20_0000 <= 4096 * f && 4096 * f + 4096 <= 0x40_0000)
    && (op.TakeProcess? ==> 0x40_0000 <= 4096 * f && 4096 * f + 4096 <= 0x200_0000)
    && (4096 * f + 4096 <= 0xF0_0000 || 0x100_0000 <= 4096 * f)
  }

  lemma StepKeepsAccount(s: Ram, st: Statics, out: set<nat>, op: FrameOp)
    requires Accounted(s, st, out) && op != GiveBack(st.processInfo)
    ensures var (f, s') := FrameStep(s, st, op);
      && (f != 0 ==> f !in Reserved(st) + out && InBounds(op, f))
      && (op.GiveBack? ==> AllUsed(s', st) == Reserved(st) + (out - {op.f}))
      && (!op.GiveBack? ==> AllUsed(s', st) == Reserved(st) + out + if f == 0 then {} else {f})
      && (op.TakeKernel? ==> (f == 0 <==> forall g | KernelPool(0).Has(g) :: g in Reserved(st) + out))
      && (op.TakeProcess? ==> (f == 0 <==> forall g | ProcessPool(0).Has(g) :: g in Reserved(st) + out))
      && Accounted(s', st, OutAfter(s, st, out, op))
  {
    hide GetFrame, ReleaseFrame, AllUsed;
    match op {
      case TakeKernel => TakeKeepsAccount(s, st, out, KernelPool(st.kernelBitmap));
      case TakeProcess => TakeKeepsAccount(s, st, out, ProcessPool(st.processBitmap));
      case GiveBack(f) =>
        ReleaseRefinesSet(s, st, f);
        if !Releasable(st, f) { NotReleasableNotOut(s, st, out, f); }
    }
  }

  lemma NotReleasableNotOut(s: Ram, st: Statics, out: set<nat>, f: nat)
    requires Accounted(s, st, out) && !Releasable(st, f)
    ensures f !in out
  {
    hide Used;
    if f in out {
      assert f in AllUsed(s, st);
      UsedFramesIn(s, KernelPool(st.kernelBitmap), f);
      UsedFramesIn(s, ProcessPool(st.processBitmap), f);
    }
  }

  /** Over the whole run, no step hands out a reserved frame or one that is already out, nor any byte
      outside its pool or in the hole. */
  ghost predicate HandsOutFreshFrames(s: Ram, st: Statics, out: set<nat>, ops: seq<FrameOp>)
    requires st.Fits()
    decreases |ops|
  {
    ops == [] ||
    (var (f, s') := FrameStep(s, st, ops[0]);
     && (f != 0 ==> f !in Reserved(st) + out && InBounds(ops[0], f))
     && HandsOutFreshFrames(s', st, OutAfter(s, st, out, ops[0]), ops[1..]))
  }

  lemma {:induction false} RunsHandOutFreshFrames(s: Ram, st: Statics, out: set<nat>, ops: seq<FrameOp>)
    requires Accounted(s, st, out)
    requires GiveBack(st.processInfo) !in ops
    ensures HandsOutFreshFrames(s, st, out, ops)
    decreases |ops|
  {
    hide FrameStep, OutAfter, Reserved, AllUsed;
    if ops != [] {
      StepKeepsAccount(s, st, out, ops[0]);
      RunsHandOutFreshFrames(FrameStep(s, st, ops[0]).1, st, OutAfter(s, st, out, ops[0]), ops[1..]);
    }
  }
}
