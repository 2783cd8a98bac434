/** The bitmap frame allocator: what its byte updates mean for the set of frames in use. */
module FramePools {
  import opened Bits
  import opened PhysicalMemory

  const KERNEL_START: nat := 512
  const KERNEL_SIZE: nat := 512
  const PROCESS_START: nat := 1024
  const PROCESS_SIZE: nat := 7168
  const HOLE_START: nat := 3840
  const HOLE_SIZE: nat := 256

  /** `n` frames from number `base`, tracked by the bitmap at byte address `bitmap`. */
  datatype Pool = Pool(bitmap: nat, base: nat, n: nat) {
    ghost predicate Fits() {
      bitmap + (n + 7) / 8 <= RAM_BYTES
    }

    predicate Has(f: nat) {
      base <= f < base + n
    }
  }

  function KernelPool(bitmap: nat): Pool {
    Pool(bitmap, KERNEL_START, KERNEL_SIZE)
  }

  function ProcessPool(bitmap: nat): Pool {
    Pool(bitmap, PROCESS_START, PROCESS_SIZE)
  }

  datatype Option<+T> = None | Some(value: T)

  // ----- single bits -----

  predicate Used(s: Ram, p: Pool, i: nat)
    requires p.Fits() && i < p.n
  {
    Bit(LoadByte(s, p.bitmap + i / 8), i % 8)
  }

  lemma ByteBitBounds(b: Byte, c: nat)
    requires c < 8
    ensures BitOr(b, Pow2(c)) < 256 && BitAndNot(b, Pow2(c)) < 256
  {
    assert Pow2(8) == 256 by { assert Pow2(4) == 16; }
    assert Pow2(c) < Pow2(8) by { Pow2Grows(c, 8); }
    OrBound(b, Pow2(c), 8);
    AndNotBound(b, Pow2(c));
  }

  lemma {:induction false} Pow2Grows(i: nat, j: nat)
    requires i < j
    ensures Pow2(i) < Pow2(j)
  {
    if i + 1 < j { Pow2Grows(i, j - 1); }
  }

  function SetBit(s: Ram, p: Pool, i: nat): Ram
    requires p.Fits() && i < p.n
  {
    var k := p.bitmap + i / 8;
    ByteBitBounds(LoadByte(s, k), i % 8);
    StoreByte(s, k, BitOr(LoadByte(s, k), Pow2(i % 8)))
  }

  function ClearBit(s: Ram, p: Pool, i: nat): Ram
    requires p.Fits() && i < p.n
  {
    var k := p.bitmap + i / 8;
    ByteBitBounds(LoadByte(s, k), i % 8);
    StoreByte(s, k, BitAndNot(LoadByte(s, k), Pow2(i % 8)))
  }

  /** The two pools keep their bits in the same place, or share no byte. */
  ghost predicate SameOrApart(p: Pool, q: Pool) {
    || p.bitmap == q.bitmap
    || p.bitmap + (p.n + 7) / 8 <= q.bitmap
    || q.bitmap + (q.n + 7) / 8 <= p.bitmap
  }

  lemma SetBitEffect(s: Ram, p: Pool, i: nat, q: Pool, j: nat)
    requires p.Fits() && q.Fits() && SameOrApart(p, q) && i < p.n && j < q.n
    ensures Used(SetBit(s, p, i), q, j) == (Used(s, q, j) || (p.bitmap == q.bitmap && i == j))
  {
    hide StoreByte, LoadByte, Bit, BitOr, Pow2;
    OrBit(LoadByte(s, p.bitmap + i / 8), Pow2(i % 8), j % 8);
    Pow2Bit(i % 8, j % 8);
    assert i == i / 8 * 8 + i % 8 && j == j / 8 * 8 + j % 8;
  }

  lemma ClearBitEffect(s: Ram, p: Pool, i: nat, q: Pool, j: nat)
    requires p.Fits() && q.Fits() && SameOrApart(p, q) && i < p.n && j < q.n
    ensures Used(ClearBit(s, p, i), q, j) == (Used(s, q, j) && !(p.bitmap == q.bitmap && i == j))
  {
    hide StoreByte, LoadByte, Bit, BitAndNot, Pow2;
    AndNotBit(LoadByte(s, p.bitmap + i / 8), Pow2(i % 8), j % 8);
    Pow2Bit(i % 8, j % 8);
    assert i == i / 8 * 8 + i % 8 && j == j / 8 * 8 + j % 8;
  }

  /** Bits `from..end` of the pool, each set in turn. */
  function SetBits(s: Ram, p: Pool, from: nat, end: nat): Ram
    requires p.Fits() && from <= end <= p.n
  {
    if from == end then s else SetBit(SetBits(s, p, from, end - 1), p, end - 1)
  }

  function ClearBits(s: Ram, p: Pool, end: nat): Ram
    requires p.Fits() && end <= p.n
  {
    if end == 0 then s else ClearBit(ClearBits(s, p, end - 1), p, end - 1)
  }

  lemma {:induction false} SetBitsEffect(s: Ram, p: Pool, from: nat, end: nat, q: Pool, j: nat)
    requires p.Fits() && q.Fits() && SameOrApart(p, q) && from <= end <= p.n && j < q.n
    ensures Used(SetBits(s, p, from, end), q, j) == (Used(s, q, j) || (p.bitmap == q.bitmap && from <= j < end))
    decreases end
  {
    hide SetBit, Used;
    if from < end {
      SetBitsEffect(s, p, from, end - 1, q, j);
      SetBitEffect(SetBits(s, p, from, end - 1), p, end - 1, q, j);
    }
  }

  lemma {:induction false} ClearBitsEffect(s: Ram, p: Pool, end: nat, q: Pool, j: nat)
    requires p.Fits() && q.Fits() && SameOrApart(p, q) && end <= p.n && j < q.n
    ensures Used(ClearBits(s, p, end), q, j) == (Used(s, q, j) && !(p.bitmap == q.bitmap && j < end))
  {
    hide ClearBit, Used;
    if end > 0 {
      ClearBitsEffect(s, p, end - 1, q, j);
      ClearBitEffect(ClearBits(s, p, end - 1), p, end - 1, q, j);
    }
  }

  // ----- the set of frames in use -----

  ghost function UsedFrames(s: Ram, p: Pool): set<nat>
    requires p.Fits()
  {
    set i: nat | i < p.n && Used(s, p, i) :: p.base + i
  }

  ghost function Frames(p: Pool): set<nat> {
    set f: nat | f < p.base + p.n && p.Has(f)
  }

  lemma UsedFramesIn(s: Ram, p: Pool, f: nat)
    requires p.Fits()
    ensures f in UsedFrames(s, p) <==> p.base <= f < p.base + p.n && Used(s, p, f - p.base)
  {
    if p.base <= f < p.base + p.n && Used(s, p, f - p.base) {
      assert f == p.base + (f - p.base);
    }
  }

  lemma SetBitAddsFrame(s: Ram, p: Pool, i: nat, q: Pool)
    requires p.Fits() && q.Fits() && SameOrApart(p, q) && i < p.n
    requires p.bitmap == q.bitmap ==> p == q
    ensures UsedFrames(SetBit(s, p, i), q) == UsedFrames(s, q) + if p == q then {p.base + i} else {}
  {
    hide SetBit, Used, UsedFrames;
    forall f: nat
      ensures f in UsedFrames(SetBit(s, p, i), q) <==> f in UsedFrames(s, q) + if p == q then {p.base + i} else {}
    {
      UsedFramesIn(s, q, f);
      UsedFramesIn(SetBit(s, p, i), q, f);
      if q.base <= f < q.base + q.n { SetBitEffect(s, p, i, q, f - q.base); }
    }
  }

  lemma ClearBitRemovesFrame(s: Ram, p: Pool, i: nat, q: Pool)
    requires p.Fits() && q.Fits() && SameOrApart(p, q) && i < p.n
    requires p.bitmap == q.bitmap ==> p == q
    ensures UsedFrames(ClearBit(s, p, i), q) == UsedFrames(s, q) - if p == q then {p.base + i} else {}
  {
    hide ClearBit, Used, UsedFrames;
    forall f: nat
      ensures f in UsedFrames(ClearBit(s, p, i), q) <==> f in UsedFrames(s, q) - if p == q then {p.base + i} else {}
    {
      UsedFramesIn(s, q, f);
      UsedFramesIn(ClearBit(s, p, i), q, f);
      if q.base <= f < q.base + q.n { ClearBitEffect(s, p, i, q, f - q.base); }
    }
  }

  // ----- get_frame -----

  function LeastFree(s: Ram, p: Pool, from: nat): (r: Option<nat>)
    requires p.Fits() && from <= p.n
    ensures r.Some? ==> from <= r.value < p.n && !Used(s, p, r.value)
    ensures r.Some? ==> forall i | from <= i < r.value :: Used(s, p, i)
    ensures r.None? ==> forall i | from <= i < p.n :: Used(s, p, i)
    decreases p.n - from
  {
    if from == p.n then None
    else if !Used(s, p, from) then Some(from)
    else LeastFree(s, p, from + 1)
  }

  /** The frame number handed out (0 for none) and the memory afterwards. */
  function GetFrame(s: Ram, p: Pool): (nat, Ram)
    requires p.Fits()
  {
    match LeastFree(s, p, 0)
    case None => (0, s)
    case Some(i) => (p.base + i, SetBit(s, p, i))
  }

  lemma FreeFrame(s: Ram, p: Pool, f: nat)
    requires p.Fits()
    ensures f in Frames(p) - UsedFrames(s, p) <==> p.Has(f) && !Used(s, p, f - p.base)
  {
    UsedFramesIn(s, p, f);
  }

  lemma NoneFreeMeansFull(s: Ram, p: Pool)
    requires p.Fits()
    ensures LeastFree(s, p, 0).None? <==> UsedFrames(s, p) == Frames(p)
  {
    hide Used;
    match LeastFree(s, p, 0) {
      case None =>
        forall f: nat
          ensures f in UsedFrames(s, p) <==> f in Frames(p)
        {
          UsedFramesIn(s, p, f);
        }
      case Some(i) =>
        FreeFrame(s, p, p.base + i);
    }
  }

  /** The bitmap search refines choosing the least unused frame of a set, and fails exactly when full. */
  lemma GetFrameRefinesSet(s: Ram, p: Pool)
    requires p.Fits() && p.base > 0
    ensures var (f, s') := GetFrame(s, p);
      && (f == 0 <==> UsedFrames(s, p) == Frames(p))
      && (f == 0 ==> s' == s)
      && (f != 0 ==> f in Frames(p) - UsedFrames(s, p)
                     && (forall g | g in Frames(p) - UsedFrames(s, p) :: f <= g)
                     && UsedFrames(s', p) == UsedFrames(s, p) + {f})
  {
    hide Used, SetBit, UsedFrames, Frames;
    NoneFreeMeansFull(s, p);
    if LeastFree(s, p, 0).Some? {
      var i := LeastFree(s, p, 0).value;
      SetBitAddsFrame(s, p, i, p);
      FreeFrame(s, p, p.base + i);
      forall g | g in Frames(p) - UsedFrames(s, p)
        ensures p.base + i <= g
      {
        FreeFrame(s, p, g);
      }
    }
  }

  /** A frame taken from one pool leaves the other pool's frames as they are. */
  lemma TakenElsewhere(s: Ram, k: Pool, p: Pool)
    requires k.Fits() && p.Fits() && SameOrApart(k, p) && k.bitmap != p.bitmap
    ensures UsedFrames(GetFrame(s, k).1, p) == UsedFrames(s, p)
  {
    hide UsedFrames, SetBit;
    if LeastFree(s, k, 0).Some? { SetBitAddsFrame(s, k, LeastFree(s, k, 0).value, p); }
  }

  // ----- release_frame -----

  /** The class-wide variables of the two pools. */
  datatype Statics = Statics(kernelBitmap: nat, kernelInfo: nat, processBitmap: nat, processInfo: nat) {
    ghost predicate Fits() {
      && KernelPool(kernelBitmap).Fits()
      && ProcessPool(processBitmap).Fits()
    }

    ghost predicate Apart() {
      && Fits()
      && kernelBitmap != processBitmap
      && SameOrApart(KernelPool(kernelBitmap), ProcessPool(processBitmap))
    }
  }

  predicate InHole(f: nat) {
    HOLE_START <= f < HOLE_START + HOLE_SIZE
  }

  ghost function HoleFrames(): set<nat> {
    set f: nat | f < HOLE_START + HOLE_SIZE && InHole(f)
  }

  predicate InProcessPool(f: nat) {
    PROCESS_START <= f < PROCESS_START + PROCESS_SIZE
  }

  predicate InKernelPool(f: nat) {
    KERNEL_START <= f < KERNEL_START + KERNEL_SIZE
  }

  /** A release is refused in the hole, outside both pools, and for a pool's own information frame. */
  function ReleaseFrame(s: Ram, st: Statics, f: nat): Ram
    requires st.Fits()
  {
    if InHole(f) then s
    else if InProcessPool(f) then
      if f == st.processInfo then s else ClearBit(s, ProcessPool(st.processBitmap), f - PROCESS_START)
    else if InKernelPool(f) then
      if f == st.kernelInfo then s else ClearBit(s, KernelPool(st.kernelBitmap), f - KERNEL_START)
    else s
  }

  ghost function AllUsed(s: Ram, st: Statics): set<nat>
    requires st.Fits()
  {
    UsedFrames(s, KernelPool(st.kernelBitmap)) + UsedFrames(s, ProcessPool(st.processBitmap))
  }

  ghost predicate Releasable(st: Statics, f: nat) {
    && (InProcessPool(f) || InKernelPool(f))
    && !InHole(f)
    && f != (if InProcessPool(f) then st.processInfo else st.kernelInfo)
  }

  lemma ReleaseRefinesSet(s: Ram, st: Statics, f: nat)
    requires st.Apart()
    ensures AllUsed(ReleaseFrame(s, st, f), st) == AllUsed(s, st) - if Releasable(st, f) then {f} else {}
  {
    var k, p := KernelPool(st.kernelBitmap), ProcessPool(st.processBitmap);
    hide ClearBit, Used;
    forall g: nat
      ensures p.Has(g) ==> g !in UsedFrames(s, k)
      ensures k.Has(g) ==> g !in UsedFrames(s, p)
    {
      UsedFramesIn(s, p, g);
      UsedFramesIn(s, k, g);
    }
    if Releasable(st, f) {
      if InProcessPool(f) {
        ClearBitRemovesFrame(s, p, f - PROCESS_START, p);
        ClearBitRemovesFrame(s, p, f - PROCESS_START, k);
      } else {
        ClearBitRemovesFrame(s, k, f - KERNEL_START, p);
        ClearBitRemovesFrame(s, k, f - KERNEL_START, k);
      }
    }
  }

  // ----- words a bitmap operation can touch -----

  ghost predicate OnlyBitmapChanged(s: Ram, s': Ram, p: Pool) {
    forall w: nat | w < RAM_WORDS && (4 * w + 3 < p.bitmap || p.bitmap + (p.n + 7) / 8 <= 4 * w) :: s'[w] == s[w]
  }

  lemma SetBitStaysInBitmap(s: Ram, p: Pool, i: nat)
    requires p.Fits() && i < p.n
    ensures OnlyBitmapChanged(s, SetBit(s, p, i), p)
  {
    var k := p.bitmap + i / 8;
    assert 4 * (k / 4) <= k < p.bitmap + (p.n + 7) / 8;
  }

  lemma ClearBitStaysInBitmap(s: Ram, p: Pool, i: nat)
    requires p.Fits() && i < p.n
    ensures OnlyBitmapChanged(s, ClearBit(s, p, i), p)
  {
    var k := p.bitmap + i / 8;
    assert 4 * (k / 4) <= k < p.bitmap + (p.n + 7) / 8;
  }

  lemma UsedDependsOnBitmap(s: Ram, s': Ram, p: Pool)
    requires p.Fits()
    requires forall w: nat | w < RAM_WORDS && p.bitmap <= 4 * w + 3 && 4 * w < p.bitmap + (p.n + 7) / 8 :: s'[w] == s[w]
    ensures forall i: nat | i < p.n :: Used(s', p, i) == Used(s, p, i)
    ensures UsedFrames(s', p) == UsedFrames(s, p)
  {
    forall i: nat | i < p.n
      ensures Used(s', p, i) == Used(s, p, i)
    {
      var k := p.bitmap + i / 8;
      assert p.bitmap <= 4 * (k / 4) + 3 && 4 * (k / 4) < p.bitmap + (p.n + 7) / 8;
    }
  }
}
