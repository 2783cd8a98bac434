/** The frame pools as objects over shared physical memory, and the way the kernel starts them. */
module FrameAllocator {
  import opened Bits
  import opened PhysicalMemory
  import opened FramePools

  /** The static members of FramePool. */
  class PoolStatics {
    var kernelBitmap: nat
    var kernelInfo: nat
    var processBitmap: nat
    var processInfo: nat

    constructor ()
      ensures kernelBitmap == kernelInfo == processBitmap == processInfo == 0
    {
      kernelBitmap, kernelInfo, processBitmap, processInfo := 0, 0, 0, 0;
    }

    function Value(): Statics
      reads this
    {
      Statics(kernelBitmap, kernelInfo, processBitmap, processInfo)
    }
  }

  function ReadByte(ram: array<Word>, k: nat): (b: Byte)
    requires ram.Length == RAM_WORDS && k < RAM_BYTES
    reads ram
    ensures b == LoadByte(ram[..], k)
  {
    ByteOf(ram[k / 4], k % 4)
  }

  method WriteByte(ram: array<Word>, k: nat, v: Byte)
    requires ram.Length == RAM_WORDS && k < RAM_BYTES
    modifies ram
    ensures ram[..] == StoreByte(old(ram[..]), k, v)
  {
    ram[k / 4] := WithByte(ram[k / 4], k % 4, v);
  }

  /** A comparison's value as an integer. */
  function Truth(b: bool): nat {
    if b then 1 else 0
  }

  /** The process constructor looks for a free kernel frame with `byte & (1 << c) == FALSE`;
      `==` binds tighter than `&`, so the test is of no bit at all and never succeeds. */
  lemma SearchTestNeverSucceeds(b: Byte, c: nat)
    ensures BitAnd(b, Truth(Pow2(c) == 0)) == 0
  {
    AndZero(b);
  }

  /** `bitmap[i/8] & (1 << (i % 8))`, as a truth value. */
  method TestBit(ram: array<Word>, ghost p: Pool, bitmap: nat, i: nat) returns (b: bool)
    requires ram.Length == RAM_WORDS && p.Fits() && i < p.n && p.bitmap == bitmap
    ensures b == Used(ram[..], p, i)
  {
    AndPow2(ReadByte(ram, bitmap + i / 8), i % 8);
    b := BitAnd(ReadByte(ram, bitmap + i / 8), Pow2(i % 8)) != 0;
  }

  /** `bitmap[i/8] | (1 << (i % 8))`, stored back. */
  method MarkUsed(ram: array<Word>, ghost p: Pool, bitmap: nat, i: nat)
    requires ram.Length == RAM_WORDS && p.Fits() && i < p.n && p.bitmap == bitmap
    modifies ram
    ensures ram[..] == SetBit(old(ram[..]), p, i)
  {
    var b := ReadByte(ram, bitmap + i / 8);
    ByteBitBounds(b, i % 8);
    WriteByte(ram, bitmap + i / 8, BitOr(b, Pow2(i % 8)));
  }

  /** `bitmap[i/8] & ~(1 << (i % 8))`, stored back. */
  method MarkFree(ram: array<Word>, ghost p: Pool, bitmap: nat, i: nat)
    requires ram.Length == RAM_WORDS && p.Fits() && i < p.n && p.bitmap == bitmap
    modifies ram
    ensures ram[..] == ClearBit(old(ram[..]), p, i)
  {
    var b := ReadByte(ram, bitmap + i / 8);
    ByteBitBounds(b, i % 8);
    WriteByte(ram, bitmap + i / 8, BitAndNot(b, Pow2(i % 8)));
  }

  /** The constructors' loop: every frame unused. */
  method ClearBitmap(ram: array<Word>, ghost p: Pool, bitmap: nat, n: nat)
    requires ram.Length == RAM_WORDS && p.Fits() && n == p.n && p.bitmap == bitmap
    modifies ram
    ensures ram[..] == ClearBits(old(ram[..]), p, n)
  {
    hide ClearBit;
    var i := 0;
    while i < n
      invariant i <= n && ram[..] == ClearBits(old(ram[..]), p, i)
    {
      MarkFree(ram, p, bitmap, i);
      i := i + 1;
    }
  }

  class FramePool {
    const ram: array<Word>
    const statics: PoolStatics
    var frameBitmap: nat
    var infoFrameNo: nat
    var nFrames: nat
    var baseFrameNo: nat

    function Desc(): Pool
      reads this
    {
      Pool(frameBitmap, baseFrameNo, nFrames)
    }

    ghost predicate Valid()
      reads this
    {
      ram.Length == RAM_WORDS && Desc().Fits() && baseFrameNo > 0
    }

    /** The byte address of the bitmap, and the information frame recorded: the kernel pool
        chooses its own first frame when asked to choose; the process pool's search for one
        tests `byte & (bit == 0)`, never matches, and leaves the bitmap at address 0. */
    static function InfoFrame(base: nat, info: nat): nat {
      if base == KERNEL_START && info == 0 then KERNEL_START else info
    }

    constructor (ram: array<Word>, statics: PoolStatics, base: nat, n: nat, info: nat)
      requires ram.Length == RAM_WORDS
      requires base == KERNEL_START || base == PROCESS_START
      requires Pool(InfoFrame(base, info) * 4096, base, n).Fits()
      requires base == KERNEL_START ==> KERNEL_START <= InfoFrame(base, info) < KERNEL_START + n
      modifies ram, statics
      ensures Valid() && this.ram == ram && this.statics == statics
      ensures Desc() == Pool(InfoFrame(base, info) * 4096, base, n)
      ensures infoFrameNo == InfoFrame(base, info)
      ensures base == KERNEL_START ==>
        && ram[..] == SetBit(ClearBits(old(ram[..]), Desc(), n), Desc(), infoFrameNo - KERNEL_START)
        && statics.Value() == old(statics.Value()).(kernelBitmap := frameBitmap, kernelInfo := infoFrameNo)
      ensures base == PROCESS_START ==>
        && ram[..] == ClearBits(old(ram[..]), Desc(), n)
        && statics.Value() == old(statics.Value()).(processBitmap := frameBitmap, processInfo := infoFrameNo)
    {
      hide SetBit, ClearBits;
      this.ram := ram;
      this.statics := statics;
      baseFrameNo, nFrames := base, n;
      var frame := info;
      if base == KERNEL_START && info == 0 {
        frame := KERNEL_START;
      }
      frameBitmap, infoFrameNo := frame * 4096, frame;
      new;
      ghost var p := Desc();
      ClearBitmap(ram, p, frameBitmap, n);
      if base == KERNEL_START {
        MarkUsed(ram, p, frameBitmap, frame - KERNEL_START);
        statics.kernelBitmap, statics.kernelInfo := frameBitmap, frame;
      } else {
        statics.processBitmap, statics.processInfo := frameBitmap, frame;
      }
    }

    method GetFrame() returns (f: nat)
      requires Valid()
      modifies ram
      ensures (f, ram[..]) == FramePools.GetFrame(old(ram[..]), Desc())
    {
      hide Used, SetBit;
      ghost var p := Desc();
      var i := 0;
      while i < nFrames
        invariant i <= nFrames && ram[..] == old(ram[..])
        invariant LeastFree(old(ram[..]), p, 0) == LeastFree(old(ram[..]), p, i)
      {
        var used := TestBit(ram, p, frameBitmap, i);
        if !used {
          MarkUsed(ram, p, frameBitmap, i);
          return i + baseFrameNo;
        }
        i := i + 1;
      }
      return 0;
    }

    /** Marks a range of frames used; false, and no change, when the range leaves the pool. */
    method MarkInaccessible(base: nat, n: nat) returns (ok: bool)
      requires Valid() && base + n <= 0x1_0000_0000
      modifies ram
      ensures ok <==> baseFrameNo <= base && (base + n - 1) % 0x1_0000_0000 < baseFrameNo + nFrames
      ensures !ok || n == 0 ==> ram[..] == old(ram[..])
      ensures ok && n > 0 ==>
        ram[..] == SetBits(old(ram[..]), Desc(), base - baseFrameNo, base - baseFrameNo + n)
    {
      hide SetBit;
      ghost var p := Desc();
      var endFrame := (base + n - 1) % 0x1_0000_0000;
      if baseFrameNo <= base && endFrame < baseFrameNo + nFrames {
        var first := base - baseFrameNo;
        var i := first;
        while i < first + n
          invariant first <= i <= first + n
          invariant n > 0 ==> first + n <= p.n && ram[..] == SetBits(old(ram[..]), p, first, i)
          invariant n == 0 ==> ram[..] == old(ram[..])
        {
          MarkUsed(ram, p, frameBitmap, i);
          i := i + 1;
        }
        ok := true;
      } else {
        ok := false;
      }
    }

    /** A static member of the class: it works on whichever pool the frame belongs to. */
    static method ReleaseFrame(ram: array<Word>, statics: PoolStatics, f: nat) returns (ok: bool)
      requires ram.Length == RAM_WORDS && statics.Value().Fits()
      modifies ram
      ensures ram[..] == FramePools.ReleaseFrame(old(ram[..]), statics.Value(), f)
      ensures ok <==> Releasable(statics.Value(), f)
    {
      ok := false;
      if f < HOLE_START || f >= HOLE_START + HOLE_SIZE {
        if PROCESS_START <= f < PROCESS_START + PROCESS_SIZE {
          if f != statics.processInfo {
            MarkFree(ram, ProcessPool(statics.processBitmap), statics.processBitmap, f - PROCESS_START);
            ok := true;
          }
        } else if KERNEL_START <= f < KERNEL_START + KERNEL_SIZE {
          if f != statics.kernelInfo {
            MarkFree(ram, KernelPool(statics.kernelBitmap), statics.kernelBitmap, f - KERNEL_START);
            ok := true;
          }
        }
      }
    }
  }
}
