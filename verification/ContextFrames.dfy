/** What a context switch leaves on the stack of the thread it leaves, and takes from the stack of
    the thread it enters. Memory is a sequence of words; a word address is a byte address over 4. */
module ContextFrames {
  import opened Bits
  import opened PhysicalMemory

  const KERNEL_CS: Word := 8
  const KERNEL_DS: Word := 16

  datatype Regs = Regs(
    gs: Word, fs: Word, es: Word, ds: Word,
    edi: Word, esi: Word, ebp: Word, ebx: Word, edx: Word, ecx: Word, eax: Word,
    eip: Word, cs: Word, eflags: Word, esp: Word)

  /** The words a saved thread's stack holds, lowest address first: the order of the REGS structure. */
  function FrameWords(r: Regs, skipped: Word): seq<Word> {
    [r.gs, r.fs, r.es, r.ds, r.edi, r.esi, r.ebp, skipped, r.ebx, r.edx, r.ecx, r.eax, 0, 0, r.eip, r.cs, r.eflags]
  }

  /** The registers after popping a frame that starts at word `w`. */
  function RegsAt(m: seq<Word>, w: nat): Regs
    requires w + 17 <= |m| <= 0x4000_0000 && 4 * (w + 17) < 0x1_0000_0000
  {
    Regs(m[w], m[w + 1], m[w + 2], m[w + 3], m[w + 4], m[w + 5], m[w + 6],
         m[w + 8], m[w + 9], m[w + 10], m[w + 11], m[w + 14], m[w + 15], m[w + 16], 4 * (w + 17))
  }

  /** `vs` written from word `w` on. */
  function Stored(m: seq<Word>, w: nat, vs: seq<Word>): (m': seq<Word>)
    requires w + |vs| <= |m|
    ensures |m'| == |m|
    ensures forall k | 0 <= k < |m| :: m'[k] == if w <= k < w + |vs| then vs[k - w] else m[k]
  {
    m[..w] + vs + m[w + |vs|..]
  }

  /** One push below what is already stored. */
  lemma PushStored(m: seq<Word>, w: nat, vs: seq<Word>, v: Word)
    requires 0 < w && w + |vs| <= |m|
    ensures Stored(m, w, vs)[w - 1 := v] == Stored(m, w - 1, [v] + vs)
  {
  }

  lemma NothingStored(m: seq<Word>, w: nat)
    requires w <= |m|
    ensures Stored(m, w, []) == m
  {
  }

  /** Reading back a frame gives the registers it was made from. */
  lemma FrameRoundTrip(m: seq<Word>, w: nat, r: Regs, skipped: Word)
    requires w + 17 <= |m| <= 0x4000_0000 && r.esp == 4 * (w + 17)
    ensures RegsAt(Stored(m, w, FrameWords(r, skipped)), w) == r
  {
    hide Stored;
    var m' := Stored(m, w, FrameWords(r, skipped));
    assert forall k | 0 <= k < 17 :: m'[w + k] == FrameWords(r, skipped)[k];
    assert m'[w] == m'[w + 0];
  }

  /** The arithmetic status flags, which ordinary instructions overwrite: CF, PF, AF, ZF, SF, OF. */
  const STATUS: nat := 0x8D5

  /** Only status flags differ: every other bit, the interrupt flag (bit 9) among them, is the same. */
  ghost predicate KeepsControl(flags: Word, before: Word) {
    forall b: nat | b !in {0, 2, 4, 6, 7, 11} :: Bit(flags, b) == Bit(before, b)
  }

  /** EFLAGS after an arithmetic instruction whose status is `status`. */
  function WithStatus(eflags: Word, status: Word): Word {
    FlagsBound(eflags, status);
    BitOr(BitAndNot(eflags, STATUS), BitAnd(status, STATUS))
  }

  lemma FlagsBound(eflags: Word, status: Word)
    ensures BitOr(BitAndNot(eflags, STATUS), BitAnd(status, STATUS)) < 0x1_0000_0000
  {
    hide BitOr, BitAnd, BitAndNot;
    AndNotBound(eflags, STATUS);
    AndBound(status, STATUS);
    Pow32();
    OrBound(BitAndNot(eflags, STATUS), BitAnd(status, STATUS), 32);
  }

  lemma {:induction false} AndBound(x: nat, y: nat)
    ensures BitAnd(x, y) <= x
  {
    if x + y > 0 { AndBound(x / 2, y / 2); }
  }

  lemma Pow32()
    ensures Pow2(32) == 0x1_0000_0000
  {
    assert Pow2(8) == 256;
    assert Pow2(16) == 65536;
    assert Pow2(24) == 0x100_0000;
  }

  /** Arithmetic sets the six status flags and leaves every other flag as it was. */
  lemma StatusKeepsControl(eflags: Word, status: Word)
    ensures forall b: nat ::
      Bit(WithStatus(eflags, status), b) == Bit(if b in {0, 2, 4, 6, 7, 11} then status else eflags, b)
    ensures KeepsControl(WithStatus(eflags, status), eflags)
  {
    hide BitOr, BitAnd, BitAndNot, Bit;
    forall b: nat
      ensures Bit(WithStatus(eflags, status), b) == Bit(if b in {0, 2, 4, 6, 7, 11} then status else eflags, b)
    {
      OrBit(BitAndNot(eflags, STATUS), BitAnd(status, STATUS), b);
      AndNotBit(eflags, STATUS, b);
      AndBit(status, STATUS, b);
      StatusBits(b);
    }
  }

  lemma StatusBits(b: nat)
    ensures Bit(STATUS, b) <==> b in {0, 2, 4, 6, 7, 11}
  {
    hide Bit;
    if b < 4 {
      DigitBits(0x8D5, b);
    } else {
      NextDigit(0x8D5, b);
      if b < 8 {
        DigitBits(0x8D, b - 4);
      } else {
        NextDigit(0x8D, b - 4);
        if b < 12 {
          DigitBits(0x8, b - 8);
        } else {
          NextDigit(0x8, b - 8);
          ZeroBit(b - 12);
        }
      }
    }
  }

  // ----- the switch as a whole -----

  /** What the caller of the switch gets back when it is switched in again: its registers, with the
      return address as instruction pointer and the stack as if the call had returned. `flags` is
      what pushfd stored. */
  function Resumption(m: seq<Word>, r: Regs, flags: Word): Regs
    requires r.esp / 4 < |m| && r.esp + 4 < 0x1_0000_0000
  {
    r.(eip := m[r.esp / 4], cs := KERNEL_CS, eflags := flags, esp := r.esp + 4)
  }

  /** There is room for the frame below the return address, and the argument above it. */
  ghost predicate AtCall(m: seq<Word>, r: Regs) {
    && |m| <= 0x4000_0000 && r.esp % 4 == 0
    && 16 <= r.esp / 4 && r.esp / 4 + 1 < |m|
  }

  /** Word `k` is neither in the frame to be saved nor the return address or argument. */
  ghost predicate OffStack(r: Regs, k: nat) {
    !(r.esp / 4 - 16 <= k <= r.esp / 4 + 1)
  }

  /** Memory once the caller's context is saved on its own stack. */
  function Saved(m: seq<Word>, r: Regs, flags: Word): seq<Word>
    requires AtCall(m, r)
  {
    var e := r.esp / 4;
    Stored(m, e - 16, FrameWords(Resumption(m, r, flags), 4 * (e - 4)))
  }

  /** Word addresses `current` (the variable current_thread), `from` and `next` (two thread objects,
      whose first word is the stack pointer): the memory after a full switch. */
  function SwitchedMemory(m: seq<Word>, r: Regs, flags: Word, current: nat, from: nat, next: nat): seq<Word>
    requires AtCall(m, r) && current < |m| && from < |m| && next < |m|
  {
    Saved(m, r, flags)[from := 4 * (r.esp / 4 - 16)][current := 4 * next]
  }
}
