/** The stack that a new thread is given, and what happens when it is first entered. */
module NewThreads {
  import opened Bits
  import opened PhysicalMemory
  import opened ContextFrames
  import opened ContextSwitch
  import opened SwitchRuns

  /** Registers of a thread entered for the first time: at thread_start, EFLAGS clear. */
  function InitialRegs(start: Word, esp: Word): Regs {
    Regs(0, 0, KERNEL_DS, KERNEL_DS, 0, 0, 0, 0, 0, 0, 0, start, KERNEL_CS, 0, esp)
  }

  /** What lies on a new thread's stack: a saved frame, then the thread function's address, the
      shutdown function's, and an argument word. */
  function InitialStack(start: Word, function_: Word, shutdown: Word): seq<Word> {
    FrameWords(InitialRegs(start, 0), 0) + [function_, shutdown, 0]
  }

  /** The static counter of Thread. */
  class ThreadIds {
    var nextFreePid: nat

    constructor ()
      ensures nextFreePid == 0
    {
      nextFreePid := 0;
    }
  }

  class Thread {
    const mem: array<Word>
    /** Word address of the object; its first word is the stack pointer. */
    const at: nat

    /** push: the words `vs` stored so far, over memory `m`, and the stack pointer below them. */
    ghost predicate Pushed(m: seq<Word>, w: nat, vs: seq<Word>)
      reads mem
    {
      && at < |m| <= 0x4000_0000 && w + |vs| <= |m| && !(w <= at < w + |vs|)
      && 4 * w < 0x1_0000_0000
      && mem[..] == Stored(m, w, vs)[at := 4 * w]
    }

    method Push(v: Word, ghost m: seq<Word>, ghost w: nat, ghost vs: seq<Word>)
      requires 0 < w && at != w - 1 && Pushed(m, w, vs)
      modifies mem
      ensures Pushed(m, w - 1, [v] + vs)
    {
      hide Stored;
      PushStored(m, w, vs, v);
      mem[at] := mem[at] - 4;
      mem[mem[at] / 4] := v;
      assert mem[..] == Stored(m, w, vs)[w - 1 := v][at := (4 * (w - 1)) as Word];
    }

    /** Eight pushes of zero: the general registers. */
    method PushZeros(n: nat, ghost m: seq<Word>, ghost w: nat, ghost vs: seq<Word>)
      requires n <= w && !(w - n <= at < w) && Pushed(m, w, vs)
      modifies mem
      ensures Pushed(m, w - n, Zeros(n) + vs)
    {
      hide Stored, Pushed;
      var i := 0;
      assert Zeros(0) + vs == vs;
      while i < n
        invariant i <= n && Pushed(m, w - i, Zeros(i) + vs)
      {
        Push(0, m, w - i, Zeros(i) + vs);
        assert [0] + (Zeros(i) + vs) == Zeros(i + 1) + vs;
        i := i + 1;
      }
    }

    method SetupContext(start: Word, function_: Word, shutdown: Word, ghost m: seq<Word>, ghost w: nat)
      requires 20 <= w && !(w - 20 <= at < w) && Pushed(m, w, [])
      modifies mem
      ensures Pushed(m, w - 20, InitialStack(start, function_, shutdown))
    {
      hide Stored, Pushed;
      Push(0, m, w, []);
      Push(shutdown, m, w - 1, [0] + []);
      Push(function_, m, w - 2, [shutdown] + ([0] + []));
      ghost var call := [function_] + ([shutdown] + ([0] + []));
      Push(0, m, w - 3, call);
      Push(KERNEL_CS, m, w - 4, [0] + call);
      Push(start, m, w - 5, [KERNEL_CS] + ([0] + call));
      ghost var frame := [start] + ([KERNEL_CS] + ([0] + call));
      PushZeros(10, m, w - 6, frame);
      ghost var general := Zeros(10) + frame;
      Push(KERNEL_DS, m, w - 16, general);
      Push(KERNEL_DS, m, w - 17, [KERNEL_DS] + general);
      Push(0, m, w - 18, [KERNEL_DS] + ([KERNEL_DS] + general));
      Push(0, m, w - 19, [0] + ([KERNEL_DS] + ([KERNEL_DS] + general)));
      TheStack(start, function_, shutdown);
    }

    /** A thread on the stack of `size` bytes that starts at byte address `stack`. */
    constructor (ids: ThreadIds, mem: array<Word>, at: nat, stack: Word, size: Word,
        start: Word, function_: Word, shutdown: Word)
      requires mem.Length <= 0x4000_0000 && 4 * mem.Length < 0x1_0000_0000
      requires stack % 4 == 0 && size % 4 == 0 && size >= 80 && stack + size <= 4 * mem.Length
      requires at + 6 <= stack / 4 || (stack + size) / 4 <= at
      requires at + 6 <= mem.Length && ids.nextFreePid < 0x8000_0000
      modifies mem, ids
      ensures this.mem == mem && this.at == at
      ensures ids.nextFreePid == old(ids.nextFreePid) + 1
      ensures mem[at + 1] == old(ids.nextFreePid)
      ensures var m := old(mem[..]); var w := (stack + size) / 4 - 20;
        && mem[at] == 4 * w
        && mem[..] == Stored(m[at + 1 := (old(ids.nextFreePid)) as Word][at + 2 := stack][at + 3 := size],
             w, InitialStack(start, function_, shutdown))[at := (4 * w) as Word]
    {
      this.mem, this.at := mem, at;
      new;
      hide Stored;
      mem[at + 1] := ids.nextFreePid;
      ids.nextFreePid := ids.nextFreePid + 1;
      ghost var m0: seq<Word> := mem[..];
      mem[at] := stack + size;
      mem[at + 2] := stack;
      mem[at + 3] := size;
      ghost var m: seq<Word> := m0[at + 2 := stack][at + 3 := size];
      NothingStored(m, (stack + size) / 4);
      assert mem[..] == m[at := stack + size];
      SetupContext(start, function_, shutdown, m, (stack + size) / 4);
    }
  }

  function Zeros(n: nat): seq<Word> {
    seq(n, _ => 0)
  }

  lemma TheStack(start: Word, function_: Word, shutdown: Word)
    ensures [0] + ([0] + ([KERNEL_DS] + ([KERNEL_DS] + (Zeros(10)
        + ([start] + ([KERNEL_CS] + ([0] + ([function_] + ([shutdown] + ([0] + []))))))))))
      == InitialStack(start, function_, shutdown)
  {
  }

  /** A new thread on a stack of its own is a thread that is out: its saved context is the initial one. */
  lemma NewThreadKeeps(m: seq<Word>, x: Machine, ts: Threads, current: nat, t: nat, w: nat,
      start: Word, function_: Word, shutdown: Word)
    requires Laid(ts, current, |m|) && t in ts && ts[t].lo <= w && w + 20 <= ts[t].hi
    requires x.mem == Stored(m, w, InitialStack(start, function_, shutdown))[t := 4 * w]
    ensures Keeps(x, ts, t, InitialRegs(start, 4 * (w + 17)))
  {
    hide Stored;
    assert forall k: nat | w <= k < w + 20 :: ts[t].Has(k);
    var vs := InitialStack(start, function_, shutdown);
    assert !ts[t].Has(t);
    assert forall k: nat | w <= k < w + 20 :: x.mem[k] == vs[k - w];
    InitialFrame(x.mem, w, start, function_, shutdown);
  }

  /** Entering a new thread starts thread_start with interrupts off; its return enters the thread
      function, and that one's return enters the shutdown function, with the argument word above. */
  method FirstDispatch(cpu: Cpu, next: nat, ghost m: seq<Word>, ghost w: nat,
      ghost start: Word, ghost function_: Word, ghost shutdown: Word)
    returns (first: Regs, second: Word, third: Word)
    requires cpu.Sane() && cpu.esp / 4 + 1 < cpu.mem.Length < 0x4000_0000
    requires cpu.mem[cpu.esp / 4 + 1] == 4 * next && next < cpu.mem.Length
    requires cpu.mem[cpu.current] == 0 && cpu.current != next
    requires |m| == cpu.mem.Length && w + 20 <= |m| && !(w <= cpu.current < w + 20) && !(w <= next < w + 20)
    requires cpu.mem[..] == Stored(m, w, InitialStack(start, function_, shutdown))[next := (4 * w) as Word]
    modifies cpu, cpu.mem
    ensures first == Regs(0, 0, 16, 16, 0, 0, 0, 0, 0, 0, 0, start, 8, 0, 4 * (w + 17))
    ensures !Bit(first.eflags, 9)
    ensures second == function_ && third == shutdown
    ensures cpu.mem[..] == old(cpu.mem[..])[cpu.current := (4 * next) as Word]
    ensures cpu.esp == 4 * (w + 19) && cpu.mem[w + 19] == 0
  {
    hide Stored, RegsAt, InitialStack, InitialRegs;
    ghost var vs := InitialStack(start, function_, shutdown);
    InitialParts(start, function_, shutdown, 4 * (w + 17));
    ghost var m' := cpu.mem[..][cpu.current := (4 * next) as Word];
    assert forall k | w <= k < w + 20 :: m'[k] == vs[k - w];
    InitialFrame(m', w, start, function_, shutdown);
    cpu.EnterFirst(next);
    first := cpu.Registers();
    ZeroBit(9);
    second, third := ReturnTwice(cpu, w);
  }

  /** The same through a full switch: thread `from` enters the new thread `next`, whose initial stack
      starts at word `w`. */
  method FirstSwitch(cpu: Cpu, from: nat, next: nat, ghost w: nat,
      ghost start: Word, ghost function_: Word, ghost shutdown: Word)
    returns (first: Regs, second: Word, third: Word)
    requires cpu.Sane() && AtCall(cpu.mem[..], cpu.Registers()) && cpu.mem.Length < 0x4000_0000
    requires cpu.mem[cpu.current] == 4 * from && from != 0 && from < cpu.mem.Length
    requires cpu.mem[cpu.esp / 4 + 1] == 4 * next && next < cpu.mem.Length
    requires OffStack(cpu.Registers(), cpu.current) && OffStack(cpu.Registers(), from)
    requires w + 20 <= cpu.mem.Length && cpu.mem[next] == 4 * w && next != from && next != cpu.current
    requires OffStack(cpu.Registers(), next)
    requires forall k: nat | w <= k < w + 20 :: OffStack(cpu.Registers(), k) && k != cpu.current && k != from
    requires forall k: nat | w <= k < w + 20 :: cpu.mem[k] == InitialStack(start, function_, shutdown)[k - w]
    modifies cpu, cpu.mem
    ensures first == Regs(0, 0, 16, 16, 0, 0, 0, 0, 0, 0, 0, start, 8, 0, 4 * (w + 17))
    ensures !Bit(first.eflags, 9)
    ensures second == function_ && third == shutdown
    ensures cpu.esp == 4 * (w + 19) && cpu.mem[w + 19] == 0 && cpu.mem[cpu.current] == 4 * next
  {
    hide Saved, RegsAt, InitialStack, InitialRegs, KeepsControl;
    ghost var m: seq<Word>, r, current := cpu.mem[..], cpu.Registers(), cpu.current;
    InitialParts(start, function_, shutdown, 4 * (w + 17));
    forall flags: Word
      ensures NewStands(m, SwitchedMemory(m, r, flags, current, from, next), current, next, w)
    {
      SwitchedStands(m, r, flags, current, from, next, w);
    }
    cpu.SwitchTo(from, next);
    InitialFrame(cpu.mem[..], w, start, function_, shutdown);
    first := cpu.Registers();
    ZeroBit(9);
    second, third := ReturnTwice(cpu, w);
  }

  /** The new thread's stack and stored stack pointer are as they were, and it is current. */
  ghost predicate NewStands(m: seq<Word>, m': seq<Word>, current: nat, next: nat, w: nat) {
    && |m'| == |m| && next < |m| && current < |m| && w + 20 <= |m|
    && m'[next] == m[next] && m'[current] == 4 * next
    && forall k: nat | w <= k < w + 20 :: m'[k] == m[k]
  }

  lemma SwitchedStands(m: seq<Word>, r: Regs, flags: Word, current: nat, from: nat, next: nat, w: nat)
    requires AtCall(m, r) && current < |m| && from < |m| && next < |m| && w + 20 <= |m| && 4 * next < 0x1_0000_0000
    requires OffStack(r, next) && next != current && next != from
    requires forall k: nat | w <= k < w + 20 :: OffStack(r, k) && k != current && k != from
    ensures NewStands(m, SwitchedMemory(m, r, flags, current, from, next), current, next, w)
  {
    hide SwitchedMemory, OffStack;
    SwitchedElsewhere(m, r, flags, current, from, next, next);
    forall k: nat | w <= k < w + 20 ensures SwitchedMemory(m, r, flags, current, from, next)[k] == m[k] {
      SwitchedElsewhere(m, r, flags, current, from, next, k);
    }
    SwitchedCurrent(m, r, flags, current, from, next);
  }

  lemma SwitchedCurrent(m: seq<Word>, r: Regs, flags: Word, current: nat, from: nat, next: nat)
    requires AtCall(m, r) && current < |m| && from < |m| && next < |m| && 4 * next < 0x1_0000_0000
    ensures SwitchedMemory(m, r, flags, current, from, next)[current] == 4 * next
  {
  }

  lemma SwitchedElsewhere(m: seq<Word>, r: Regs, flags: Word, current: nat, from: nat, next: nat, k: nat)
    requires AtCall(m, r) && current < |m| && from < |m| && next < |m|
    requires k < |m| && OffStack(r, k) && k != current && k != from
    ensures |SwitchedMemory(m, r, flags, current, from, next)| == |m|
    ensures SwitchedMemory(m, r, flags, current, from, next)[k] == m[k]
  {
    hide Saved;
    SavedKeeps(m, r, flags, k);
  }

  /** The same for a thread first entered from another thread, after any run of moves without it:
      the frame is popped whole, and the two return addresses and the argument word are still there. */
  lemma FirstEntry(m: seq<Word>, ts: Threads, current: nat, t: nat, w: nat,
      start: Word, function_: Word, shutdown: Word,
      xs: seq<Machine>, moves: seq<Move>, x': Machine, c: nat, flags: Word)
    requires Laid(ts, current, |m|) && t in ts && ts[t].lo <= w && w + 20 <= ts[t].hi
    requires xs != [] && xs[0].mem == Stored(m, w, InitialStack(start, function_, shutdown))[t := 4 * w]
    requires RunWithout(xs, moves, ts, current, t)
    requires Switches(xs[|xs| - 1], x', ts, current, c, t, flags) && c != t
    ensures x'.regs == Regs(0, 0, 16, 16, 0, 0, 0, 0, 0, 0, 0, start, 8, 0, 4 * (w + 17))
    ensures !Bit(x'.regs.eflags, 9)
    ensures |x'.mem| == |m| && x'.mem[current] == 4 * t
    ensures x'.mem[w + 17] == function_ && x'.mem[w + 18] == shutdown && x'.mem[w + 19] == 0
  {
    hide Stored, Keeps, RunWithout, Switches, Laid, InitialStack, InitialRegs;
    NewThreadWords(m, xs[0], ts, current, t, w, start, function_, shutdown);
    var r := InitialRegs(start, 4 * (w + 17));
    NewThreadKeeps(m, xs[0], ts, current, t, w, start, function_, shutdown);
    RunKeeps(xs, moves, ts, current, t, r);
    RunLeavesStack(xs, moves, ts, current, t);
    SwitchLeavesStack(xs[|xs| - 1], x', ts, current, c, t, flags, t);
    EnterRestores(xs[|xs| - 1], x', ts, current, c, t, flags, r);
    InitialParts(start, function_, shutdown, 4 * (w + 17));
    ZeroBit(9);
  }

  lemma NewThreadWords(m: seq<Word>, x: Machine, ts: Threads, current: nat, t: nat, w: nat,
      start: Word, function_: Word, shutdown: Word)
    requires Laid(ts, current, |m|) && t in ts && ts[t].lo <= w && w + 20 <= ts[t].hi
    requires x.mem == Stored(m, w, InitialStack(start, function_, shutdown))[t := 4 * w]
    ensures ts[t].hi <= |m| == |x.mem| < 0x4000_0000 && forall k: nat | w <= k < w + 20 :: ts[t].Has(k)
    ensures x.mem[w + 17] == function_ && x.mem[w + 18] == shutdown && x.mem[w + 19] == 0
  {
    hide Stored;
    assert forall k: nat | w <= k < w + 20 :: ts[t].Has(k);
    assert !ts[t].Has(t);
  }

  /** The returns of thread_start and then of the thread function, each with the stack as it found it. */
  method ReturnTwice(cpu: Cpu, ghost w: nat) returns (second: Word, third: Word)
    requires cpu.Sane() && cpu.esp == 4 * (w + 17) && w + 20 <= cpu.mem.Length < 0x4000_0000
    modifies cpu
    ensures second == cpu.mem[w + 17] && third == cpu.mem[w + 18] && cpu.esp == 4 * (w + 19)
  {
    cpu.Ret();
    second := cpu.eip;
    cpu.Ret();
    third := cpu.eip;
  }

  lemma InitialParts(start: Word, function_: Word, shutdown: Word, esp: Word)
    ensures InitialRegs(start, esp) == Regs(0, 0, 16, 16, 0, 0, 0, 0, 0, 0, 0, start, 8, 0, esp)
    ensures |InitialStack(start, function_, shutdown)| == 20
  {
  }

  lemma InitialFrame(m: seq<Word>, w: nat, start: Word, function_: Word, shutdown: Word)
    requires w + 20 <= |m| < 0x4000_0000
    requires forall k | w <= k < w + 20 :: m[k] == InitialStack(start, function_, shutdown)[k - w]
    ensures RegsAt(m, w) == InitialRegs(start, 4 * (w + 17))
    ensures m[w + 17] == function_ && m[w + 18] == shutdown && m[w + 19] == 0
  {
  }
}
