/** Threads with stacks of their own, over whole runs of switches: each comes back as it left. */
module SwitchRuns {
  import opened Bits
  import opened PhysicalMemory
  import opened ContextFrames

  /** Words `lo..hi` of memory. */
  datatype Stack = Stack(lo: nat, hi: nat) {
    predicate Has(k: nat) {
      lo <= k < hi
    }
  }

  /** Thread objects (by the word address of their first word, the saved stack pointer) and stacks. */
  type Threads = map<nat, Stack>

  datatype Machine = Machine(regs: Regs, mem: seq<Word>)

  /** Stacks lie in memory, apart from each other, from the thread objects and from current_thread. */
  ghost predicate Laid(ts: Threads, current: nat, size: nat) {
    && current < size < 0x4000_0000 && current !in ts
    && (forall t | t in ts :: 0 < t < size && ts[t].hi <= size && !ts[t].Has(current))
    && (forall t, u, k: nat | t in ts && u in ts && ts[t].Has(k) :: k != u && (u != t ==> !ts[u].Has(k)))
  }

  /** Thread `t`'s saved frame lies in its own stack and holds `r`. */
  ghost predicate Keeps(x: Machine, ts: Threads, t: nat, r: Regs) {
    && t in ts && t < |x.mem| < 0x4000_0000 && ts[t].hi <= |x.mem|
    && x.mem[t] % 4 == 0
    && ts[t].lo <= x.mem[t] / 4 && x.mem[t] / 4 + 17 <= ts[t].hi
    && RegsAt(x.mem, x.mem[t] / 4) == r
  }

  /** `t` is the current thread. */
  ghost predicate Current(x: Machine, ts: Threads, current: nat, t: nat) {
    Laid(ts, current, |x.mem|) && t in ts && x.mem[current] == 4 * t
  }

  /** The running thread computes: it may change its registers and any memory but other threads'
      stacks, their stored stack pointers, and current_thread. */
  ghost predicate Computes(x: Machine, x': Machine, ts: Threads, current: nat, c: nat) {
    && Current(x, ts, current, c)
    && |x'.mem| == |x.mem| && x'.mem[current] == x.mem[current]
    && forall t | t in ts && t != c ::
         && x'.mem[t] == x.mem[t]
         && forall k: nat | ts[t].Has(k) :: x'.mem[k] == x.mem[k]
  }

  /** Thread `c` calls the switch, with `next` as argument and room for the frame on its stack. */
  ghost predicate Switches(x: Machine, x': Machine, ts: Threads, current: nat, c: nat, next: nat, flags: Word) {
    && Current(x, ts, current, c) && next in ts
    && AtCall(x.mem, x.regs) && x.mem[x.regs.esp / 4 + 1] == 4 * next
    && ts[c].lo <= x.regs.esp / 4 - 16 && x.regs.esp / 4 + 1 < ts[c].hi
    && KeepsControl(flags, x.regs.eflags)
    && x'.mem == SwitchedMemory(x.mem, x.regs, flags, current, c, next)
    && x'.mem[next] / 4 + 17 <= |x'.mem|
    && x'.regs == RegsAt(x'.mem, x'.mem[next] / 4)
  }

  /** The two memories agree on a thread's stack and stored stack pointer. */
  lemma UntouchedKeeps(x: Machine, x': Machine, ts: Threads, t: nat, r: Regs)
    requires Keeps(x, ts, t, r) && |x'.mem| == |x.mem| && x'.mem[t] == x.mem[t]
    requires forall k: nat | ts[t].Has(k) :: x'.mem[k] == x.mem[k]
    ensures Keeps(x', ts, t, r)
  {
    var w := x.mem[t] / 4;
    assert forall k: nat | w <= k < w + 17 :: ts[t].Has(k);
  }

  /** The switch writes on the caller's stack, in the caller's thread object, and in current_thread. */
  lemma SwitchWrites(x: Machine, x': Machine, ts: Threads, current: nat, c: nat, next: nat, flags: Word, k: nat)
    requires Switches(x, x', ts, current, c, next, flags) && k < |x.mem|
    requires k != c && k != current && !ts[c].Has(k)
    ensures |x'.mem| == |x.mem| && x'.mem[k] == x.mem[k]
  {
    hide Stored;
  }

  /** Switching out saves the caller's resumption on its own stack. */
  lemma SwitchSaves(x: Machine, x': Machine, ts: Threads, current: nat, c: nat, next: nat, flags: Word)
    requires Switches(x, x', ts, current, c, next, flags)
    ensures Current(x', ts, current, next)
    ensures Keeps(x', ts, c, Resumption(x.mem, x.regs, flags))
  {
    hide Stored, RegsAt, Saved, Resumption, FrameWords;
    var w := x.regs.esp / 4 - 16;
    assert forall k: nat | w <= k < w + 17 :: ts[c].Has(k);
    assert !ts[c].Has(c) && !ts[c].Has(current);
    SavedFrame(x.mem, x.regs, flags);
    SameFrameSameRegs(Saved(x.mem, x.regs, flags), x'.mem, w, c, current);
  }

  lemma SavedFrame(m: seq<Word>, r: Regs, flags: Word)
    requires AtCall(m, r) && r.esp / 4 + 1 < |m| < 0x4000_0000
    ensures |Saved(m, r, flags)| == |m|
    ensures RegsAt(Saved(m, r, flags), r.esp / 4 - 16) == Resumption(m, r, flags)
  {
    hide Stored, FrameWords;
    var e := r.esp / 4;
    FrameRoundTrip(m, e - 16, Resumption(m, r, flags), 4 * (e - 4));
  }

  lemma SameFrameSameRegs(m: seq<Word>, m': seq<Word>, w: nat, c: nat, current: nat)
    requires |m| == |m'| <= 0x4000_0000 && w + 17 <= |m| && w + 17 < 0x4000_0000
    requires !(w <= c < w + 17) && !(w <= current < w + 17)
    requires forall k: nat | k < |m| && k != c && k != current :: m'[k] == m[k]
    ensures RegsAt(m', w) == RegsAt(m, w)
  {
  }

  /** A thread that is out stays saved while another switches to a third. */
  lemma SwitchLeavesOthers(x: Machine, x': Machine, ts: Threads, current: nat, c: nat, next: nat, flags: Word,
      t: nat, r: Regs)
    requires Switches(x, x', ts, current, c, next, flags) && t != c && Keeps(x, ts, t, r)
    ensures Keeps(x', ts, t, r)
  {
    SwitchWrites(x, x', ts, current, c, next, flags, t) by { CallerFrameIsStack(x, x', ts, current, c, next, flags); }
    forall k: nat | ts[t].Has(k)
      ensures x'.mem[k] == x.mem[k]
    {
      SwitchWrites(x, x', ts, current, c, next, flags, k);
    }
    UntouchedKeeps(x, x', ts, t, r);
  }

  lemma CallerFrameIsStack(x: Machine, x': Machine, ts: Threads, current: nat, c: nat, next: nat, flags: Word)
    requires Switches(x, x', ts, current, c, next, flags)
    ensures ts[c].Has(x.regs.esp / 4)
  {
  }

  // ----- runs -----

  datatype Move = Compute | SwitchTo(next: nat, flags: Word)

  /** `xs[0], xs[1], ..` is a run in which thread `t` stays out: `moves[i]` leads from `xs[i]` to `xs[i+1]`. */
  ghost predicate RunWithout(xs: seq<Machine>, moves: seq<Move>, ts: Threads, current: nat, t: nat)
    decreases |moves|
  {
    && |xs| == |moves| + 1
    && (exists c :: c != t && Current(xs[0], ts, current, c))
    && (moves != [] ==>
          Moves(xs[0], xs[1], moves[0], ts, current) && RunWithout(xs[1..], moves[1..], ts, current, t))
  }

  ghost predicate Moves(x: Machine, x': Machine, move: Move, ts: Threads, current: nat) {
    exists c :: Current(x, ts, current, c) &&
      match move
      case Compute => Computes(x, x', ts, current, c)
      case SwitchTo(next, flags) => Switches(x, x', ts, current, c, next, flags)
  }

  lemma MoveKeeps(x: Machine, x': Machine, move: Move, ts: Threads, current: nat, t: nat, r: Regs)
    requires Moves(x, x', move, ts, current) && Keeps(x, ts, t, r)
    requires exists c :: c != t && Current(x, ts, current, c)
    ensures Keeps(x', ts, t, r)
  {
    hide Switches, Keeps, Laid;
    var c :| Current(x, ts, current, c) &&
      match move
      case Compute => Computes(x, x', ts, current, c)
      case SwitchTo(next, flags) => Switches(x, x', ts, current, c, next, flags);
    if move.Compute? {
      KeepsInThreads(x, ts, t, r);
      UntouchedKeeps(x, x', ts, t, r);
    } else {
      SwitchLeavesOthers(x, x', ts, current, c, move.next, move.flags, t, r);
    }
  }

  lemma KeepsInThreads(x: Machine, ts: Threads, t: nat, r: Regs)
    requires Keeps(x, ts, t, r)
    ensures t in ts && t < |x.mem|
  {
  }

  lemma {:induction false} RunKeeps(xs: seq<Machine>, moves: seq<Move>, ts: Threads, current: nat, t: nat, r: Regs)
    requires RunWithout(xs, moves, ts, current, t) && Keeps(xs[0], ts, t, r)
    ensures Keeps(xs[|xs| - 1], ts, t, r)
    decreases |xs|
  {
    hide Keeps, Current, Moves;
    if moves != [] {
      MoveKeeps(xs[0], xs[1], moves[0], ts, current, t, r);
      RunKeeps(xs[1..], moves[1..], ts, current, t, r);
    }
  }

  /** While a thread is out, no move changes a word of its stack. */
  lemma MoveLeavesStack(x: Machine, x': Machine, move: Move, ts: Threads, current: nat, t: nat)
    requires Moves(x, x', move, ts, current) && t in ts
    requires exists c :: c != t && Current(x, ts, current, c)
    ensures |x'.mem| == |x.mem| && ts[t].hi <= |x.mem|
    ensures forall k: nat | ts[t].Has(k) :: x'.mem[k] == x.mem[k]
  {
    hide Switches;
    var c :| Current(x, ts, current, c) &&
      match move
      case Compute => Computes(x, x', ts, current, c)
      case SwitchTo(next, flags) => Switches(x, x', ts, current, c, next, flags);
    if move.SwitchTo? {
      SwitchLeavesStack(x, x', ts, current, c, move.next, move.flags, t);
    }
  }

  lemma SwitchLeavesStack(x: Machine, x': Machine, ts: Threads, current: nat, c: nat, next: nat, flags: Word, t: nat)
    requires Switches(x, x', ts, current, c, next, flags) && t in ts && t != c
    ensures |x'.mem| == |x.mem| && ts[t].hi <= |x.mem|
    ensures forall k: nat | ts[t].Has(k) :: x'.mem[k] == x.mem[k]
  {
    CallerFrameIsStack(x, x', ts, current, c, next, flags);
    SwitchWrites(x, x', ts, current, c, next, flags, t);
    forall k: nat | ts[t].Has(k)
      ensures x'.mem[k] == x.mem[k]
    {
      SwitchWrites(x, x', ts, current, c, next, flags, k);
    }
  }

  /** Over any run without it, a thread's whole stack stays as it was. */
  lemma {:induction false} RunLeavesStack(xs: seq<Machine>, moves: seq<Move>, ts: Threads, current: nat, t: nat)
    requires RunWithout(xs, moves, ts, current, t) && t in ts
    ensures |xs[|xs| - 1].mem| == |xs[0].mem| && ts[t].hi <= |xs[0].mem|
    ensures forall k: nat | ts[t].Has(k) :: xs[|xs| - 1].mem[k] == xs[0].mem[k]
    decreases |xs|
  {
    hide Moves;
    if moves != [] {
      MoveLeavesStack(xs[0], xs[1], moves[0], ts, current, t);
      RunLeavesStack(xs[1..], moves[1..], ts, current, t);
    }
  }

  /** Entering a saved thread restores what it saved. */
  lemma EnterRestores(x: Machine, x': Machine, ts: Threads, current: nat, c: nat, t: nat, flags: Word, r: Regs)
    requires Switches(x, x', ts, current, c, t, flags) && c != t && Keeps(x, ts, t, r)
    ensures x'.regs == r && Current(x', ts, current, t)
  {
    SwitchLeavesOthers(x, x', ts, current, c, t, flags, t, r);
    SwitchSaves(x, x', ts, current, c, t, flags);
  }

  /** Switching out writes nothing above the return address on the caller's own stack. */
  lemma OutLeavesLocals(x: Machine, x': Machine, ts: Threads, current: nat, t: nat, out: nat, flags: Word)
    requires Switches(x, x', ts, current, t, out, flags)
    ensures t in ts && ts[t].hi <= |x.mem| == |x'.mem|
    ensures forall k: nat | ts[t].Has(k) && k > x.regs.esp / 4 :: x'.mem[k] == x.mem[k]
  {
    hide Stored;
    assert !ts[t].Has(t) && !ts[t].Has(current);
  }

  /** The round trip. Thread `t` switches out; any run of other threads' computing and switching
      follows; some thread switches back to `t`. Then `t` has the general and segment registers it
      had at its call, its control flags, its return address as instruction pointer, and its stack
      pointer and every word above the return address as if the call had simply returned. */
  lemma RoundTrip(x: Machine, ts: Threads, current: nat, t: nat, out: nat, flags: Word,
      xs: seq<Machine>, moves: seq<Move>, x': Machine, c: nat, flags': Word)
    requires xs != [] && Switches(x, xs[0], ts, current, t, out, flags) && out != t
    requires RunWithout(xs, moves, ts, current, t)
    requires Switches(xs[|xs| - 1], x', ts, current, c, t, flags') && c != t
    ensures x.regs.esp / 4 < |x.mem| && x'.regs == x.regs.(
        eip := x.mem[x.regs.esp / 4], cs := 8, eflags := flags, esp := x.regs.esp + 4)
    ensures forall b: nat | b !in {0, 2, 4, 6, 7, 11} :: Bit(x'.regs.eflags, b) == Bit(x.regs.eflags, b)
    ensures t in ts && ts[t].hi <= |x.mem| == |x'.mem|
    ensures forall k: nat | ts[t].Has(k) && k > x.regs.esp / 4 :: x'.mem[k] == x.mem[k]
  {
    hide Keeps, RunWithout, Current, SwitchedMemory;
    OutLeavesLocals(x, xs[0], ts, current, t, out, flags);
    RunLeavesStack(xs, moves, ts, current, t);
    SwitchLeavesStack(xs[|xs| - 1], x', ts, current, c, t, flags', t);
    SwitchSaves(x, xs[0], ts, current, t, out, flags);
    RunKeeps(xs, moves, ts, current, t, Resumption(x.mem, x.regs, flags));
    EnterRestores(xs[|xs| - 1], x', ts, current, c, t, flags', Resumption(x.mem, x.regs, flags));
  }

  /** A thread may switch to itself, as a lone thread does at each timer tick: it resumes at once, with
      the words of its stack above the return address as they were. */
  lemma SelfSwitch(x: Machine, x': Machine, ts: Threads, current: nat, t: nat, flags: Word)
    requires Switches(x, x', ts, current, t, t, flags)
    ensures Current(x', ts, current, t)
    ensures x.regs.esp / 4 < |x.mem| && x'.regs == x.regs.(
        eip := x.mem[x.regs.esp / 4], cs := 8, eflags := flags, esp := x.regs.esp + 4)
    ensures forall b: nat | b !in {0, 2, 4, 6, 7, 11} :: Bit(x'.regs.eflags, b) == Bit(x.regs.eflags, b)
    ensures t in ts && ts[t].hi <= |x.mem| == |x'.mem|
    ensures forall k: nat | ts[t].Has(k) && k > x.regs.esp / 4 :: x'.mem[k] == x.mem[k]
  {
    hide Stored, RegsAt, SwitchedMemory;
    SwitchSaves(x, x', ts, current, t, t, flags);
    OutLeavesLocals(x, x', ts, current, t, t, flags);
  }
}
