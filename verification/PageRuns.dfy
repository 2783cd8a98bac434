/** Whole runs of faults, page releases and stores. */
module PageRuns {
  import opened PhysicalMemory
  import opened FramePools
  import opened Paging
  import opened Translation
  import opened Accounting
  import opened Faults
  import opened PageRelease
  import opened PagingWrites
  import opened WindowFaults

  // ----- runs -----

  /** A reference to an unmapped page, a release of a page outside the first and last 4 MB, a store to a
      mapped page there. */
  datatype PageOp = Touch(d: nat, t: nat) | Drop(d: nat, t: nat) | Put(va: Word, v: Word)

  /** The processor raises a not-present fault only for an unmapped page, and a store happens only at a
      mapped one. A reference to the window of an absent table, by a program or by a release, finds the next
      frame clean: `FaultKeepsExactly` and `FreePageKeepsExactly` say why it must. */
  ghost predicate Possible(s: Ram, p: Pool, pd: nat, op: PageOp)
    requires pd < FRAMES
  {
    match op
    case Touch(d, t) =>
      d < 1024 && t < 1024 && Lookup(s, pd, d, t).None? && Handles(s, p, pd, d) && (Ordinary(d) || Clean(s, p))
    case Drop(d, t) =>
      && Ordinary(d) && t < 1024 && (HasTable(s, pd, d) ==> TableOf(s, pd, d) < FRAMES)
      && Handles(s, p, pd, WINDOW) && (HasTable(s, pd, d) || Clean(s, p))
    case Put(va, v) =>
      && Ordinary(DirectoryIndex(va)) && Translate(s, pd, va).Some?
      && Translate(s, pd, va).value / 4 < RAM_WORDS
  }

  ghost function PageStep(s: Ram, st: Statics, p: Pool, pd: nat, op: PageOp): Ram
    requires st.Fits() && pd < FRAMES && Possible(s, p, pd, op)
  {
    match op
    case Touch(d, t) => HandleFault(s, p, pd, d, t, 0).1
    case Drop(d, t) => (match FreePageFaulting(s, st, p, pd, d, t, false) case None => s case Some(s') => s')
    case Put(va, v) => s[Translate(s, pd, va).value / 4 := v]
  }

  ghost predicate ConsistentThroughout(s: Ram, st: Statics, p: Pool, pd: nat, ops: seq<PageOp>)
    requires st.Fits() && p.Fits() && pd < FRAMES
    decreases |ops|
  {
    && Consistent(s, p, pd)
    && (ops != [] && Possible(s, p, pd, ops[0]) ==>
          ConsistentThroughout(PageStep(s, st, p, pd, ops[0]), st, p, pd, ops[1..]))
  }

  lemma StepKeeps(s: Ram, st: Statics, p: Pool, pd: nat, owner: Owners, op: PageOp) returns (owner': Owners)
    requires WellFormed(s, p, pd, owner) && ProcessPoolOf(st, p) && pd < FRAMES && Possible(s, p, pd, op)
    ensures WellFormed(PageStep(s, st, p, pd, op), p, pd, owner')
  {
    hide WellFormed, Lookup, UsedFrames, EntryAt, HandleFault, FreePageFaulting, HasTable, TableOf;
    hide Clean, Consistent;
    match op {
      case Touch(d, t) =>
        FaultKeepsExactly(s, p, pd, owner, d, t, 0);
        owner' :| WellFormed(HandleFault(s, p, pd, d, t, 0).1, p, pd, owner');
      case Drop(d, t) => owner' := DropKeeps(s, st, p, pd, owner, d, t);
      case Put(va, v) => owner' := owner; StoreIsSeparate(s, p, pd, owner, va, v);
    }
  }

  /** What one step does: a fault outside the first and last 4 MB maps its page exactly when the frames it
      needs are free; a release leaves its page unmapped; a store changes the one word it is for. */
  lemma StepDoes(s: Ram, st: Statics, p: Pool, pd: nat, owner: Owners, op: PageOp)
    requires WellFormed(s, p, pd, owner) && ProcessPoolOf(st, p) && pd < FRAMES && Possible(s, p, pd, op)
    ensures var s' := PageStep(s, st, p, pd, op);
      && (op.Touch? && Ordinary(op.d) ==>
            (Lookup(s', pd, op.d, op.t).Some? <==> |Free(s, p)| >= if HasTable(s, pd, op.d) then 1 else 2))
      && (op.Drop? ==> Lookup(s', pd, op.d, op.t).None?)
      && (op.Put? ==>
            var w := Translate(s, pd, op.va).value / 4;
            s'[w] == op.v && forall k: nat | k < RAM_WORDS && k != w :: s'[k] == s[k])
  {
    hide WellFormed, Lookup, UsedFrames, EntryAt, HandleFault, FreePageFaulting, HasTable, TableOf, Translate, Free;
    hide Clean, FreePage;
    match op
    case Touch(d, t) =>
      if Ordinary(d) { var owner', table, page := FaultTheorem(s, p, pd, owner, d, t, 0); }
    case Drop(d, t) =>
      if HasTable(s, pd, d) {
        PresentTableFrees(s, st, p, pd, d, t);
        var owner' := FreePageTheorem(s, st, p, pd, owner, d, t);
      } else {
        NoTableNoPage(s, pd, d, t);
        CleanReleaseIsFault(s, st, p, pd, owner, d, t);
        WindowFault(s, p, pd, owner, d);
        var owner', table := WindowFaultTranslates(s, p, pd, owner, d);
      }
    case Put(va, v) =>
  }

  lemma DropKeeps(s: Ram, st: Statics, p: Pool, pd: nat, owner: Owners, d: nat, t: nat) returns (owner': Owners)
    requires WellFormed(s, p, pd, owner) && ProcessPoolOf(st, p) && pd < FRAMES && Possible(s, p, pd, Drop(d, t))
    ensures WellFormed(PageStep(s, st, p, pd, Drop(d, t)), p, pd, owner')
  {
    hide WellFormed, Lookup, UsedFrames, EntryAt, HandleFault, FreePage, HasTable, TableOf, FaultMapping;
    hide ChangesOnlyPage;
    if HasTable(s, pd, d) {
      PresentTableFrees(s, st, p, pd, d, t);
      owner' := FreePageTheorem(s, st, p, pd, owner, d, t);
    } else {
      CleanReleaseIsFault(s, st, p, pd, owner, d, t);
      WindowFault(s, p, pd, owner, d);
      var table;
      owner', table := WindowFaultTranslates(s, p, pd, owner, d);
      if |Free(s, p)| == 0 { owner' := owner; }
    }
  }

  /** From a well-formed state every run of faults, releases and stores keeps frames exclusive and
      accounted for, at every point. */
  lemma {:induction false} RunsStayConsistent(s: Ram, st: Statics, p: Pool, pd: nat, owner: Owners, ops: seq<PageOp>)
    requires WellFormed(s, p, pd, owner) && ProcessPoolOf(st, p)
    ensures p.Fits() && pd < FRAMES && ConsistentThroughout(s, st, p, pd, ops)
    decreases |ops|
  {
    hide WellFormed, Possible, PageStep, Consistent;
    WellFormedIsConsistent(s, p, pd, owner);
    if ops != [] && Possible(s, p, pd, ops[0]) {
      var owner' := StepKeeps(s, st, p, pd, owner, ops[0]);
      RunsStayConsistent(PageStep(s, st, p, pd, ops[0]), st, p, pd, owner', ops[1..]);
    }
  }

  lemma StepWritesOnlyUsed(s: Ram, st: Statics, p: Pool, pd: nat, owner: Owners, op: PageOp)
    requires WellFormed(s, p, pd, owner) && ProcessPoolOf(st, p) && pd < FRAMES && Possible(s, p, pd, op)
    ensures p.Fits() && WritesOnlyUsed(s, PageStep(s, st, p, pd, op), p)
  {
    hide WellFormed, Lookup, UsedFrames, EntryAt, HandleFault, FreePageFaulting, HasTable, TableOf, WritesOnlyUsed;
    hide Clean, FaultMapping;
    DirectoryUsed(s, p, pd, owner);
    NoWrites(s, p);
    match op
    case Touch(d, t) =>
      if Ordinary(d) {
        FaultWritesOnlyUsed(s, p, pd, owner, d, t, 0);
      } else {
        UnmappedWindow(s, p, pd, owner, d, t);
        var owner', table := WindowFaultTranslates(s, p, pd, owner, t);
      }
    case Drop(d, t) => FreePageFaultingWrites(s, st, p, pd, owner, d, t);
    case Put(va, v) => StoreWritesOnlyUsed(s, p, pd, owner, va, v);
  }

  /** Over the whole run, each step writes only in the bitmap and in frames marked used. */
  ghost predicate WritesOnlyUsedThroughout(s: Ram, st: Statics, p: Pool, pd: nat, ops: seq<PageOp>)
    requires st.Fits() && p.Fits() && pd < FRAMES
    decreases |ops|
  {
    ops != [] && Possible(s, p, pd, ops[0]) ==>
      && WritesOnlyUsed(s, PageStep(s, st, p, pd, ops[0]), p)
      && WritesOnlyUsedThroughout(PageStep(s, st, p, pd, ops[0]), st, p, pd, ops[1..])
  }

  /** From a well-formed state, faults, releases and stores write, at every point of every run, only in
      the bitmap and in frames marked used. */
  lemma {:induction false} RunsWriteOnlyUsed(s: Ram, st: Statics, p: Pool, pd: nat, owner: Owners, ops: seq<PageOp>)
    requires WellFormed(s, p, pd, owner) && ProcessPoolOf(st, p)
    ensures p.Fits() && pd < FRAMES && WritesOnlyUsedThroughout(s, st, p, pd, ops)
    decreases |ops|
  {
    hide WellFormed, Possible, PageStep, WritesOnlyUsed;
    WellFormedIsConsistent(s, p, pd, owner);
    if ops != [] && Possible(s, p, pd, ops[0]) {
      StepWritesOnlyUsed(s, st, p, pd, owner, ops[0]);
      var owner' := StepKeeps(s, st, p, pd, owner, ops[0]);
      RunsWriteOnlyUsed(PageStep(s, st, p, pd, ops[0]), st, p, pd, owner', ops[1..]);
    }
  }
}
