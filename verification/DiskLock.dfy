/** The spin-and-yield lock around each disk operation, over every interleaving of atomic steps. */
module DiskLock {
  import opened Scheduling

  /** `inside`: the threads between Lock and Unlock. `busy`: the flag Lock tests. */
  datatype System = System(sched: Sched<nat>, inside: set<nat>, busy: bool)

  /** What the running thread does next. Lock's test and set are one step; a failed test gives way.
      Waiting for the disk happens only inside, and only a thread outside asks for the lock or ends. */
  datatype Action = TryLock | WaitForDisk | Release | Tick | Finish

  predicate Allowed(x: System, a: Action) {
    match a
    case TryLock => x.sched.running !in x.inside
    case WaitForDisk => x.sched.running in x.inside
    case Release => x.sched.running in x.inside
    case Tick => true
    case Finish => x.sched.running !in x.inside
  }

  function Act(x: System, a: Action): System
    requires Allowed(x, a)
  {
    match a
    case TryLock =>
      if x.busy then x.(sched := Do(x.sched, Preempt))
      else x.(busy := true, inside := x.inside + {x.sched.running})
    case WaitForDisk => x.(sched := Do(x.sched, Block))
    case Release => x.(busy := false, inside := x.inside - {x.sched.running})
    case Tick => x.(sched := Do(x.sched, Preempt))
    case Finish => x.(sched := Do(x.sched, Drop))
  }

  /** The flag is up exactly while one thread is inside, and never more than one is. */
  ghost predicate Exclusive(x: System) {
    if x.busy then exists t :: x.inside == {t} else x.inside == {}
  }

  ghost predicate AllowedRun(x: System, actions: seq<Action>)
    decreases |actions|
  {
    actions == [] || (Allowed(x, actions[0]) && AllowedRun(Act(x, actions[0]), actions[1..]))
  }

  function After(x: System, actions: seq<Action>): System
    requires AllowedRun(x, actions)
    decreases |actions|
  {
    if actions == [] then x else After(Act(x, actions[0]), actions[1..])
  }

  lemma ActKeepsExclusive(x: System, a: Action)
    requires Exclusive(x) && Allowed(x, a)
    ensures Exclusive(Act(x, a))
  {
    hide Do;
    if a == TryLock && !x.busy {
      assert Act(x, a).inside == {x.sched.running};
    }
    if a == Release {
      assert Act(x, a).inside == {};
    }
  }

  /** Mutual exclusion over every run, from the lock free (or held by one thread), though the holder gives up the
      processor inside. */
  lemma {:induction false} AtMostOneInside(x: System, actions: seq<Action>)
    requires Exclusive(x)
    requires AllowedRun(x, actions)
    ensures Exclusive(After(x, actions)) && |After(x, actions).inside| <= 1
    decreases |actions|
  {
    hide Act;
    if actions != [] {
      ActKeepsExclusive(x, actions[0]);
      AtMostOneInside(Act(x, actions[0]), actions[1..]);
    }
  }

  /** The flag is never initialised. If it happens to start up, no run lets anyone inside. */
  lemma {:induction false} StartsUpNobodyEnters(x: System, actions: seq<Action>)
    requires x.busy && x.inside == {} && AllowedRun(x, actions)
    ensures After(x, actions).inside == {} && After(x, actions).busy
    decreases |actions|
  {
    if actions != [] { StartsUpNobodyEnters(Act(x, actions[0]), actions[1..]); }
  }

  /** From nobody inside, someone can get in exactly when the flag starts down. */
  lemma SomeoneCanEnter(x: System)
    requires x.inside == {}
    ensures (exists actions :: AllowedRun(x, actions) && After(x, actions).inside != {}) <==> !x.busy
  {
    if x.busy {
      forall actions | AllowedRun(x, actions)
        ensures After(x, actions).inside == {}
      {
        StartsUpNobodyEnters(x, actions);
      }
    } else {
      Enters(x, [TryLock]);
    }
  }

  lemma Enters(x: System, actions: seq<Action>)
    requires x.inside == {} && !x.busy && actions == [TryLock]
    ensures AllowedRun(x, actions) && After(x, actions).inside != {}
  {
    var y := Act(x, TryLock);
    assert x.sched.running in y.inside;
    assert AllowedRun(y, actions[1..]) && After(y, actions[1..]) == y;
  }

  // ----- the lock as history tells it -----

  /** The flag after the actions, from its value before: up after a try, down after a release. */
  function FlagAfter(busy: bool, actions: seq<Action>): bool
    decreases |actions|
  {
    if actions == [] then busy
    else FlagAfter(actions[0] == TryLock || (busy && actions[0] != Release), actions[1..])
  }

  /** The scheduling steps the actions come to: a try gives way only if it finds the flag up. */
  function Steps(busy: bool, actions: seq<Action>): seq<Step>
    decreases |actions|
  {
    if actions == [] then []
    else
      (match actions[0]
       case TryLock => if busy then [Preempt] else []
       case WaitForDisk => [Block]
       case Release => []
       case Tick => [Preempt]
       case Finish => [Drop])
      + Steps(FlagAfter(busy, [actions[0]]), actions[1..])
  }

  /** Every run of the lock is a run of the scheduler, and the flag is what the tries and releases made it. */
  lemma {:induction false} RunRefinesScheduler(x: System, actions: seq<Action>)
    requires AllowedRun(x, actions)
    ensures After(x, actions).sched == Run(x.sched, Steps(x.busy, actions))
    ensures After(x, actions).busy == FlagAfter(x.busy, actions)
    decreases |actions|
  {
    hide Do;
    if actions != [] {
      RunRefinesScheduler(Act(x, actions[0]), actions[1..]);
      OneStep(x, actions[0]);
      var first := Steps(x.busy, [actions[0]]);
      var rest := Steps(Act(x, actions[0]).busy, actions[1..]);
      assert Steps(x.busy, actions) == first + rest;
      assert first == [] ==> first + rest == rest;
      assert first != [] ==> (first + rest)[0] == first[0] && (first + rest)[1..] == rest;
    }
  }

  lemma OneStep(x: System, a: Action)
    requires Allowed(x, a)
    ensures Act(x, a).busy == FlagAfter(x.busy, [a])
    ensures |Steps(x.busy, [a])| <= 1
    ensures Act(x, a).sched == if Steps(x.busy, [a]) == [] then x.sched else Do(x.sched, Steps(x.busy, [a])[0])
  {
    hide Do;
    assert [a][1..] == [];
  }

  /** At some point of the run a thread other than `h` is inside. */
  ghost predicate OtherInside(x: System, h: nat, actions: seq<Action>)
    requires AllowedRun(x, actions)
    decreases |actions|
  {
    || (exists t :: t in x.inside && t != h)
    || (actions != [] && OtherInside(Act(x, actions[0]), h, actions[1..]))
  }

  /** At some point a thread other than `h` tries while the flag is down. */
  ghost predicate OtherTriesFree(s: Sched<nat>, busy: bool, h: nat, actions: seq<Action>)
    decreases |actions|
  {
    actions != [] &&
    ((actions[0] == TryLock && !busy && s.running != h)
     || OtherTriesFree(Run(s, Steps(busy, [actions[0]])), FlagAfter(busy, [actions[0]]), h, actions[1..]))
  }

  /** Handing over: over every run, a thread other than the holder gets in exactly when it tries after a
      release, before anyone has tried again. */
  lemma {:induction false} OtherGetsInExactly(x: System, h: nat, actions: seq<Action>)
    requires Exclusive(x) && x.inside <= {h} && AllowedRun(x, actions)
    ensures OtherInside(x, h, actions) <==> OtherTriesFree(x.sched, x.busy, h, actions)
    decreases |actions|
  {
    hide Do;
    if actions != [] {
      var a, x' := actions[0], Act(x, actions[0]);
      ActKeepsExclusive(x, a);
      OneStep(x, a);
      if a == TryLock && !x.busy && x.sched.running != h {
        assert x.sched.running in x'.inside;
        assert OtherInside(x', h, actions[1..]);
      } else {
        assert Run(x.sched, Steps(x.busy, [a])) == x'.sched;
        OtherGetsInExactly(x', h, actions[1..]);
      }
    }
  }

  /** So after a release the next thread to run and try has the lock. */
  lemma HandOver(x: System)
    requires Exclusive(x) && Allowed(x, Release) && x.sched.blocked == [] && x.sched.ready != []
    requires x.sched.ready[0] != x.sched.running
    ensures AllowedRun(x, [Release, Tick, TryLock])
    ensures var y := After(x, [Release, Tick, TryLock]);
      y.busy && y.inside == {x.sched.ready[0]} && y.sched.running == x.sched.ready[0]
  {
    var x1 := Act(x, Release);
    var x2 := Act(x1, Tick);
    var x3 := Act(x2, TryLock);
    assert x1.inside == {} && x2.sched.running == x.sched.ready[0];
    assert [Release, Tick, TryLock][1..] == [Tick, TryLock] && [Tick, TryLock][1..] == [TryLock];
    assert AllowedRun(x3, []) && After(x3, []) == x3;
    assert AllowedRun(x2, [TryLock]) && After(x2, [TryLock]) == After(x3, [TryLock][1..]);
    assert AllowedRun(x1, [Tick, TryLock]) && After(x1, [Tick, TryLock]) == After(x2, [TryLock]);
  }

  /** A holder that waits for the disk stays inside with the flag up, at the back of the blocked queue,
      and the head of the ready queue runs. */
  lemma HolderWaits(x: System)
    requires Exclusive(x) && Placed(x.sched) && Allowed(x, WaitForDisk)
    ensures var x', h := Act(x, WaitForDisk), x.sched.running;
      && x'.inside == x.inside == {h} && x'.busy
      && x'.sched.blocked == x.sched.blocked + [h]
      && x'.sched.running == if x.sched.ready == [] then h else x.sched.ready[0]
  {
    hide Placed;
    BlockKeepsExactlyWhenReady(x.sched);
    assert x.inside == {x.sched.running};
  }

  // ----- the holder gets back -----

  /** Thread `w` is waiting for the lock: whenever it runs it tries again, or the timer ticks. */
  ghost predicate KeepsTrying(x: System, w: nat, actions: seq<Action>)
    requires AllowedRun(x, actions)
    decreases |actions|
  {
    actions == [] ||
    ((x.sched.running == w ==> actions[0] == TryLock || actions[0] == Tick)
     && KeepsTrying(Act(x, actions[0]), w, actions[1..]))
  }

  /** The holder is put on the processor by one of the actions. */
  ghost predicate HolderRuns(x: System, t: nat, actions: seq<Action>, n: nat)
    requires AllowedRun(x, actions)
    decreases |actions|
  {
    && n > 0 && actions != []
    && (Act(x, actions[0]).sched.running == t || HolderRuns(Act(x, actions[0]), t, actions[1..], n - 1))
  }

  /** While the holder is off the processor, every action is a scheduling step. */
  function StepOf(a: Action): Step {
    match a
    case TryLock => Preempt
    case WaitForDisk => Block
    case Release => Preempt
    case Tick => Preempt
    case Finish => Drop
  }

  lemma ActWhileHeld(x: System, t: nat, a: Action)
    requires Exclusive(x) && t in x.inside && x.sched.running != t && Allowed(x, a)
    ensures a == TryLock || a == Tick || a == Finish
    ensures Act(x, a) == x.(sched := Do(x.sched, StepOf(a)))
  {
    hide Do;
    var u :| x.inside == {u};
  }

  /** One action while the holder `t` is blocked at position `q` and `w` keeps trying. */
  lemma HeldStep(x: System, q: nat, w: nat, a: Action) returns (q': nat)
    requires Exclusive(x) && Placed(x.sched) && Allowed(x, a)
    requires q < |x.sched.blocked| && x.sched.blocked[q] in x.inside
    requires w == x.sched.running || w in x.sched.ready
    requires x.sched.running == w ==> a == TryLock || a == Tick
    ensures var x' := Act(x, a); var s, s' := x.sched, x'.sched;
      && Exclusive(x') && Placed(s') && x'.inside == x.inside && |s'.All()| <= |s.All()|
      && (w == s'.running || w in s'.ready)
      && (s'.running == s.blocked[q] ||
          (&& q' < |s'.blocked| && s'.blocked[q'] == s.blocked[q]
           && ((q' == q && |s'.ready| < |s.ready|) || (q' == q - 1 && |s'.ready| < |s.All()|))))
  {
    hide Do, Placed, Exclusive;
    RunningNotReady(x.sched);
    ActWhileHeld(x, x.sched.blocked[q], a);
    ActKeepsExclusive(x, a);
    BlockedMovesUp(x.sched, q, StepOf(a));
    SteadyStays(x.sched, w, StepOf(a));
    q' := if StepOf(a) == Preempt && q > 0 then q - 1 else q;
  }

  /** A waiter's spinning brings the holder back: with the holder at blocked position `q`, a waiter that
      keeps trying, and at most `n` threads in all, the holder runs within `q * n + |ready| + 1` actions. */
  lemma {:induction false} SpinningFreesTheHolder(x: System, q: nat, w: nat, n: nat, actions: seq<Action>)
    requires Exclusive(x) && Placed(x.sched) && AllowedRun(x, actions) && KeepsTrying(x, w, actions)
    requires q < |x.sched.blocked| && x.sched.blocked[q] in x.inside
    requires w == x.sched.running || w in x.sched.ready
    requires |x.sched.All()| <= n && |actions| > q * n + |x.sched.ready|
    ensures HolderRuns(x, x.sched.blocked[q], actions, q * n + |x.sched.ready| + 1)
    decreases |actions|
  {
    hide Act, Placed, Exclusive, Sched.All;
    assert q * n >= 0;
    var t := x.sched.blocked[q];
    var q' := HeldStep(x, q, w, actions[0]);
    var x' := Act(x, actions[0]);
    if x'.sched.running != t {
      LessWaiting(q, q', n, |x.sched.ready|, |x'.sched.ready|);
      SpinningFreesTheHolder(x', q', w, n, actions[1..]);
      MoreActions(x', t, actions[1..], q' * n + |x'.sched.ready| + 1, q * n + |x.sched.ready|);
    }
  }

  /** How often a waiter tries, or the timer ticks. */
  function Spins(actions: seq<Action>): nat {
    if actions == [] then 0
    else (if actions[0] == TryLock || actions[0] == Tick then 1 else 0) + Spins(actions[1..])
  }

  ghost predicate FinishFindsReady(x: System, actions: seq<Action>)
    requires AllowedRun(x, actions)
    decreases |actions|
  {
    actions != [] ==>
      && (actions[0] == Finish ==> x.sched.ready != [])
      && FinishFindsReady(Act(x, actions[0]), actions[1..])
  }

  /** The exact law for a blocked holder: it runs at the spin or tick number `q + 1`, and no sooner, while
      someone is ready whenever a thread ends. */
  lemma {:induction false} HolderRunsExactly(x: System, q: nat, actions: seq<Action>)
    requires Exclusive(x) && Placed(x.sched) && AllowedRun(x, actions) && FinishFindsReady(x, actions)
    requires q < |x.sched.blocked| && x.sched.blocked[q] in x.inside
    ensures HolderRuns(x, x.sched.blocked[q], actions, |actions|) <==> Spins(actions) > q
    decreases |actions|
  {
    hide Act, Placed, Exclusive, Do;
    if actions != [] {
      var t, a := x.sched.blocked[q], actions[0];
      RunningNotReady(x.sched);
      ActWhileHeld(x, t, a);
      ActKeepsExclusive(x, a);
      BlockedMovesUp(x.sched, q, StepOf(a));
      var x' := Act(x, a);
      if a == Finish {
        StaysBlocked(x.sched, q, StepOf(a));
        HolderRunsExactly(x', q, actions[1..]);
      } else if q > 0 {
        StaysBlocked(x.sched, q, StepOf(a));
        HolderRunsExactly(x', q - 1, actions[1..]);
      }
    }
  }

  lemma SteadyStays(s: Sched<nat>, w: nat, step: Step)
    requires Placed(s) && (w == s.running || w in s.ready) && (s.running == w ==> step == Preempt)
    ensures w == Do(s, step).running || w in Do(s, step).ready
  {
    RunningNotReady(s);
    hide Placed;
    match step {
      case Preempt => StaysOnPreempt(s, w);
      case Block =>
        assert s.ready == [s.ready[0]] + s.ready[1..];
      case Drop =>
        WithoutAbsent(s.ready, s.running);
        assert s.ready == [s.ready[0]] + s.ready[1..];
    }
  }

  lemma StaysOnPreempt(s: Sched<nat>, w: nat)
    requires w == s.running || w in s.ready
    ensures w == Do(s, Preempt).running || w in Do(s, Preempt).ready
  {
    if s.blocked != [] {
      PreemptBlocked(s);
    } else if s.ready != [] {
      assert s.ready == [s.ready[0]] + s.ready[1..];
      assert Do(s, Preempt).ready == s.ready[1..] + [s.running];
    }
  }

  lemma {:induction false} MoreActions(x: System, t: nat, actions: seq<Action>, m: nat, n: nat)
    requires AllowedRun(x, actions) && HolderRuns(x, t, actions, m) && m <= n
    ensures HolderRuns(x, t, actions, n)
    decreases |actions|
  {
    hide Act;
    if Act(x, actions[0]).sched.running != t { MoreActions(Act(x, actions[0]), t, actions[1..], m - 1, n - 1); }
  }
}
