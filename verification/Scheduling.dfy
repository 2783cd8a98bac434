/** The scheduler as steps over a running thread, a ready queue and a queue of threads waiting for
    the disk. Each step pairs a queueing call with the yield that follows it. */
module Scheduling {

  datatype Sched<T> = Sched(running: T, ready: seq<T>, blocked: seq<T>) {
    /** Everyone the scheduler knows of. */
    function All(): seq<T> {
      [running] + ready + blocked
    }
  }

  /** At most the first element. */
  function First<T>(q: seq<T>): seq<T> {
    if q == [] then [] else [q[0]]
  }

  function Rest<T>(q: seq<T>): seq<T> {
    if q == [] then [] else q[1..]
  }

  /** yield: the head of the ready queue runs; with no one ready the caller goes on running. */
  function Yield<T>(s: Sched<T>): Sched<T> {
    if s.ready == [] then s else Sched(s.ready[0], s.ready[1..], s.blocked)
  }

  /** resume: `t` joins the back, and the first disk waiter jumps to the front. */
  function Resume<T>(s: Sched<T>, t: T): Sched<T> {
    Sched(s.running, First(s.blocked) + s.ready + [t], Rest(s.blocked))
  }

  function ResumeBlocked<T>(s: Sched<T>, t: T): Sched<T> {
    s.(blocked := s.blocked + [t])
  }

  /** The queue without its first occurrence of `t`. */
  function Without<T(==)>(q: seq<T>, t: T): seq<T> {
    if q == [] then []
    else if q[0] == t then q[1..]
    else [q[0]] + Without(q[1..], t)
  }

  datatype Step = Preempt | Block | Drop

  function Do<T(==)>(s: Sched<T>, step: Step): Sched<T> {
    match step
    case Preempt => Yield(Resume(s, s.running))
    case Block => Yield(ResumeBlocked(s, s.running))
    case Drop => Yield(s.(ready := Without(s.ready, s.running)))
  }

  function Run<T(==)>(s: Sched<T>, steps: seq<Step>): Sched<T>
    decreases |steps|
  {
    if steps == [] then s else Run(Do(s, steps[0]), steps[1..])
  }

  // ----- where each thread is -----

  ghost predicate Distinct<T>(q: seq<T>) {
    forall i, j | 0 <= i < j < |q| :: q[i] != q[j]
  }

  /** Each thread is in exactly one of: running, ready, blocked; and there once. */
  ghost predicate Placed<T>(s: Sched<T>) {
    Distinct(s.All())
  }

  lemma {:induction false} WithoutAbsent<T>(q: seq<T>, t: T)
    requires t !in q
    ensures Without(q, t) == q
  {
    if q != [] { WithoutAbsent(q[1..], t); }
  }

  lemma RunningNotReady<T>(s: Sched<T>)
    requires Placed(s)
    ensures s.running !in s.ready && s.running !in s.blocked
  {
    assert s.All()[1..] == s.ready + s.blocked;
    HeadDistinct(s.All());
  }

  /** To be free of repetition is to hold every element once. */
  lemma {:induction false} DistinctByCount<T>(q: seq<T>)
    ensures Distinct(q) <==> forall x | x in q :: multiset(q)[x] == 1
    decreases |q|
  {
    if q != [] {
      var r := q[1..];
      DistinctByCount(r);
      assert q == [q[0]] + r;
      assert multiset(q) == multiset{q[0]} + multiset(r);
      assert Distinct(q) <==> q[0] !in r && Distinct(r) by { HeadDistinct(q); }
      forall x
        ensures x in q <==> x == q[0] || x in r
        ensures multiset(q)[x] == multiset(r)[x] + if x == q[0] then 1 else 0
      {
      }
      assert q[0] in r <==> multiset(r)[q[0]] > 0;
    }
  }

  lemma HeadDistinct<T>(q: seq<T>)
    requires q != []
    ensures Distinct(q) <==> q[0] !in q[1..] && Distinct(q[1..])
  {
    var r := q[1..];
    if Distinct(q) {
      assert forall i | 0 <= i < |r| :: r[i] == q[i + 1];
    }
    if q[0] !in r && Distinct(r) {
      assert forall j | 0 < j < |q| :: q[j] == r[j - 1];
    }
  }

  lemma SameCountsDistinct<T>(q: seq<T>, q': seq<T>)
    requires multiset(q) == multiset(q')
    ensures Distinct(q) <==> Distinct(q')
  {
    hide Distinct;
    DistinctByCount(q);
    DistinctByCount(q');
    assert forall x :: x in q <==> x in multiset(q);
    assert forall x :: x in q' <==> x in multiset(q');
  }

  /** A preemption keeps everyone, in one place each. */
  lemma PreemptKeeps<T>(s: Sched<T>)
    ensures multiset(Do(s, Preempt).All()) == multiset(s.All())
    ensures Placed(s) ==> Placed(Do(s, Preempt))
  {
    var s' := Do(s, Preempt);
    PreemptAll(s);
    SameCountsDistinct(s.All(), s'.All());
  }

  lemma PreemptAll<T>(s: Sched<T>)
    ensures multiset(Do(s, Preempt).All()) == multiset(s.All())
  {
    if s.blocked == [] {
      if s.ready != [] {
        assert Do(s, Preempt).All() == [s.ready[0]] + s.ready[1..] + [s.running] + [];
        assert s.All() == [s.running] + [] + ([s.ready[0]] + s.ready[1..]);
        Exchange(s.ready[0], s.running, s.ready[1..], [], [], s.ready[1..]);
      }
    } else {
      PreemptBlocked(s);
      assert s.All() == [s.running] + s.ready + ([s.blocked[0]] + s.blocked[1..]);
      Exchange(s.blocked[0], s.running, s.ready, s.blocked[1..], s.ready, s.blocked[1..]);
    }
  }

  /** With someone blocked, the first of them runs next and the caller goes to the back. */
  lemma PreemptBlocked<T>(s: Sched<T>)
    requires s.blocked != []
    ensures Do(s, Preempt) == Sched(s.blocked[0], s.ready + [s.running], s.blocked[1..])
    ensures Do(s, Preempt).All() == [s.blocked[0]] + s.ready + [s.running] + s.blocked[1..]
  {
    assert ([s.blocked[0]] + s.ready + [s.running])[1..] == s.ready + [s.running];
  }

  lemma Exchange<T>(x: T, y: T, a: seq<T>, b: seq<T>, c: seq<T>, d: seq<T>)
    requires multiset(a) + multiset(b) == multiset(c) + multiset(d)
    ensures multiset([x] + a + [y] + b) == multiset([y] + c + ([x] + d))
  {
    var m := multiset(a) + multiset(b);
    assert multiset([x] + a + [y] + b) == multiset{x} + multiset{y} + m;
    assert multiset([y] + c + ([x] + d)) == multiset{y} + multiset{x} + (multiset(c) + multiset(d));
  }

  /** A thread that goes to wait for the disk joins the back of the blocked queue. It is in one place
      afterwards exactly when someone was ready; otherwise it keeps the processor too, once in each place. */
  lemma BlockKeepsExactlyWhenReady<T>(s: Sched<T>)
    requires Placed(s)
    ensures Placed(Do(s, Block)) <==> s.ready != []
    ensures Do(s, Block).blocked == s.blocked + [s.running]
    ensures s.ready != [] ==> multiset(Do(s, Block).All()) == multiset(s.All())
    ensures s.ready == [] ==> Do(s, Block).running == s.running && Do(s, Block).ready == []
    ensures s.ready == [] ==> multiset(Do(s, Block).All()) == multiset(s.All()) + multiset{s.running}
  {
    var s' := Do(s, Block);
    if s.ready == [] {
      assert s'.All()[0] == s.running == s'.All()[1 + |s.blocked|];
      assert s'.All() == s.All() + [s.running];
    } else {
      assert s.ready == [s.ready[0]] + s.ready[1..];
      assert multiset(s'.All()) == multiset(s.All());
      SameCountsDistinct(s.All(), s'.All());
    }
  }

  /** A thread that terminates is gone exactly when someone was ready; nobody else is touched, and the
      disk waiters stay in their order. With no one ready nothing changes at all: the thread lives on. */
  lemma DropRemovesExactlyWhenReady<T>(s: Sched<T>)
    requires Placed(s)
    ensures s.running !in Do(s, Drop).All() <==> s.ready != []
    ensures s.ready != [] ==> multiset(Do(s, Drop).All()) == multiset(s.All()) - multiset{s.running}
    ensures s.ready == [] ==> Do(s, Drop) == s && multiset(Do(s, Drop).All()) == multiset(s.All())
    ensures Do(s, Drop).blocked == s.blocked
    ensures Placed(Do(s, Drop))
  {
    hide Distinct;
    RunningNotReady(s);
    WithoutAbsent(s.ready, s.running);
    HeadDistinct(s.All());
    var s' := Do(s, Drop);
    assert s.All()[1..] == s.ready + s.blocked;
    if s.ready != [] {
      assert s.ready == [s.ready[0]] + s.ready[1..];
      assert s'.All() == s.ready + s.blocked;
      assert s.All() == [s.running] + s'.All();
    }
  }

  // ----- bounded waiting -----

  /** How many more steps a thread at position `p` of the ready queue can be made to wait. */
  function Patience<T(==)>(s: Sched<T>, p: nat): nat {
    2 * p + |s.blocked|
  }

  /** After any one step, a thread that was ready either runs, or is at a ready position with strictly
      less patience: a jump to the front costs a blocked thread, anything else a place in the queue. */
  lemma StepMovesUp<T>(s: Sched<T>, p: nat, step: Step) returns (p': nat)
    requires Placed(s) && p < |s.ready|
    ensures var s' := Do(s, step);
      && Placed(s')
      && (s'.running == s.ready[p] ||
          (p' < |s'.ready| && s'.ready[p'] == s.ready[p] && Patience(s', p') < Patience(s, p)))
  {
    hide Placed, Do, Patience;
    match step
    case Preempt => p' := PreemptMovesUp(s, p);
    case Block => p' := ShrinkMovesUp(s, p, Block);
    case Drop => p' := ShrinkMovesUp(s, p, Drop);
  }

  lemma PreemptMovesUp<T>(s: Sched<T>, p: nat) returns (p': nat)
    requires Placed(s) && p < |s.ready|
    ensures var s' := Do(s, Preempt);
      && Placed(s')
      && (s'.running == s.ready[p] ||
          (p' < |s'.ready| && s'.ready[p'] == s.ready[p] && Patience(s', p') < Patience(s, p)))
  {
    hide Placed;
    PreemptKeeps(s);
    p' := p;
    if s.blocked == [] {
      p' := if p > 0 then p - 1 else 0;
    } else {
      PreemptBlocked(s);
    }
  }

  /** A thread that blocks or ends with someone ready: the head runs and the others move up. */
  lemma ShrinkMovesUp<T>(s: Sched<T>, p: nat, step: Step) returns (p': nat)
    requires Placed(s) && p < |s.ready| && step != Preempt
    ensures var s' := Do(s, step);
      && Placed(s')
      && (s'.running == s.ready[p] ||
          (p' < |s'.ready| && s'.ready[p'] == s.ready[p] && Patience(s', p') < Patience(s, p)))
  {
    hide Placed;
    p' := if p > 0 then p - 1 else 0;
    if step == Block {
      BlockKeepsExactlyWhenReady(s);
    } else {
      DropRemovesExactlyWhenReady(s);
      RunningNotReady(s);
      WithoutAbsent(s.ready, s.running);
    }
  }

  /** `t` is put on the processor by one of the first `n` steps. */
  ghost predicate DispatchedWithin<T>(s: Sched<T>, t: T, steps: seq<Step>, n: nat)
    decreases |steps|
  {
    && n > 0 && steps != []
    && (Do(s, steps[0]).running == t || DispatchedWithin(Do(s, steps[0]), t, steps[1..], n - 1))
  }

  /** Bounded waiting, however many threads jump the queue: a thread at ready position `p` with `b`
      threads blocked runs within `2p + b + 1` steps, whatever the steps are. */
  lemma {:induction false} ReadyThreadRuns<T>(s: Sched<T>, p: nat, steps: seq<Step>)
    requires Placed(s) && p < |s.ready| && |steps| > Patience(s, p)
    ensures DispatchedWithin(s, s.ready[p], steps, 2 * p + |s.blocked| + 1)
    decreases |steps|
  {
    hide Do, Placed;
    var p' := StepMovesUp(s, p, steps[0]);
    var s' := Do(s, steps[0]);
    if s'.running != s.ready[p] {
      ReadyThreadRuns(s', p', steps[1..]);
      MoreTime(s', s.ready[p], steps[1..], Patience(s', p') + 1, Patience(s, p));
    }
  }

  lemma {:induction false} MoreTime<T>(s: Sched<T>, t: T, steps: seq<Step>, m: nat, n: nat)
    requires DispatchedWithin(s, t, steps, m) && m <= n
    ensures DispatchedWithin(s, t, steps, n)
    decreases |steps|
  {
    hide Do;
    if Do(s, steps[0]).running != t { MoreTime(Do(s, steps[0]), t, steps[1..], m - 1, n - 1); }
  }

  /** The schedule that keeps a ready thread waiting longest. */
  function WorstSchedule(p: nat, b: nat): seq<Step>
    decreases 2 * p + b
  {
    if b > 0 then [Preempt] + WorstSchedule(p, b - 1)
    else if p > 0 then [Block] + WorstSchedule(p - 1, 1)
    else []
  }

  /** The bound cannot be improved: under that schedule the thread is still waiting after `2p + b` steps. */
  lemma {:induction false} BoundIsTight<T>(s: Sched<T>, p: nat)
    requires Placed(s) && p < |s.ready|
    ensures |WorstSchedule(p, |s.blocked|)| == 2 * p + |s.blocked|
    ensures forall n: nat :: !DispatchedWithin(s, s.ready[p], WorstSchedule(p, |s.blocked|), n)
    decreases 2 * p + |s.blocked|
  {
    if Patience(s, p) > 0 {
      var step := if |s.blocked| > 0 then Preempt else Block;
      var s' := Do(s, step);
      var p' := if |s.blocked| > 0 then p else p - 1;
      WaitsOn(s, p);
      BoundIsTight(s', p');
      var steps := WorstSchedule(p, |s.blocked|);
      assert steps[0] == step && steps[1..] == WorstSchedule(p', |s'.blocked|);
      forall n: nat
        ensures !DispatchedWithin(s, s.ready[p], steps, n)
      {
        hide Do, WorstSchedule;
        if n > 0 { assert !DispatchedWithin(s', s'.ready[p'], steps[1..], n - 1); }
      }
    }
  }

  lemma WaitsOn<T>(s: Sched<T>, p: nat)
    requires Placed(s) && p < |s.ready| && Patience(s, p) > 0
    ensures var s' := Do(s, if |s.blocked| > 0 then Preempt else Block);
      var p' := if |s.blocked| > 0 then p else p - 1;
      && Placed(s') && p' < |s'.ready| && s'.ready[p'] == s.ready[p]
      && s'.running != s.ready[p]
      && |s'.blocked| == if |s.blocked| > 0 then |s.blocked| - 1 else 1
  {
    var s' := Do(s, if |s.blocked| > 0 then Preempt else Block);
    if |s.blocked| > 0 {
      PreemptKeeps(s);
      assert s.All()[1 + p] == s.ready[p] && s.All()[1 + |s.ready|] == s.blocked[0];
    } else {
      BlockKeepsExactlyWhenReady(s);
      assert s.All()[1 + p] == s.ready[p] && s.All()[1] == s.ready[0];
    }
  }

  // ----- blocked threads -----

  /** `h` is running or ready, and does nothing but give way to the timer when it runs. */
  ghost predicate Steady<T>(s: Sched<T>, h: T, steps: seq<Step>)
    decreases |steps|
  {
    && (h == s.running || h in s.ready)
    && (steps != [] ==>
          (s.running == h ==> steps[0] == Preempt) && Steady(Do(s, steps[0]), h, steps[1..]))
  }

  /** A preemption runs the first blocked thread and moves the others up; a thread that blocks or ends
      with someone ready leaves them in their places, and the ready queue shrinks. */
  lemma BlockedMovesUp<T>(s: Sched<T>, q: nat, step: Step)
    requires Placed(s) && q < |s.blocked| && (step == Preempt || s.ready != [])
    ensures var s' := Do(s, step);
      && Placed(s') && |s'.All()| <= |s.All()|
      && (if step == Preempt then
            if q == 0 then s'.running == s.blocked[q]
            else q - 1 < |s'.blocked| && s'.blocked[q - 1] == s.blocked[q] && |s'.ready| == |s.ready| + 1
          else q < |s'.blocked| && s'.blocked[q] == s.blocked[q] && |s'.ready| == |s.ready| - 1)
  {
    match step {
      case Preempt => PreemptKeeps(s);
      case Block => BlockKeepsExactlyWhenReady(s);
      case Drop =>
        DropRemovesExactlyWhenReady(s);
        RunningNotReady(s);
        WithoutAbsent(s.ready, s.running);
    }
  }

  lemma LessWaiting(q: nat, q': nat, n: nat, r: nat, r': nat)
    requires (q' == q && r' < r) || (q' == q - 1 && r' < n)
    ensures 0 <= q' * n + r' < q * n + r
  {
    if q' == q - 1 {
      assert q * n == q' * n + n;
    }
  }

  function Preempts(steps: seq<Step>): nat {
    if steps == [] then 0 else (if steps[0] == Preempt then 1 else 0) + Preempts(steps[1..])
  }

  /** Each thread that blocks or ends in the run finds someone ready. */
  ghost predicate SomeoneReady<T>(s: Sched<T>, steps: seq<Step>)
    decreases |steps|
  {
    steps != [] ==> (steps[0] == Preempt || s.ready != []) && SomeoneReady(Do(s, steps[0]), steps[1..])
  }

  /** The exact law for a blocked thread: while someone is ready whenever a thread blocks or ends, the one
      at blocked position `q` runs at the preemption number `q + 1`, and no sooner. */
  lemma {:induction false} BlockedRunsExactly<T>(s: Sched<T>, q: nat, steps: seq<Step>)
    requires Placed(s) && q < |s.blocked| && SomeoneReady(s, steps)
    ensures DispatchedWithin(s, s.blocked[q], steps, |steps|) <==> Preempts(steps) > q
    decreases |steps|
  {
    hide Do, Placed;
    if steps != [] {
      BlockedMovesUp(s, q, steps[0]);
      var s' := Do(s, steps[0]);
      if steps[0] != Preempt {
        StaysBlocked(s, q, steps[0]);
        BlockedRunsExactly(s', q, steps[1..]);
      } else if q > 0 {
        StaysBlocked(s, q, steps[0]);
        BlockedRunsExactly(s', q - 1, steps[1..]);
      }
    }
  }

  /** A thread that a step leaves blocked is not the one that runs. */
  lemma StaysBlocked<T>(s: Sched<T>, q: nat, step: Step)
    requires Placed(s) && q < |s.blocked| && (step == Preempt || s.ready != []) && (step == Preempt ==> q > 0)
    ensures Do(s, step).running != s.blocked[q]
  {
    hide Do, Placed;
    BlockedMovesUp(s, q, step);
    RunningNotReady(Do(s, step));
  }

  /** Blocked threads are not stranded: with a steady thread and at most `n` threads in all, the one
      at blocked position `q` runs within `q * n + |ready| + 1` steps. */
  lemma {:induction false} BlockedThreadRuns<T>(s: Sched<T>, q: nat, h: T, n: nat, steps: seq<Step>)
    requires Placed(s) && q < |s.blocked| && Steady(s, h, steps)
    requires |s.All()| <= n && |steps| > q * n + |s.ready|
    ensures DispatchedWithin(s, s.blocked[q], steps, q * n + |s.ready| + 1)
    decreases |steps|
  {
    hide Do, Placed;
    assert q * n >= 0;
    BlockedMovesUp(s, q, steps[0]);
    var s' := Do(s, steps[0]);
    if s'.running != s.blocked[q] {
      var q' := if steps[0] == Preempt then q - 1 else q;
      LessWaiting(q, q', n, |s.ready|, |s'.ready|);
      BlockedThreadRuns(s', q', h, n, steps[1..]);
      MoreTime(s', s.blocked[q], steps[1..], q' * n + |s'.ready| + 1, q * n + |s.ready|);
    }
  }

  /** Without one they can be stranded: once the last thread on the processor waits for the disk with
      no one ready, however often it does so, those blocked stay exactly where they are. */
  lemma {:induction false} StrandedWithoutSteady<T>(s: Sched<T>, n: nat)
    requires s.ready == []
    ensures var s' := Run(s, seq(n, _ => Block));
      s'.ready == [] && s'.running == s.running && s.blocked <= s'.blocked
    decreases n
  {
    if n > 0 {
      var steps := seq(n, _ => Block);
      assert steps[1..] == seq(n - 1, _ => Block);
      StrandedWithoutSteady(Do(s, Block), n - 1);
    }
  }
}
