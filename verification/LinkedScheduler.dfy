/** The scheduler's two linked queues, relinked in place, against the queues they represent. */
module LinkedScheduler {
  import opened Scheduling

  class Thread {
    const id: nat

    constructor (id: nat)
      ensures this.id == id
    {
      this.id := id;
    }
  }

  class TaskNode {
    const thread: Thread
    var next: TaskNode?

    constructor (thread: Thread)
      ensures this.thread == thread && next == null
    {
      this.thread := thread;
      next := null;
    }
  }

  /** `nodes` is the chain of nodes from `head` to the end of the list. */
  ghost predicate Chain(head: TaskNode?, nodes: seq<TaskNode>)
    reads nodes
  {
    && head == (if nodes == [] then null else nodes[0])
    && (forall i {:trigger nodes[i].next} | 0 <= i < |nodes| - 1 :: nodes[i].next == nodes[i + 1])
    && (nodes != [] ==> nodes[|nodes| - 1].next == null)
    && Distinct(nodes)
  }

  ghost predicate Disjoint(a: seq<TaskNode>, b: seq<TaskNode>) {
    forall i, j | 0 <= i < |a| && 0 <= j < |b| :: a[i] != b[j]
  }

  lemma ChainTail(head: TaskNode, nodes: seq<TaskNode>)
    requires nodes != [] && Chain(head, nodes)
    ensures Chain(head.next, nodes[1..])
  {
    assert forall i | 0 <= i < |nodes[1..]| :: nodes[1..][i] == nodes[i + 1];
  }

  lemma ChainCons(head: TaskNode, tail: seq<TaskNode>)
    requires Chain(head.next, tail) && head !in tail
    ensures Chain(head, [head] + tail)
  {
    var nodes := [head] + tail;
    assert forall i | 0 < i < |nodes| :: nodes[i] == tail[i - 1];
  }

  ghost function Threads(nodes: seq<TaskNode>): seq<Thread> {
    seq(|nodes|, i requires 0 <= i < |nodes| => nodes[i].thread)
  }

  lemma HeadApart(head: TaskNode?, ready: seq<TaskNode>, blocked: seq<TaskNode>)
    requires blocked != [] && Chain(head, blocked) && Disjoint(ready, blocked)
    ensures head != null && head == blocked[0] && head !in ready && head !in blocked[1..]
  {
    assert forall i | 0 <= i < |ready| :: ready[i] != blocked[0];
    forall i | 0 <= i < |blocked[1..]| ensures blocked[1..][i] != blocked[0] {
      assert blocked[1..][i] == blocked[i + 1];
    }
  }

  /** With the first blocked node in front of the ready ones, the two lists still share none. */
  lemma MovedDisjoint(ready: seq<TaskNode>, blocked: seq<TaskNode>)
    requires blocked != [] && Disjoint(ready, blocked) && blocked[0] !in blocked[1..]
    ensures Disjoint([blocked[0]] + ready, blocked[1..])
  {
    var rest, all := blocked[1..], [blocked[0]] + ready;
    forall i, j | 0 <= i < |all| && 0 <= j < |rest| ensures all[i] != rest[j] {
      if i == 0 {
        assert rest[j] in rest;
      } else {
        assert all[i] == ready[i - 1] && rest[j] == blocked[j + 1];
      }
    }
  }

  /** And they hold the same nodes between them. */
  lemma MovedNodes(ready: seq<TaskNode>, blocked: seq<TaskNode>)
    requires blocked != []
    ensures (set n | n in [blocked[0]] + ready) + (set n | n in blocked[1..])
      == (set n | n in ready) + (set n | n in blocked)
  {
    assert blocked == [blocked[0]] + blocked[1..];
  }

  lemma MovedThreads(ready: seq<TaskNode>, blocked: seq<TaskNode>)
    requires blocked != []
    ensures |Threads(blocked)| == |blocked|
    ensures Threads([blocked[0]] + ready) == [Threads(blocked)[0]] + Threads(ready)
    ensures Threads(blocked[1..]) == Threads(blocked)[1..]
  {
  }

  /** The queue without its first thread of that id. */
  ghost function WithoutId(q: seq<Thread>, id: nat): seq<Thread> {
    if q == [] then []
    else if q[0].id == id then q[1..]
    else [q[0]] + WithoutId(q[1..], id)
  }

  /** On threads with different ids it is the removal that the scheduling steps use. */
  lemma {:induction false} WithoutIdIsWithout(q: seq<Thread>, t: Thread)
    requires forall x | x in q :: x.id == t.id ==> x == t
    ensures WithoutId(q, t.id) == Without(q, t)
  {
    if q != [] {
      assert q[0] in q;
      WithoutIdIsWithout(q[1..], t);
    }
  }

  lemma {:induction false} WithoutIdAt(q: seq<Thread>, id: nat, i: nat)
    requires i < |q| && q[i].id == id && forall j | 0 <= j < i :: q[j].id != id
    ensures WithoutId(q, id) == q[..i] + q[i + 1..]
  {
    if i > 0 {
      WithoutIdAt(q[1..], id, i - 1);
      assert q[..i] == [q[0]] + q[1..][..i - 1];
      assert q[1..][i..] == q[i + 1..];
    }
  }

  lemma {:induction false} WithoutIdAbsent(q: seq<Thread>, id: nat)
    requires forall j | 0 <= j < |q| :: q[j].id != id
    ensures WithoutId(q, id) == q
  {
    if q != [] { WithoutIdAbsent(q[1..], id); }
  }

  class Scheduler {
    var queueSize: nat
    var blockedQueueSize: nat
    var queue: TaskNode?
    var blockedQueue: TaskNode?
    /** The global that the context switch sets: the thread on the processor. */
    var current: Thread
    ghost var readyNodes: seq<TaskNode>
    ghost var blockedNodes: seq<TaskNode>

    ghost function Nodes(): set<object>
      reads this
    {
      (set n | n in readyNodes) + (set n | n in blockedNodes)
    }

    /** Both lists are finite, share no node, and have as many nodes as their counters say. */
    ghost predicate Valid()
      reads this, Nodes()
    {
      && Chain(queue, readyNodes) && Chain(blockedQueue, blockedNodes)
      && queueSize == |readyNodes| && blockedQueueSize == |blockedNodes|
      && Disjoint(readyNodes, blockedNodes)
    }

    ghost function Value(): Sched<Thread>
      reads this
    {
      Sched(current, Threads(readyNodes), Threads(blockedNodes))
    }

    constructor (current: Thread)
      ensures Valid() && fresh(Nodes()) && Value() == Sched(current, [], [])
    {
      this.current := current;
      queueSize, blockedQueueSize := 0, 0;
      queue, blockedQueue := null, null;
      readyNodes, blockedNodes := [], [];
    }

    /** Walks to the last node of a non-empty chain and hangs a new node there. */
    static method Append(head: TaskNode, thread: Thread, ghost nodes: seq<TaskNode>) returns (node: TaskNode)
      requires nodes != [] && Chain(head, nodes)
      modifies nodes[|nodes| - 1]
      ensures fresh(node) && node.thread == thread && Chain(head, nodes + [node])
    {
      var temp := head;
      ghost var i := 0;
      while temp.next != null
        invariant 0 <= i < |nodes| && temp == nodes[i] && Chain(head, nodes)
        decreases |nodes| - i
      {
        temp := temp.next;
        i := i + 1;
      }
      node := new TaskNode(thread);
      temp.next := node;
    }

    /** Puts the thread at the end of the ready queue. */
    method Enqueue(thread: Thread)
      requires Valid()
      modifies this`queueSize, this`queue, this`readyNodes, readyNodes
      ensures Valid() && fresh(Nodes() - old(Nodes()))
      ensures Value() == old(Value()).(ready := old(Value()).ready + [thread])
    {
      if queueSize == 0 {
        queue := new TaskNode(thread);
        readyNodes := [queue];
      } else {
        var node := Append(queue, thread, readyNodes);
        readyNodes := readyNodes + [node];
      }
      queueSize := queueSize + 1;
    }

    /** Puts the thread at the end of the queue of disk waiters. */
    method EnqueueBlocked(thread: Thread)
      requires Valid()
      modifies this`blockedQueueSize, this`blockedQueue, this`blockedNodes, blockedNodes
      ensures Valid() && fresh(Nodes() - old(Nodes()))
      ensures Value() == old(Value()).(blocked := old(Value()).blocked + [thread])
    {
      if blockedQueueSize == 0 {
        blockedQueue := new TaskNode(thread);
        blockedNodes := [blockedQueue];
      } else {
        var node := Append(blockedQueue, thread, blockedNodes);
        blockedNodes := blockedNodes + [node];
      }
      blockedQueueSize := blockedQueueSize + 1;
    }

    method ResumeBlocked(thread: Thread)
      requires Valid()
      modifies this, blockedNodes
      ensures Valid() && fresh(Nodes() - old(Nodes()))
      ensures Value() == old(Value()).(blocked := old(Value()).blocked + [thread])
    {
      EnqueueBlocked(thread);
    }

    method Add(thread: Thread)
      requires Valid()
      modifies this, readyNodes
      ensures Valid() && fresh(Nodes() - old(Nodes()))
      ensures Value() == old(Value()).(ready := old(Value()).ready + [thread])
    {
      Enqueue(thread);
    }

    /** Queues the thread, then moves the first disk waiter's node to the front of the ready queue. */
    method Resume(thread: Thread)
      requires Valid()
      modifies this, Nodes()
      ensures Valid() && fresh(Nodes() - old(Nodes()))
      ensures Value() == Scheduling.Resume(old(Value()), thread)
    {
      Enqueue(thread);
      if blockedQueueSize > 0 {
        MoveFirstBlocked();
      }
      assert Value() == Scheduling.Resume(old(Value()), thread);
    }

    method MoveFirstBlocked()
      requires Valid() && blockedQueueSize > 0
      modifies this`queue, this`queueSize, this`readyNodes
      modifies this`blockedQueue, this`blockedQueueSize, this`blockedNodes, blockedNodes
      ensures Valid() && Nodes() == old(Nodes())
      ensures Value() == Sched(old(current), [old(Value()).blocked[0]] + old(Value()).ready, old(Value()).blocked[1..])
    {
      hide Chain, Disjoint, Threads;
      HeadApart(blockedQueue, readyNodes, blockedNodes);
      MovedDisjoint(readyNodes, blockedNodes);
      MovedNodes(readyNodes, blockedNodes);
      MovedThreads(readyNodes, blockedNodes);
      ChainTail(blockedQueue, blockedNodes);
      var tn := blockedQueue;
      blockedQueue := blockedQueue.next;
      blockedQueueSize := blockedQueueSize - 1;
      tn.next := queue;
      queue := tn;
      queueSize := queueSize + 1;
      assert Chain(blockedQueue, blockedNodes[1..]) && Chain(tn.next, readyNodes);
      ChainCons(tn, readyNodes);
      readyNodes, blockedNodes := [tn] + readyNodes, blockedNodes[1..];
    }

    /** Runs the head of the ready queue, if any. */
    method Yield()
      requires Valid()
      modifies this
      ensures Valid() && Nodes() <= old(Nodes())
      ensures Value() == Scheduling.Yield(old(Value()))
    {
      if queueSize > 0 {
        var t := queue.thread;
        ChainTail(queue, readyNodes);
        queue := queue.next;
        queueSize := queueSize - 1;
        readyNodes := readyNodes[1..];
        current := t;
        assert Threads(readyNodes) == Threads(old(readyNodes))[1..];
      }
    }

    /** Unlinks the first ready node whose thread has the given thread's id, if any; then yields. */
    method Terminate(thread: Thread)
      requires Valid()
      modifies this, readyNodes
      ensures Valid() && Nodes() <= old(Nodes())
      ensures Value() == Scheduling.Yield(old(Value()).(ready := WithoutId(old(Value()).ready, thread.id)))
    {
      if queueSize > 0 {
        var temp := queue;
        if temp.thread.id == thread.id {
          ChainTail(temp, readyNodes);
          queue := temp.next;
          queueSize := queueSize - 1;
          readyNodes := readyNodes[1..];
          assert Threads(readyNodes) == Threads(old(readyNodes))[1..];
        } else {
          UnlinkAfter(temp, thread.id);
        }
      }
      Yield();
    }

    /** Takes the node after `temp`, at position `i`, out of the ready queue. */
    method UnlinkNext(temp: TaskNode, ghost i: nat)
      requires Valid() && i + 1 < |readyNodes| && temp == readyNodes[i]
      modifies this`queueSize, this`readyNodes, temp
      ensures Valid() && Nodes() <= old(Nodes())
      ensures Value() == old(Value()).(ready := old(Value()).ready[..i + 1] + old(Value()).ready[i + 2..])
    {
      ghost var was := Threads(readyNodes);
      var tn := temp.next;
      temp.next := tn.next;
      queueSize := queueSize - 1;
      readyNodes := readyNodes[..i + 1] + readyNodes[i + 2..];
      assert Threads(readyNodes) == was[..i + 1] + was[i + 2..];
    }

    /** The walk of terminate past a head that does not match. */
    method UnlinkAfter(head: TaskNode, id: nat)
      requires Valid() && readyNodes != [] && head == readyNodes[0] && head.thread.id != id
      modifies this`queueSize, this`readyNodes, readyNodes
      ensures Valid() && Nodes() <= old(Nodes())
      ensures Value() == old(Value()).(ready := WithoutId(old(Value()).ready, id))
    {
      ghost var was := Threads(readyNodes);
      var temp := head;
      ghost var i := 0;
      while temp.next != null
        invariant 0 <= i < |readyNodes| && temp == readyNodes[i] && readyNodes == old(readyNodes)
        invariant forall j | 0 <= j <= i :: was[j].id != id
        invariant Valid() && Value() == old(Value())
        decreases |readyNodes| - i
      {
        if temp.next.thread.id == id {
          WithoutIdAt(was, id, i + 1);
          UnlinkNext(temp, i);
          return;
        }
        temp := temp.next;
        i := i + 1;
      }
      WithoutIdAbsent(was, id);
    }

    // ----- the paired steps -----

    /** Every thread known here has its own id. */
    ghost predicate OwnIds()
      reads this
    {
      forall x, y | x in Value().All() && y in Value().All() :: x.id == y.id ==> x == y
    }

    /** The timer's and a waiter's pair: queue the running thread, then yield. */
    method PreemptCurrent()
      requires Valid()
      modifies this, Nodes()
      ensures Valid() && Value() == Do(old(Value()), Preempt)
    {
      Resume(current);
      Yield();
    }

    /** The disk wait's pair. */
    method BlockCurrent()
      requires Valid()
      modifies this, Nodes()
      ensures Valid() && Value() == Do(old(Value()), Block)
    {
      ResumeBlocked(current);
      Yield();
    }

    /** Thread shutdown. */
    method DropCurrent()
      requires Valid() && OwnIds()
      modifies this, Nodes()
      ensures Valid() && Value() == Do(old(Value()), Drop)
    {
      assert forall x | x in Value().ready :: x in Value().All();
      assert current in Value().All();
      WithoutIdIsWithout(Value().ready, current);
      Terminate(current);
    }
  }
}
