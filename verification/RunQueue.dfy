/** The circular run queue (src/sched/thread.c). */
module RunQueue {

  // ---------------------------------------------------------------- the queue as a sequence

  /** The live threads in running order, the running one first. */
  function Inserted<T>(ring: seq<T>, t: T): seq<T> {
    if ring == [] then [t] else [ring[0], t] + ring[1..]
  }

  function Yielded<T>(ring: seq<T>): (r: seq<T>)
    ensures |r| == |ring|
  {
    if |ring| <= 1 then ring else ring[1..] + [ring[0]]
  }

  /** Exit of the running thread; the last thread of all cannot leave. */
  function Exited<T>(ring: seq<T>): seq<T> {
    if |ring| <= 1 then ring else ring[1..]
  }

  function YieldTimes<T>(ring: seq<T>, k: nat): (r: seq<T>)
    ensures |r| == |ring|
  {
    if k == 0 then ring else Yielded(YieldTimes(ring, k - 1))
  }

  ghost predicate Distinct<T>(ring: seq<T>) {
    forall i, j :: 0 <= i < j < |ring| ==> ring[i] != ring[j]
  }

  /** After `k` yields the queue is rotated by `k`. */
  lemma {:induction false} YieldsRotate<T>(ring: seq<T>, k: nat)
    requires ring != [] && k <= |ring|
    ensures YieldTimes(ring, k) == ring[k..] + ring[..k]
  {
    if k > 0 {
      YieldsRotate(ring, k - 1);
      var r := ring[k - 1..] + ring[..k - 1];
      assert ring[..k] == ring[..k - 1] + [ring[k - 1]];
      if |ring| > 1 {
        assert r[1..] == ring[k..] + ring[..k - 1];
        assert Yielded(r) == ring[k..] + ring[..k - 1] + [ring[k - 1]];
      }
    }
  }

  /** Any n consecutive yields over a stable set of n threads run each thread exactly once and restore
      the queue: thread `ring[i]` runs after exactly one of the yields. */
  lemma RoundRobin<T>(ring: seq<T>, i: nat)
    requires ring != [] && Distinct(ring) && i < |ring|
    ensures var turn := if i == 0 then |ring| else i;
            forall k :: 1 <= k <= |ring| ==> (YieldTimes(ring, k)[0] == ring[i] <==> k == turn)
    ensures YieldTimes(ring, |ring|) == ring
  {
    var n := |ring|;
    forall k | 1 <= k <= n ensures YieldTimes(ring, k)[0] == ring[if k == n then 0 else k] {
      YieldsRotate(ring, k);
    }
    YieldsRotate(ring, n);
    assert ring[n..] + ring[..n] == ring;
  }

  /** A new thread runs after the next yield, and the others after it in their old order. */
  lemma NewThreadRunsNext<T>(ring: seq<T>, t: T, k: nat)
    requires ring != [] && 1 <= k <= |ring|
    ensures YieldTimes(Inserted(ring, t), k)[0] == if k == 1 then t else ring[k - 1]
  {
    YieldsRotate(Inserted(ring, t), k);
  }

  /** After an exit the next thread runs, and the others after it in their old order. */
  lemma ExitKeepsOrder<T>(ring: seq<T>, k: nat)
    requires k + 1 < |ring|
    ensures YieldTimes(Exited(ring), k)[0] == ring[k + 1]
  {
    YieldsRotate(Exited(ring), k);
  }

  // ---------------------------------------------------------------- runs

  datatype Op = Create(t: nat) | Yield | Exit

  /** Thread 0 is the bootstrap thread; it never exits, and new threads are new. */
  predicate OpOk(ring: seq<nat>, op: Op) {
    match op
    case Create(t) => t !in ring
    case Yield => true
    case Exit => ring != [] && ring[0] != 0
  }

  function Apply(ring: seq<nat>, op: Op): seq<nat> {
    match op
    case Create(t) => Inserted(ring, t)
    case Yield => Yielded(ring)
    case Exit => Exited(ring)
  }

  /** The set of live threads changes exactly as the operations say. */
  function LiveAfter(live: set<nat>, ring: seq<nat>, op: Op): set<nat> {
    match op
    case Create(t) => live + {t}
    case Yield => live
    case Exit => if ring == [] then live else live - {ring[0]}
  }

  ghost function Members(ring: seq<nat>): set<nat> {
    set t | t in ring
  }

  lemma StepIsExact(ring: seq<nat>, op: Op)
    requires Distinct(ring) && 0 in ring && OpOk(ring, op)
    ensures var next := Apply(ring, op);
            && Distinct(next) && 0 in next
            && Members(next) == LiveAfter(Members(ring), ring, op)
  {
    match op
    case Create(t) =>
      var next := Inserted(ring, t);
      assert ring == [ring[0]] + ring[1..];
      forall u ensures u in next <==> u in ring || u == t {
      }
    case Yield =>
      if |ring| > 1 {
        assert ring == [ring[0]] + ring[1..];
        forall u ensures u in Yielded(ring) <==> u in ring {
        }
      }
    case Exit =>
      assert ring == [ring[0]] + ring[1..];
      assert |ring| > 1;
      forall u ensures u in ring[1..] <==> u in ring && u != ring[0] {
      }
  }

  function Run(ops: seq<Op>): seq<nat> {
    if ops == [] then [0] else Apply(Run(ops[..|ops| - 1]), ops[|ops| - 1])
  }

  predicate RunOk(ops: seq<Op>) {
    ops == [] || (RunOk(ops[..|ops| - 1]) && OpOk(Run(ops[..|ops| - 1]), ops[|ops| - 1]))
  }

  function Live(ops: seq<Op>): set<nat> {
    if ops == [] then {0} else LiveAfter(Live(ops[..|ops| - 1]), Run(ops[..|ops| - 1]), ops[|ops| - 1])
  }

  /** Over every run of creations, yields and exits, the queue is one simple cycle through exactly the
      live threads. */
  lemma {:induction false} QueueHoldsLiveThreads(ops: seq<Op>)
    requires RunOk(ops)
    ensures Distinct(Run(ops)) && 0 in Run(ops) && Members(Run(ops)) == Live(ops)
  {
    if ops == [] {
      assert Run(ops)[0] == 0;
    } else {
      QueueHoldsLiveThreads(ops[..|ops| - 1]);
      StepIsExact(Run(ops[..|ops| - 1]), ops[|ops| - 1]);
    }
  }

  // ---------------------------------------------------------------- linked threads

  class Thread {
    var next: Thread?
    const kernelStackTop: nat

    constructor (kernelStackTop: nat)
      ensures this.kernelStackTop == kernelStackTop
    {
      this.kernelStackTop := kernelStackTop;
      next := null;
    }
  }

  class Scheduler {
    var current: Thread?
    /** TSS.rsp0 and the syscall entry's stack pointer. */
    var tssRsp0: nat
    var syscallRsp: nat
    ghost var ring: seq<Thread>

    /** Following `next` from `current` visits the ring once around. */
    ghost predicate Valid()
      reads this, ring
    {
      && Distinct(ring)
      && (current == null <==> ring == [])
      && (current != null ==> ring[0] == current)
      && (forall i :: 0 <= i < |ring| ==> ring[i].next == ring[if i + 1 == |ring| then 0 else i + 1])
    }

    constructor ()
      ensures Valid() && ring == []
    {
      current := null;
      tssRsp0, syscallRsp := 0, 0;
      ring := [];
    }

    /** sched_init. */
    method Init(bootstrap: Thread)
      requires Valid() && ring == []
      modifies this, bootstrap
      ensures Valid() && ring == [bootstrap]
    {
      bootstrap.next := bootstrap;
      current := bootstrap;
      ring := [bootstrap];
    }

    /** The new thread runs right after the current one. */
    method InsertQueue(t: Thread)
      requires Valid() && t !in ring
      modifies this, t, ring
      ensures Valid() && ring == Inserted(old(ring), t)
    {
      if current == null {
        t.next := t;
        current := t;
        ring := [t];
      } else {
        t.next := current.next;
        current.next := t;
        ring := [ring[0], t] + ring[1..];
      }
    }

    /** The next thread runs; both kernel stack pointers follow it unless it has no kernel stack. */
    method Yield()
      requires Valid()
      modifies this
      ensures Valid() && ring == Yielded(old(ring))
      ensures |ring| > 1 && current.kernelStackTop != 0 ==>
                tssRsp0 == current.kernelStackTop && syscallRsp == current.kernelStackTop
      ensures |ring| <= 1 || current.kernelStackTop == 0 ==> tssRsp0 == old(tssRsp0) && syscallRsp == old(syscallRsp)
    {
      var prev := current;
      assert prev != null ==> prev.next == ring[if 1 == |ring| then 0 else 1];
      if prev == null || prev.next == prev {
        assert |ring| <= 1;
        return;
      }
      assert |ring| > 1 && prev.next == ring[1];
      var next := prev.next;
      if next.kernelStackTop != 0 {
        tssRsp0 := next.kernelStackTop;
        syscallRsp := next.kernelStackTop;
      }
      current := next;
      ring := ring[1..] + [ring[0]];
    }

    /** The predecessor search terminates, exactly the caller is unlinked, and its successor runs. The
        stack pointers are not updated. */
    method Exit()
      requires Valid() && current != null
      modifies this, ring
      ensures Valid() && ring == Exited(old(ring))
      ensures tssRsp0 == old(tssRsp0) && syscallRsp == old(syscallRsp)
    {
      var me := current;
      var prev := me;
      ghost var k := 0;
      while prev.next != me
        invariant k < |ring| && prev == ring[k]
        invariant Valid() && ring == old(ring) && current == me
        invariant tssRsp0 == old(tssRsp0) && syscallRsp == old(syscallRsp)
        decreases |ring| - k
      {
        assert prev.next == ring[if k + 1 == |ring| then 0 else k + 1];
        prev := prev.next;
        k := k + 1;
      }
      assert ring[k].next == ring[if k + 1 == |ring| then 0 else k + 1];
      assert k == |ring| - 1;
      assert me.next == ring[if 1 == |ring| then 0 else 1];
      ghost var was := ring;
      prev.next := me.next;
      var next := me.next;
      current := next;
      ring := Exited(ring);
      if |was| == 1 {
        assert ring == [me] && me.next == me;
      } else {
        assert forall i :: 0 <= i < |ring| ==> ring[i] == was[i + 1];
        forall i | 0 <= i < |ring|
          ensures ring[i].next == ring[if i + 1 == |ring| then 0 else i + 1]
        {
          if i + 1 == |ring| {
            assert ring[i] == prev && prev.next == was[1];
          } else {
            assert was[i + 1] != prev && was[i + 1].next == was[i + 2];
          }
        }
      }
    }
  }
}
