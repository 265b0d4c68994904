/**
  The multi-level feedback queue of `kernel/task/sched.c` on one CPU: what each scheduler
  operation does to the run queues, the running thread, levels and time quanta.
 */
module SchedState {

  type Tid = nat

  const MLFQ_LEVELS: nat := 4
  const BOOST_PERIOD: nat := 50

  function Quantum(level: nat): nat { if level == 0 then 1 else if level == 1 then 2 else if level == 2 then 4 else 8 }

  datatype Status = Running | Ready | Blocked | Inactive | Terminated

  datatype Thread = Thread(status: Status, level: nat, quantum: int)

  /** `halted`: the CPU stopped for want of a runnable thread. */
  datatype Sched = Sched(runq: seq<seq<Tid>>, cur: Tid, threads: map<Tid, Thread>, ticks: nat, halted: bool)

  // ---- sched_pick -------------------------------------------------------------------

  /** The first non-empty level from `l` on. */
  function FirstLevel(runq: seq<seq<Tid>>, l: nat): (r: nat)
    requires l <= |runq|
    ensures l <= r <= |runq| && (forall k :: l <= k < r ==> runq[k] == []) && (r < |runq| ==> runq[r] != [])
    decreases |runq| - l
  {
    if l == |runq| || runq[l] != [] then l else FirstLevel(runq, l + 1)
  }

  predicate Runnable(runq: seq<seq<Tid>>) { FirstLevel(runq, 0) < |runq| }

  /** The head of the first non-empty queue runs next. */
  function Switch(s: Sched): Sched
    requires Runnable(s.runq)
  {
    var l := FirstLevel(s.runq, 0);
    var t := s.runq[l][0];
    s.(runq := s.runq[l := s.runq[l][1..]], cur := t, threads := SetStatus(s.threads, t, Running))
  }

  function SetStatus(threads: map<Tid, Thread>, t: Tid, status: Status): map<Tid, Thread> {
    if t in threads then threads[t := threads[t].(status := status)] else threads
  }

  // ---- the operations -----------------------------------------------------------------

  /** The running thread goes to the tail of `level` with a full quantum. */
  function Requeue(s: Sched, level: nat): Sched
    requires level < |s.runq|
  {
    s.(runq := s.runq[level := s.runq[level] + [s.cur]], threads := s.threads[s.cur := Thread(Ready, level, Quantum(level))])
  }

  function Raised(th: Thread): Thread { th.(level := 0, quantum := Quantum(0)) }

  function Flat(runq: seq<seq<Tid>>): seq<Tid>
    requires |runq| == MLFQ_LEVELS
  {
    runq[1] + runq[2] + runq[3]
  }

  /** sched_boost: everything to level 0, the lower queues behind the first. */
  function Boost(s: Sched): Sched
    requires |s.runq| == MLFQ_LEVELS
  {
    s.(runq := [s.runq[0] + Flat(s.runq), [], [], []],
       threads := map t | t in s.threads :: if t == s.cur || t in Flat(s.runq) then Raised(s.threads[t]) else s.threads[t])
  }

  predicate Boosts(s: Sched) { s.ticks % BOOST_PERIOD == BOOST_PERIOD - 1 }

  predicate Exhausts(s: Sched)
    requires s.cur in s.threads
  {
    s.threads[s.cur].status.Running? && s.threads[s.cur].quantum == 1
  }

  /** The accounting of a tick, before boost and switch. */
  function Charge(s: Sched): (r: Sched)
    requires |s.runq| == MLFQ_LEVELS && s.cur in s.threads
    ensures |r.runq| == MLFQ_LEVELS && r.cur == s.cur && r.ticks == s.ticks
  {
    var th := s.threads[s.cur];
    if !th.status.Running? then s
    else if Exhausts(s) then Requeue(s, if th.level < MLFQ_LEVELS - 1 then th.level + 1 else MLFQ_LEVELS - 1)
    else s.(threads := s.threads[s.cur := th.(quantum := th.quantum - 1)])
  }

  function Count(s: Sched): (r: Sched)
    requires |s.runq| == MLFQ_LEVELS
    ensures |r.runq| == MLFQ_LEVELS && r.cur == s.cur
  {
    var b := if Boosts(s) then Boost(s) else s;
    b.(ticks := s.ticks + 1)
  }

  /** sched_tick. */
  function Tick(s: Sched): Sched
    requires |s.runq| == MLFQ_LEVELS && s.cur in s.threads
  {
    var c := Count(Charge(s));
    if Exhausts(s) && Runnable(c.runq) then Switch(c) else c
  }

  /** sched_yield. */
  function Yield(s: Sched): Sched
    requires |s.runq| == MLFQ_LEVELS && s.cur in s.threads && s.threads[s.cur].level < MLFQ_LEVELS
  {
    var q := Requeue(s, s.threads[s.cur].level);
    if Runnable(q.runq) then Switch(q) else q
  }

  /** sched_block and sched_exit. */
  function Leave(s: Sched, status: Status): Sched
    requires s.cur in s.threads
  {
    var b := s.(threads := SetStatus(s.threads, s.cur, status));
    if Runnable(b.runq) then Switch(b) else b.(halted := true)
  }

  /** sched_enqueue and sched_wakeup. */
  function Enqueue(s: Sched, t: Tid): Sched
    requires |s.runq| == MLFQ_LEVELS
  {
    s.(runq := s.runq[0 := s.runq[0] + [t]], threads := s.threads[t := Thread(Ready, 0, Quantum(0))])
  }

  // ---- the invariant ------------------------------------------------------------------

  predicate Listed(s: Sched, l: nat, t: Tid)
    requires l < |s.runq|
  {
    t in s.runq[l] <==> t in s.threads && s.threads[t].status.Ready? && s.threads[t].level == l
  }

  predicate ThreadOk(s: Sched, t: Tid)
    requires t in s.threads
  {
    var th := s.threads[t];
    && (th.status.Running? <==> t == s.cur && !s.halted)
    && (th.status.Ready? ==> th.level < MLFQ_LEVELS && th.quantum == Quantum(th.level))
    && (th.status.Running? ==> th.level < MLFQ_LEVELS && 1 <= th.quantum <= Quantum(th.level))
  }

  ghost predicate NoDup(q: seq<Tid>) { forall i, j :: 0 <= i < j < |q| ==> q[i] != q[j] }

  /** Every READY thread is on exactly one run queue, once, that of its level, with a full
      quantum; the running thread has at least one tick left. */
  ghost predicate Inv(s: Sched) {
    && |s.runq| == MLFQ_LEVELS && s.cur in s.threads
    && (forall l, t {:trigger Listed(s, l, t)} :: 0 <= l < MLFQ_LEVELS ==> Listed(s, l, t))
    && (forall t {:trigger ThreadOk(s, t)} :: t in s.threads ==> ThreadOk(s, t))
    && (forall l :: 0 <= l < MLFQ_LEVELS ==> NoDup(s.runq[l]))
  }

  /** The invariant between taking the running thread off the CPU and picking the next one. */
  ghost predicate Between(s: Sched) {
    && |s.runq| == MLFQ_LEVELS && s.cur in s.threads && !s.halted
    && (forall l, t {:trigger Listed(s, l, t)} :: 0 <= l < MLFQ_LEVELS ==> Listed(s, l, t))
    && (forall t {:trigger ThreadOff(s, t)} :: t in s.threads ==> ThreadOff(s, t))
    && (forall l :: 0 <= l < MLFQ_LEVELS ==> NoDup(s.runq[l]))
  }

  predicate ThreadOff(s: Sched, t: Tid)
    requires t in s.threads
  {
    var th := s.threads[t];
    !th.status.Running? && (th.status.Ready? ==> th.level < MLFQ_LEVELS && th.quantum == Quantum(th.level))
  }
}
