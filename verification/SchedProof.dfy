/** Every scheduler operation keeps the invariant of module SchedState. */
module SchedProof {
  import opened SchedState

  lemma SwitchKeeps(s: Sched)
    requires Between(s) && Runnable(s.runq)
    ensures Inv(Switch(s)) && !Switch(s).halted
    ensures var l := FirstLevel(s.runq, 0); Switch(s).threads[Switch(s).cur].level == l
  {
    var s' := Switch(s);
    var l := FirstLevel(s.runq, 0);
    var n := s.runq[l][0];
    assert Listed(s, l, n) && ThreadOff(s, n);
    assert s.runq[l] == [n] + s.runq[l][1..];
    forall k, t: Tid | 0 <= k < MLFQ_LEVELS ensures Listed(s', k, t) {
      assert Listed(s, k, t);
    }
    forall t | t in s'.threads ensures ThreadOk(s', t) { assert ThreadOff(s, t); }
  }

  lemma RequeueKeeps(s: Sched, level: nat)
    requires Inv(s) && !s.halted && level < MLFQ_LEVELS
    ensures Between(Requeue(s, level)) && Runnable(Requeue(s, level).runq)
  {
    var s' := Requeue(s, level);
    assert ThreadOk(s, s.cur) && Listed(s, level, s.cur);
    assert s.cur in s'.runq[level];
    forall k, t: Tid | 0 <= k < MLFQ_LEVELS ensures Listed(s', k, t) { assert Listed(s, k, t); }
    forall t | t in s'.threads ensures ThreadOff(s', t) { assert t in s.threads ==> ThreadOk(s, t); }
  }

  lemma YieldKeeps(s: Sched)
    requires Inv(s) && !s.halted
    ensures s.threads[s.cur].level < MLFQ_LEVELS && Inv(Yield(s)) && !Yield(s).halted
  {
    assert ThreadOk(s, s.cur);
    RequeueKeeps(s, s.threads[s.cur].level);
    SwitchKeeps(Requeue(s, s.threads[s.cur].level));
  }

  lemma LeaveKeeps(s: Sched, status: Status)
    requires Inv(s) && !s.halted && !status.Running? && !status.Ready?
    ensures Inv(Leave(s, status))
  {
    var b := s.(threads := SetStatus(s.threads, s.cur, status));
    assert ThreadOk(s, s.cur);
    forall k, t: Tid | 0 <= k < MLFQ_LEVELS ensures Listed(b, k, t) { assert Listed(s, k, t); }
    forall t | t in b.threads ensures ThreadOff(b, t) { assert ThreadOk(s, t); }
    if Runnable(b.runq) {
      SwitchKeeps(b);
    } else {
      var s' := Leave(s, status);
      forall k, t: Tid | 0 <= k < MLFQ_LEVELS ensures Listed(s', k, t) { assert Listed(b, k, t); }
      forall t | t in s'.threads ensures ThreadOk(s', t) { assert ThreadOff(b, t); }
    }
  }

  predicate Wakeable(s: Sched, t: Tid) { t in s.threads && (s.threads[t].status.Blocked? || s.threads[t].status.Inactive?) }

  lemma EnqueueKeeps(s: Sched, t: Tid)
    requires Inv(s) && Wakeable(s, t)
    ensures Inv(Enqueue(s, t))
  {
    var s' := Enqueue(s, t);
    assert Listed(s, 0, t) && ThreadOk(s, t);
    forall k, u: Tid | 0 <= k < MLFQ_LEVELS ensures Listed(s', k, u) { assert Listed(s, k, u); }
    forall u | u in s'.threads ensures ThreadOk(s', u) { assert ThreadOk(s, u); }
  }

  // ---- boost ------------------------------------------------------------------------

  lemma BoostQueue(s: Sched, t: Tid)
    requires |s.runq| == MLFQ_LEVELS
    requires forall l, u {:trigger Listed(s, l, u)} :: 0 <= l < MLFQ_LEVELS ==> Listed(s, l, u)
    requires t in s.threads && s.threads[t].status.Ready? ==> s.threads[t].level < MLFQ_LEVELS
    ensures t in Flat(s.runq) <==> t in s.threads && s.threads[t].status.Ready? && 0 < s.threads[t].level
    ensures t in s.runq[0] + Flat(s.runq) <==> t in s.threads && s.threads[t].status.Ready?
  {
    assert Listed(s, 0, t) && Listed(s, 1, t) && Listed(s, 2, t) && Listed(s, 3, t);
  }

  lemma NoDupConcat(a: seq<Tid>, b: seq<Tid>)
    requires NoDup(a) && NoDup(b) && forall x :: x in a ==> x !in b
    ensures NoDup(a + b)
  {
    forall i, j | 0 <= i < j < |a + b| ensures (a + b)[i] != (a + b)[j] {
      if i < |a| <= j { assert a[i] in a; }
    }
  }

  lemma BoostNoDup(s: Sched)
    requires |s.runq| == MLFQ_LEVELS
    requires forall l, u {:trigger Listed(s, l, u)} :: 0 <= l < MLFQ_LEVELS ==> Listed(s, l, u)
    requires forall l :: 0 <= l < MLFQ_LEVELS ==> NoDup(s.runq[l])
    ensures NoDup(s.runq[0] + Flat(s.runq))
  {
    var q := s.runq;
    forall t: Tid
      ensures t in q[0] ==> t !in q[1] && t !in q[2] && t !in q[3]
      ensures t in q[3] ==> t !in q[1] && t !in q[2]
      ensures t in q[1] ==> t !in q[2]
    {
      assert Listed(s, 0, t) && Listed(s, 1, t) && Listed(s, 2, t) && Listed(s, 3, t);
    }
    NoDupConcat(q[1], q[2]);
    NoDupConcat(q[1] + q[2], q[3]);
    NoDupConcat(q[0], Flat(q));
  }

  lemma BoostListed(s: Sched, l: nat, t: Tid)
    requires |s.runq| == MLFQ_LEVELS && l < MLFQ_LEVELS
    requires forall l, u {:trigger Listed(s, l, u)} :: 0 <= l < MLFQ_LEVELS ==> Listed(s, l, u)
    requires t in s.threads && s.threads[t].status.Ready? ==> s.threads[t].level < MLFQ_LEVELS
    ensures Listed(Boost(s), l, t)
  {
    BoostQueue(s, t);
  }

  lemma BoostInv(s: Sched)
    requires Inv(s)
    ensures Inv(Boost(s))
  {
    var s' := Boost(s);
    forall l, t: Tid | 0 <= l < MLFQ_LEVELS ensures Listed(s', l, t) {
      assert t in s.threads ==> ThreadOk(s, t);
      BoostListed(s, l, t);
    }
    forall t | t in s'.threads ensures ThreadOk(s', t) {
      assert ThreadOk(s, t);
      BoostQueue(s, t);
    }
    BoostNoDup(s);
  }

  lemma BoostBetween(s: Sched)
    requires Between(s)
    ensures Between(Boost(s)) && (Runnable(s.runq) ==> Runnable(Boost(s).runq))
  {
    var s' := Boost(s);
    forall l, t: Tid | 0 <= l < MLFQ_LEVELS ensures Listed(s', l, t) {
      assert t in s.threads ==> ThreadOff(s, t);
      BoostListed(s, l, t);
    }
    forall t | t in s'.threads ensures ThreadOff(s', t) {
      assert ThreadOff(s, t);
      BoostQueue(s, t);
    }
    BoostNoDup(s);
    if Runnable(s.runq) {
      var l := FirstLevel(s.runq, 0);
      assert s.runq[l][0] in s'.runq[0];
    }
  }

  // ---- tick -------------------------------------------------------------------------

  lemma TicksInv(s: Sched, n: nat)
    requires Inv(s)
    ensures Inv(s.(ticks := n))
  {
    var s' := s.(ticks := n);
    forall l, t: Tid | 0 <= l < MLFQ_LEVELS ensures Listed(s', l, t) { assert Listed(s, l, t); }
    forall t | t in s'.threads ensures ThreadOk(s', t) { assert ThreadOk(s, t); }
  }

  lemma TicksBetween(s: Sched, n: nat)
    requires Between(s)
    ensures Between(s.(ticks := n))
  {
    var s' := s.(ticks := n);
    forall l, t: Tid | 0 <= l < MLFQ_LEVELS ensures Listed(s', l, t) { assert Listed(s, l, t); }
    forall t | t in s'.threads ensures ThreadOff(s', t) { assert ThreadOff(s, t); }
  }

  /** A tick that ends the quantum always finds a thread to run. */
  lemma ExhaustKeeps(s: Sched)
    requires Inv(s) && !s.halted && Exhausts(s)
    ensures Between(Charge(s)) && Between(Count(Charge(s))) && Runnable(Count(Charge(s)).runq)
  {
    var level := s.threads[s.cur].level;
    assert ThreadOk(s, s.cur);
    var c := Charge(s);
    RequeueKeeps(s, if level < MLFQ_LEVELS - 1 then level + 1 else MLFQ_LEVELS - 1);
    assert Between(c) && Runnable(c.runq);
    if Boosts(c) { BoostBetween(c); }
    TicksBetween(if Boosts(c) then Boost(c) else c, s.ticks + 1);
  }

  lemma ChargeKeeps(s: Sched)
    requires Inv(s) && !Exhausts(s)
    ensures Inv(Charge(s))
  {
    var s' := Charge(s);
    assert ThreadOk(s, s.cur);
    forall l, t: Tid | 0 <= l < MLFQ_LEVELS ensures Listed(s', l, t) { assert Listed(s, l, t); }
    forall t | t in s'.threads ensures ThreadOk(s', t) { assert ThreadOk(s, t); }
  }

  lemma TickKeeps(s: Sched)
    requires Inv(s) && !s.halted
    ensures Inv(Tick(s)) && !Tick(s).halted && Tick(s).ticks == s.ticks + 1
  {
    if Exhausts(s) {
      ExhaustKeeps(s);
      SwitchKeeps(Count(Charge(s)));
    } else {
      ChargeKeeps(s);
      var c := Charge(s);
      if Boosts(c) { BoostInv(c); }
      TicksInv(if Boosts(c) then Boost(c) else c, s.ticks + 1);
    }
  }

  // ---- level, quantum and place, from the fields alone ----------------------------------

  const QUANTUM_TICKS: seq<int> := [1, 2, 4, 8]

  /** The head of the first non-empty queue of `q` has been taken off and is `t`. */
  ghost predicate Takes(q: seq<seq<Tid>>, q': seq<seq<Tid>>, t: Tid) {
    exists l {:trigger q[l]} :: 0 <= l < |q| && TakesAt(q, q', t, l)
  }

  predicate TakesAt(q: seq<seq<Tid>>, q': seq<seq<Tid>>, t: Tid, l: nat)
    requires l < |q|
  {
    (forall k :: 0 <= k < l ==> q[k] == []) && q[l] != [] && t == q[l][0] && q' == q[l := q[l][1..]]
  }

  /** `t` runs, and otherwise the threads are `before`. */
  predicate Runs(threads: map<Tid, Thread>, before: map<Tid, Thread>, t: Tid) {
    t in before && threads == before[t := before[t].(status := Running)]
  }

  lemma SwitchTakes(s: Sched)
    requires Runnable(s.runq) && Switch(s).cur in s.threads
    ensures Takes(s.runq, Switch(s).runq, Switch(s).cur) && Runs(Switch(s).threads, s.threads, Switch(s).cur)
  {
    assert TakesAt(s.runq, Switch(s).runq, Switch(s).cur, FirstLevel(s.runq, 0));
  }

  /** The level below, or the last one. */
  function Lower(level: nat): nat { if level < 3 then level + 1 else 3 }

  /** A tick that neither ends the quantum nor boosts takes one from the quantum of the running
      thread and does nothing else. */
  lemma TickCharges(s: Sched)
    requires Inv(s) && !s.halted && s.ticks % 50 != 49 && s.threads[s.cur].quantum > 1
    ensures var th := s.threads[s.cur];
      Tick(s) == s.(threads := s.threads[s.cur := th.(quantum := th.quantum - 1)], ticks := s.ticks + 1)
  {
    assert ThreadOk(s, s.cur);
  }

  /** A tick that ends the quantum sends the running thread to the tail of the queue of the
      next lower level, with the quantum of that level, and the first thread of the highest
      queue runs. */
  lemma TickDemotes(s: Sched)
    requires Inv(s) && !s.halted && s.ticks % 50 != 49 && s.threads[s.cur].quantum == 1
    ensures var l := Lower(s.threads[s.cur].level);
      && Takes(s.runq[l := s.runq[l] + [s.cur]], Tick(s).runq, Tick(s).cur)
      && Runs(Tick(s).threads, s.threads[s.cur := Thread(Ready, l, QUANTUM_TICKS[l])], Tick(s).cur)
      && Tick(s).ticks == s.ticks + 1 && !Tick(s).halted
  {
    assert ThreadOk(s, s.cur);
    TickKeeps(s);
    var l := Lower(s.threads[s.cur].level);
    var c := Count(Charge(s));
    RequeueKeeps(s, l);
    assert c == Requeue(s, l).(ticks := s.ticks + 1);
    HeadIn(Requeue(s, l));
    SwitchTakes(c);
  }

  lemma HeadIn(s: Sched)
    requires Runnable(s.runq) && Between(s)
    ensures Switch(s).cur in s.threads
  {
    var l := FirstLevel(s.runq, 0);
    assert Listed(s, l, s.runq[l][0]);
  }

  /** Every READY thread and the running one at level 0 with its quantum, all queues behind the
      first. */
  ghost predicate Boosted(q: seq<seq<Tid>>, threads: map<Tid, Thread>, cur: Tid, q': seq<seq<Tid>>, threads': map<Tid, Thread>) {
    && |q| == 4 && q' == [q[0] + q[1] + q[2] + q[3], [], [], []] && threads'.Keys == threads.Keys
    && forall t :: t in threads ==>
      threads'[t] == if t == cur || threads[t].status == Ready then Thread(threads[t].status, 0, 1) else threads[t]
  }

  lemma BoostIs(s: Sched)
    requires |s.runq| == MLFQ_LEVELS
    requires forall l, t {:trigger Listed(s, l, t)} :: 0 <= l < MLFQ_LEVELS ==> Listed(s, l, t)
    requires forall t :: t in s.threads && s.threads[t].status.Ready? ==>
      s.threads[t].level < MLFQ_LEVELS && s.threads[t].quantum == Quantum(s.threads[t].level)
    ensures Boosted(s.runq, s.threads, s.cur, Boost(s).runq, Boost(s).threads)
  {
    forall t | t in s.threads
      ensures Boost(s).threads[t] == if t == s.cur || s.threads[t].status == Ready then Thread(s.threads[t].status, 0, 1) else s.threads[t]
    {
      BoostQueue(s, t);
    }
    assert s.runq[0] + Flat(s.runq) == s.runq[0] + s.runq[1] + s.runq[2] + s.runq[3];
  }

  /** A boosting tick with quantum left raises all threads; the running one stays. */
  lemma TickBoosts(s: Sched)
    requires Inv(s) && !s.halted && s.ticks % 50 == 49 && s.threads[s.cur].quantum > 1
    ensures Boosted(s.runq, s.threads, s.cur, Tick(s).runq, Tick(s).threads) && Tick(s).cur == s.cur
  {
    assert ThreadOk(s, s.cur);
    var c := Charge(s);
    forall l, t: Tid | 0 <= l < MLFQ_LEVELS ensures Listed(c, l, t) { assert Listed(s, l, t); }
    forall t | t in c.threads && c.threads[t].status.Ready?
      ensures c.threads[t].level < MLFQ_LEVELS && c.threads[t].quantum == Quantum(c.threads[t].level)
    {
      assert ThreadOk(s, t);
    }
    BoostIs(c);
  }

  /** One that ends the quantum raises all threads with the demoted one behind the others of
      its level, and the first of them runs. */
  lemma TickBoostsAll(s: Sched) returns (b: Sched)
    requires Inv(s) && !s.halted && s.ticks % 50 == 49 && s.threads[s.cur].quantum == 1
    ensures var l := Lower(s.threads[s.cur].level);
      Boosted(s.runq[l := s.runq[l] + [s.cur]], s.threads[s.cur := s.threads[s.cur].(status := Ready)], s.cur, b.runq, b.threads)
    ensures Takes(b.runq, Tick(s).runq, Tick(s).cur) && Runs(Tick(s).threads, b.threads, Tick(s).cur)
  {
    assert ThreadOk(s, s.cur);
    TickKeeps(s);
    var l := Lower(s.threads[s.cur].level);
    RequeueKeeps(s, l);
    var c := Charge(s);
    assert c == Requeue(s, l);
    forall t | t in c.threads && c.threads[t].status.Ready?
      ensures c.threads[t].level < MLFQ_LEVELS && c.threads[t].quantum == Quantum(c.threads[t].level)
    {
      assert ThreadOff(c, t);
    }
    BoostIs(c);
    b := Boost(c);
    SwitchTakes(b.(ticks := s.ticks + 1));
  }

  /** A yield keeps the level and refills the quantum. */
  lemma YieldIs(s: Sched)
    requires Inv(s) && !s.halted
    ensures var l := s.threads[s.cur].level;
      && l < 4 && Takes(s.runq[l := s.runq[l] + [s.cur]], Yield(s).runq, Yield(s).cur)
      && Runs(Yield(s).threads, s.threads[s.cur := Thread(Ready, l, QUANTUM_TICKS[l])], Yield(s).cur)
      && Yield(s).ticks == s.ticks && !Yield(s).halted
  {
    assert ThreadOk(s, s.cur);
    var l := s.threads[s.cur].level;
    RequeueKeeps(s, l);
    HeadIn(Requeue(s, l));
    SwitchTakes(Requeue(s, l));
  }

  /** Blocking or exiting changes the status of the running thread alone; the CPU halts exactly
      if no thread is READY. */
  lemma LeaveIs(s: Sched, status: Status)
    requires Inv(s) && !s.halted && !status.Running? && !status.Ready?
    ensures var before := s.threads[s.cur := s.threads[s.cur].(status := status)];
      var s' := Leave(s, status);
      && s'.ticks == s.ticks
      && (s'.halted <==> forall l :: 0 <= l < 4 ==> s.runq[l] == [])
      && (s'.halted ==> s'.runq == s.runq && s'.threads == before)
      && (!s'.halted ==> Takes(s.runq, s'.runq, s'.cur) && Runs(s'.threads, before, s'.cur))
  {
    LeaveKeeps(s, status);
    assert ThreadOk(s, s.cur);
    var b := s.(threads := SetStatus(s.threads, s.cur, status));
    var l := FirstLevel(s.runq, 0);
    if Runnable(b.runq) {
      assert Listed(s, l, s.runq[l][0]);
      SwitchTakes(b);
    }
  }
}
