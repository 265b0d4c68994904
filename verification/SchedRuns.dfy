/** Runs of the scheduler: no READY thread starves. */
module SchedRuns {
  import opened SchedState
  import opened SchedProof

  /** What can happen: a timer tick, the running thread yields, blocks or exits, or it (or an
      interrupt) wakes a thread. */
  datatype Event = Tock | Yields | Blocks | Exits | Wakes(t: Tid)

  predicate Enabled(s: Sched, e: Event) {
    !s.halted && (e.Wakes? ==> Wakeable(s, e.t))
  }

  ghost function Apply(s: Sched, e: Event): (r: Sched)
    requires Inv(s) && Enabled(s, e)
    ensures Inv(r)
  {
    match e
    case Tock => TickKeeps(s); Tick(s)
    case Yields => YieldKeeps(s); Yield(s)
    case Blocks => LeaveKeeps(s, Blocked); Leave(s, Blocked)
    case Exits => LeaveKeeps(s, Terminated); Leave(s, Terminated)
    case Wakes(t) => EnqueueKeeps(s, t); Enqueue(s, t)
  }

  ghost predicate Run(s: Sched, es: seq<Event>)
    requires Inv(s)
    decreases |es|
  {
    es == [] || (Enabled(s, es[0]) && Run(Apply(s, es[0]), es[1..]))
  }

  /** Thread `t` is running in some state of the run. */
  ghost predicate Dispatched(s: Sched, es: seq<Event>, t: Tid)
    requires Inv(s) && Run(s, es)
    decreases |es|
  {
    s.cur == t || (es != [] && Dispatched(Apply(s, es[0]), es[1..], t))
  }

  function Ticks(es: seq<Event>): nat {
    if es == [] then 0 else (if es[0].Tock? then 1 else 0) + Ticks(es[1..])
  }

  ghost predicate IsReady(s: Sched, t: Tid) { t in s.threads && s.threads[t].status.Ready? }

  // ---- waiting at level 0 --------------------------------------------------------------

  /** `t` is READY at position `p` of the first queue and the running thread ends its quantum
      with the next tick. */
  ghost predicate Waits(s: Sched, t: Tid, p: nat) {
    && s.runq != [] && p < |s.runq[0]| && s.runq[0][p] == t
    && s.cur in s.threads && s.threads[s.cur].level == 0
  }

  /** Each tick moves such a thread one place on, or runs it; nothing moves it back. */
  lemma WaitStep(s: Sched, e: Event, t: Tid, p: nat)
    requires Inv(s) && Enabled(s, e) && Waits(s, t, p)
    ensures var s' := Apply(s, e);
      if p == 0 then s'.cur == t || (!e.Tock? && Waits(s', t, 0))
      else Waits(s', t, p - 1) || (!e.Tock? && Waits(s', t, p))
  {
    assert ThreadOk(s, s.cur);
    if e.Tock? {
      assert Exhausts(s);
      ExhaustKeeps(s);
      var c := Charge(s);
      SwitchKeeps(Count(c));
      assert c.runq[0] == s.runq[0];
      assert Count(c).runq[0][p] == t;
    } else if e.Yields? {
      var q := Requeue(s, 0);
      RequeueKeeps(s, 0);
      SwitchKeeps(q);
    } else if e.Blocks? || e.Exits? {
      var b := s.(threads := SetStatus(s.threads, s.cur, if e.Blocks? then Blocked else Terminated));
      LeaveSwitches(s, if e.Blocks? then Blocked else Terminated);
      assert FirstLevel(b.runq, 0) == 0;
    } else {
      assert ThreadOk(s, e.t);
    }
  }

  lemma LeaveSwitches(s: Sched, status: Status)
    requires Inv(s) && !s.halted && !status.Running? && !status.Ready? && s.runq[0] != []
    ensures var s' := Leave(s, status);
      !s'.halted && s'.cur == s.runq[0][0] && s'.runq[0] == s.runq[0][1..] && s'.cur in s'.threads && s'.threads[s'.cur].level == 0
  {
    assert Listed(s, 0, s.runq[0][0]);
    assert ThreadOk(s, s.cur);
  }

  /** A thread at position `p` of the first queue runs within p + 1 ticks. */
  lemma {:induction false} FrontRuns(s: Sched, es: seq<Event>, t: Tid, p: nat)
    requires Inv(s) && Run(s, es) && Waits(s, t, p) && Ticks(es) >= p + 1
    ensures Dispatched(s, es, t)
    decreases |es|
  {
    var s' := Apply(s, es[0]);
    WaitStep(s, es[0], t, p);
    if s'.cur == t {
      assert Dispatched(s', es[1..], t);
    } else if p > 0 && Waits(s', t, p - 1) {
      FrontRuns(s', es[1..], t, p - 1);
    } else {
      FrontRuns(s', es[1..], t, p);
    }
  }

  // ---- the next boost --------------------------------------------------------------------

  /** Ticks before the one that boosts. */
  function UntilBoost(s: Sched): nat { BOOST_PERIOD - 1 - s.ticks % BOOST_PERIOD }

  /** The length of the first queue right after the next boost of the run: the number of
      READY threads then (BoostGathers). */
  ghost function Backlog(s: Sched, es: seq<Event>): nat
    requires Inv(s) && Run(s, es)
    decreases |es|
  {
    if es == [] then 0
    else if es[0].Tock? && Boosts(s) then |Apply(s, es[0]).runq[0]|
    else Backlog(Apply(s, es[0]), es[1..])
  }

  /** After a boosting tick the first queue holds every READY thread. */
  lemma BoostGathers(s: Sched, u: Tid)
    requires Inv(s) && !s.halted && Boosts(s)
    ensures u in Apply(s, Tock).runq[0] <==> IsReady(Apply(s, Tock), u)
  {
    var s', c := Tick(s), Charge(s);
    TickKeeps(s);
    assert ThreadOk(s, s.cur);
    if Exhausts(s) {
      ExhaustKeeps(s);
      SwitchKeeps(Count(c));
    }
    assert s'.runq[1] == [] && s'.runq[2] == [] && s'.runq[3] == [];
    assert u in s'.threads ==> ThreadOk(s', u);
    assert Listed(s', 0, u) && Listed(s', 1, u) && Listed(s', 2, u) && Listed(s', 3, u);
  }

  /** A boosting tick runs a READY thread or leaves it waiting at level 0. */
  lemma BoostFront(s: Sched, t: Tid)
    requires Inv(s) && !s.halted && Boosts(s) && IsReady(s, t)
    ensures var s' := Apply(s, Tock); s'.cur == t || exists p :: 0 <= p < |s'.runq[0]| && Waits(s', t, p)
  {
    var s', c := Tick(s), Charge(s);
    TickKeeps(s);
    assert ThreadOk(s, t) && ThreadOk(s, s.cur);
    assert IsReady(c, t);
    if Exhausts(s) {
      ExhaustKeeps(s);
      assert ThreadOff(c, t);
      BoostQueue(c, t);
      SwitchKeeps(Count(c));
    } else {
      ChargeKeeps(s);
      assert ThreadOk(c, t);
      BoostQueue(c, t);
    }
    var q := Count(c).runq[0];
    assert t in q;
    var i :| 0 <= i < |q| && q[i] == t;
    if s'.cur != t {
      assert Waits(s', t, if Exhausts(s) then i - 1 else i);
    }
  }

  /** A READY thread stays READY until it runs. */
  lemma StaysReady(s: Sched, e: Event, t: Tid)
    requires Inv(s) && Enabled(s, e) && IsReady(s, t)
    ensures var s' := Apply(s, e);
      && (s'.cur == t || IsReady(s', t))
      && s'.ticks == s.ticks + if e.Tock? then 1 else 0
  {
    assert ThreadOk(s, t) && ThreadOk(s, s.cur);
    assert Listed(s, s.threads[t].level, t);
    if e.Tock? { TickKeeps(s); }
  }

  /** A boosting tick and as many ticks as there are READY threads then run `t`. */
  lemma BoostRuns(s: Sched, es: seq<Event>, t: Tid)
    requires Inv(s) && IsReady(s, t) && es != [] && Run(s, es) && es[0].Tock? && Boosts(s)
    requires Ticks(es) >= 1 + Backlog(s, es)
    ensures Dispatched(s, es, t)
  {
    var s' := Apply(s, es[0]);
    BoostFront(s, t);
    if s'.cur == t {
      assert Dispatched(s', es[1..], t);
    } else {
      var p :| 0 <= p < |s'.runq[0]| && Waits(s', t, p);
      FrontRuns(s', es[1..], t, p);
    }
  }

  lemma Closer(s: Sched, s': Sched)
    requires s'.ticks == s.ticks || (s'.ticks == s.ticks + 1 && !Boosts(s))
    ensures UntilBoost(s') + (s'.ticks - s.ticks) == UntilBoost(s)
  {
  }

  /** MLFQ starves nobody: a READY thread runs within the ticks up to the next boost (at most
      BOOST_PERIOD) plus one for each thread that is READY then, whatever the others do. */
  lemma {:induction false} NoStarvation(s: Sched, es: seq<Event>, t: Tid)
    requires Inv(s) && IsReady(s, t) && Run(s, es)
    requires Ticks(es) >= UntilBoost(s) + 1 + Backlog(s, es)
    ensures Dispatched(s, es, t)
    decreases |es|
  {
    var e := es[0];
    if e.Tock? && Boosts(s) {
      BoostRuns(s, es, t);
    } else {
      var s' := Apply(s, e);
      StaysReady(s, e, t);
      if s'.cur == t {
        assert Dispatched(s', es[1..], t);
      } else {
        assert Backlog(s, es) == Backlog(s', es[1..]);
        Closer(s, s');
        NoStarvation(s', es[1..], t);
      }
    }
  }
}
