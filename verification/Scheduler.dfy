/** The scheduler of `kernel/task/sched.c` as operations on the run queues of one CPU. */
module Scheduler {
  import opened SchedState
  import opened SchedProof
  import opened Options

  class Cpu {
    var runq: seq<seq<Tid>>
    var current: Tid
    var threads: map<Tid, Thread>
    var ticks: nat
    var halted: bool

    function State(): Sched
      reads this
    {
      Sched(runq, current, threads, ticks, halted)
    }

    ghost predicate Valid()
      reads this
    {
      Inv(State())
    }

    /** sched_init, sched_enqueue for each of `tids`, and sched_boot: the first of them runs.
        Without a thread sched_boot returns and nothing runs. */
    constructor (tids: seq<Tid>)
      requires NoDup(tids)
      ensures Valid() <==> tids != []
      ensures tids != [] ==> runq == [tids[1..], [], [], []] && current == tids[0] && !halted && ticks == 0
      ensures tids != [] ==> threads.Keys == (set t | t in tids)
    {
      runq, threads, current := [[], [], [], []], map[], 0;
      ticks, halted := 0, false;
      new;
      for i := 0 to |tids|
        invariant runq == [tids[..i], [], [], []] && threads == Queued(tids[..i]) && ticks == 0 && !halted
      {
        var t := tids[i];
        assert tids[..i + 1] == tids[..i] + [t];
        threads := threads[t := Thread(Ready, 0, Quantum(0))];
        runq := runq[0 := runq[0] + [t]];
      }
      assert tids[..|tids|] == tids;
      var first := Pick();
      if first.None? { return; }
      current := first.value;
      threads := SetStatus(threads, current, Running);
      BootKeeps(tids, State());
    }

    /** A thread that is created but not started; sched_enqueue will start it. */
    method Create(t: Tid)
      requires Valid() && t !in threads
      modifies this`threads
      ensures Valid() && Wakeable(State(), t)
      ensures State() == old(State()).(threads := old(threads)[t := Thread(Inactive, 0, 0)])
    {
      CreateKeeps(State(), t);
      threads := threads[t := Thread(Inactive, 0, 0)];
    }

    /** sched_pick: takes the head of the first non-empty queue. */
    method Pick() returns (r: Option<Tid>)
      requires |runq| == MLFQ_LEVELS
      modifies this`runq
      ensures r.None? <==> !Runnable(old(runq))
      ensures r.None? ==> runq == old(runq)
      ensures r.Some? ==>
        var l := FirstLevel(old(runq), 0);
        r.value == old(runq)[l][0] && runq == old(runq)[l := old(runq)[l][1..]]
    {
      for level := 0 to MLFQ_LEVELS
        invariant runq == old(runq) && FirstLevel(runq, 0) == FirstLevel(runq, level)
      {
        if runq[level] != [] {
          var t := runq[level][0];
          runq := runq[level := runq[level][1..]];
          return Some(t);
        }
      }
      return None;
    }

    /** sched_boost. */
    method BoostAll()
      requires |runq| == MLFQ_LEVELS && current in threads
      requires forall t :: t in Flat(runq) ==> t in threads
      modifies this`runq, this`threads
      ensures State() == Boost(old(State()))
    {
      ghost var s := State();
      threads := threads[current := threads[current].(level := 0, quantum := Quantum(0))];
      ghost var moved: seq<Tid> := [];
      for level := 1 to MLFQ_LEVELS
        invariant |runq| == MLFQ_LEVELS && runq[0] == s.runq[0] + moved
        invariant forall l :: 1 <= l < level ==> runq[l] == []
        invariant forall l :: level <= l < MLFQ_LEVELS ==> runq[l] == s.runq[l]
        invariant moved == Upto(s.runq, level)
        invariant threads == RaisedOf(s, moved)
      {
        MoveQueue(level, s, moved);
        moved := moved + s.runq[level];
      }
      assert moved == Flat(s.runq) by { UptoAll(s.runq); }
      assert runq == [s.runq[0] + Flat(s.runq), [], [], []];
      assert threads == Boost(s).threads;
    }

    /** The inner loop: queue `level` goes behind queue 0, thread by thread. */
    method MoveQueue(level: nat, ghost s: Sched, ghost moved: seq<Tid>)
      requires |runq| == MLFQ_LEVELS == |s.runq| && 1 <= level < MLFQ_LEVELS
      requires runq[0] == s.runq[0] + moved && threads == RaisedOf(s, moved)
      requires forall t :: t in runq[level] ==> t in s.threads
      modifies this`runq, this`threads
      ensures runq == old(runq)[0 := old(runq)[0] + old(runq)[level]][level := []]
      ensures threads == RaisedOf(s, moved + old(runq)[level])
    {
      ghost var q := runq[level];
      ghost var k := 0;
      assert moved + q[..0] == moved;
      while runq[level] != []
        invariant 0 <= k <= |q|
        invariant |runq| == MLFQ_LEVELS && runq[0] == old(runq)[0] + q[..k] && runq[level] == q[k..]
        invariant forall l :: 1 <= l < MLFQ_LEVELS && l != level ==> runq[l] == old(runq)[l]
        invariant threads == RaisedOf(s, moved + q[..k])
        decreases |q| - k
      {
        var t := runq[level][0];
        assert t == q[k];
        runq := runq[level := runq[level][1..]];
        RaiseNext(s, moved + q[..k], t);
        threads := threads[t := threads[t].(level := 0, quantum := Quantum(0))];
        runq := runq[0 := runq[0] + [t]];
        assert moved + q[..k] + [t] == moved + q[..k + 1];
        k := k + 1;
      }
      assert q[..k] == q;
    }

    /** sched_tick. */
    method SchedTick()
      requires Valid() && !halted
      modifies this
      ensures Valid() && !halted && State() == Tick(old(State()))
      ensures old(current in threads) && ticks == old(ticks) + 1
      ensures old(ticks) % 50 != 49 && old(threads[current].quantum) > 1 ==>
        && runq == old(runq) && current == old(current)
        && threads == old(threads[current := threads[current].(quantum := threads[current].quantum - 1)])
      ensures old(ticks) % 50 != 49 && old(threads[current].quantum) == 1 ==>
        var l := Lower(old(threads[current].level));
        && Takes(old(runq)[l := old(runq)[l] + [old(current)]], runq, current)
        && Runs(threads, old(threads)[old(current) := Thread(Ready, l, QUANTUM_TICKS[l])], current)
      ensures old(ticks) % 50 == 49 && old(threads[current].quantum) > 1 ==>
        current == old(current) && Boosted(old(runq), old(threads), current, runq, threads)
      ensures old(ticks) % 50 == 49 && old(threads[current].quantum) == 1 ==>
        var l := Lower(old(threads[current].level));
        exists q, th :: Boosted(old(runq)[l := old(runq)[l] + [old(current)]],
                                old(threads[current := threads[current].(status := Ready)]), old(current), q, th)
                        && Takes(q, runq, current) && Runs(threads, th, current)
    {
      TickFields(State());
      TickStores();
    }

    method TickStores()
      requires Valid() && !halted
      modifies this
      ensures Valid() && !halted && State() == Tick(old(State()))
    {
      ghost var s := State();
      assert ThreadOk(s, current);
      TickKeeps(s);
      var exhausted := Account();
      ghost var c := State();
      FlatInThreads(s);
      var count := ticks;
      ticks := ticks + 1;
      if count % BOOST_PERIOD == BOOST_PERIOD - 1 { BoostAll(); }
      assert State() == Count(c);
      if !exhausted { return; }
      var next := Pick();
      if next.None? { return; }
      current := next.value;
      threads := SetStatus(threads, current, Running);
    }

    /** The accounting of sched_tick; whether the quantum is used up. */
    method Account() returns (exhausted: bool)
      requires |runq| == MLFQ_LEVELS && current in threads
      requires threads[current].level < MLFQ_LEVELS && threads[current].quantum >= 1
      modifies this`runq, this`threads
      ensures State() == Charge(old(State())) && exhausted == old(Exhausts(State()))
    {
      var cur := current;
      exhausted := false;
      if threads[cur].status.Running? {
        var q := threads[cur].quantum - 1;
        if q == 0 {
          exhausted := true;
          var level := threads[cur].level;
          if level < MLFQ_LEVELS - 1 { level := level + 1; }
          threads := threads[cur := Thread(Ready, level, Quantum(level))];
          runq := runq[level := runq[level] + [cur]];
        } else {
          threads := threads[cur := threads[cur].(quantum := q)];
        }
      }
    }

    /** sched_yield. */
    method SchedYield()
      requires Valid() && !halted
      modifies this
      ensures Valid() && !halted && old(threads[current]).level < MLFQ_LEVELS && State() == Yield(old(State()))
      ensures var l := old(threads[current].level);
        && Takes(old(runq)[l := old(runq)[l] + [old(current)]], runq, current) && ticks == old(ticks)
        && Runs(threads, old(threads)[old(current) := Thread(Ready, l, QUANTUM_TICKS[l])], current)
    {
      ghost var s := State();
      YieldIs(s);
      assert ThreadOk(s, current);
      YieldKeeps(s);
      var level := threads[current].level;
      threads := threads[current := Thread(Ready, level, Quantum(level))];
      runq := runq[level := runq[level] + [current]];
      assert State() == Requeue(s, level);
      var next := Pick();
      if next.None? { return; }
      current := next.value;
      threads := SetStatus(threads, current, Running);
    }

    /** sched_block, and sched_exit with status Terminated. */
    method SchedLeave(status: Status)
      requires Valid() && !halted && !status.Running? && !status.Ready?
      modifies this
      ensures Valid() && State() == Leave(old(State()), status)
      ensures old(current in threads) && ticks == old(ticks) && (halted <==> forall l :: 0 <= l < 4 ==> old(runq)[l] == [])
      ensures var before := old(threads[current := threads[current].(status := status)]);
        && (halted ==> runq == old(runq) && threads == before)
        && (!halted ==> Takes(old(runq), runq, current) && Runs(threads, before, current))
    {
      LeaveIs(State(), status);
      LeaveKeeps(State(), status);
      threads := SetStatus(threads, current, status);
      var next := Pick();
      if next.None? {
        halted := true;
        return;
      }
      current := next.value;
      threads := SetStatus(threads, current, Running);
    }

    /** sched_enqueue. */
    method SchedEnqueue(t: Tid)
      requires Valid() && Wakeable(State(), t)
      modifies this`runq, this`threads
      ensures Valid() && State() == Enqueue(old(State()), t)
      ensures runq == old(runq)[0 := old(runq)[0] + [t]] && threads == old(threads)[t := Thread(Ready, 0, 1)]
    {
      EnqueueKeeps(State(), t);
      threads := threads[t := Thread(Ready, 0, Quantum(0))];
      runq := runq[0 := runq[0] + [t]];
    }
  }

  // ---- what a tick does to the fields -----------------------------------------------------

  lemma TickFields(s: Sched)
    requires Inv(s) && !s.halted
    ensures s.cur in s.threads && s.threads[s.cur].level < MLFQ_LEVELS && s.threads[s.cur].quantum >= 1
    ensures s.ticks % 50 != 49 && s.threads[s.cur].quantum > 1 ==>
      Tick(s) == s.(threads := s.threads[s.cur := s.threads[s.cur].(quantum := s.threads[s.cur].quantum - 1)], ticks := s.ticks + 1)
    ensures s.ticks % 50 != 49 && s.threads[s.cur].quantum == 1 ==>
      var l := Lower(s.threads[s.cur].level);
      && Takes(s.runq[l := s.runq[l] + [s.cur]], Tick(s).runq, Tick(s).cur)
      && Runs(Tick(s).threads, s.threads[s.cur := Thread(Ready, l, QUANTUM_TICKS[l])], Tick(s).cur)
    ensures s.ticks % 50 == 49 && s.threads[s.cur].quantum > 1 ==>
      Tick(s).cur == s.cur && Boosted(s.runq, s.threads, s.cur, Tick(s).runq, Tick(s).threads)
    ensures s.ticks % 50 == 49 && s.threads[s.cur].quantum == 1 ==> BoostedThen(s, Tick(s))
  {
    assert ThreadOk(s, s.cur);
    if s.ticks % 50 != 49 {
      if s.threads[s.cur].quantum > 1 { TickCharges(s); } else { TickDemotes(s); }
    } else if s.threads[s.cur].quantum > 1 {
      TickBoosts(s);
    } else {
      var b := TickBoostsAll(s);
    }
  }

  /** All threads are raised with the demoted one behind the others of its level, and the first
      of them runs. */
  ghost predicate BoostedThen(s: Sched, s': Sched)
    requires |s.runq| == MLFQ_LEVELS && s.cur in s.threads
  {
    var l := Lower(s.threads[s.cur].level);
    exists q, th :: Boosted(s.runq[l := s.runq[l] + [s.cur]], s.threads[s.cur := s.threads[s.cur].(status := Ready)], s.cur, q, th)
                    && Takes(q, s'.runq, s'.cur) && Runs(s'.threads, th, s'.cur)
  }

  // ---- starting ---------------------------------------------------------------------------

  ghost function Queued(tids: seq<Tid>): map<Tid, Thread> {
    map t | t in tids :: Thread(Ready, 0, Quantum(0))
  }

  lemma BootKeeps(tids: seq<Tid>, s: Sched)
    requires NoDup(tids) && tids != [] && s.cur == tids[0] && !s.halted
    requires s.runq == [tids[1..], [], [], []] && s.threads == SetStatus(Queued(tids), tids[0], Running)
    ensures Inv(s)
  {
    assert tids == [tids[0]] + tids[1..];
    forall l, t: Tid | 0 <= l < MLFQ_LEVELS ensures Listed(s, l, t) {
      assert t in tids[1..] <==> t in tids && t != tids[0];
    }
  }

  lemma CreateKeeps(s: Sched, t: Tid)
    requires Inv(s) && t !in s.threads
    ensures Inv(s.(threads := s.threads[t := Thread(Inactive, 0, 0)]))
  {
    var s' := s.(threads := s.threads[t := Thread(Inactive, 0, 0)]);
    forall l, u: Tid | 0 <= l < MLFQ_LEVELS ensures Listed(s', l, u) { assert Listed(s, l, u); }
    forall u | u in s'.threads ensures ThreadOk(s', u) { assert u in s.threads ==> ThreadOk(s, u); }
  }

  // ---- the boost loops ------------------------------------------------------------------

  ghost function Upto(runq: seq<seq<Tid>>, level: nat): seq<Tid>
    requires 1 <= level <= |runq|
  {
    if level == 1 then [] else Upto(runq, level - 1) + runq[level - 1]
  }

  lemma UptoAll(runq: seq<seq<Tid>>)
    requires |runq| == MLFQ_LEVELS
    ensures Upto(runq, MLFQ_LEVELS) == Flat(runq)
  {
    assert Upto(runq, 2) == runq[1];
    assert Upto(runq, 3) == runq[1] + runq[2];
  }

  /** The threads with the running one and those of `moved` raised. */
  ghost function RaisedOf(s: Sched, moved: seq<Tid>): map<Tid, Thread> {
    map t | t in s.threads :: if t == s.cur || t in moved then Raised(s.threads[t]) else s.threads[t]
  }

  lemma RaiseNext(s: Sched, moved: seq<Tid>, t: Tid)
    requires t in s.threads
    ensures RaisedOf(s, moved + [t]) == RaisedOf(s, moved)[t := Raised(RaisedOf(s, moved)[t])]
  {
  }

  lemma FlatInThreads(s: Sched)
    requires Inv(s)
    ensures var c := Charge(s); c.cur in c.threads && forall t :: t in Flat(c.runq) ==> t in c.threads
  {
    var c := Charge(s);
    forall t | t in Flat(c.runq) ensures t in c.threads {
      assert Listed(s, 1, t) && Listed(s, 2, t) && Listed(s, 3, t);
    }
  }
}
