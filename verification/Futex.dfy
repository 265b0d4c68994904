/**
  The futex index of `kernel/task/futex.c` on one CPU: a hash table of wait queues that
  refines a map from the physical address of a word to the FIFO of threads waiting on it.
 */
module Futex {
  import opened SchedState
  import opened SchedProof
  import SchedRuns
  import opened Scheduler

  const FUTEX_BUCKETS: nat := 64
  const EAGAIN: int := 11
  const EFAULT: int := 14
  const EINVAL: int := 22

  datatype WaitQ = WaitQ(phys: nat, waiters: seq<Tid>)

  type Buckets = seq<seq<WaitQ>>

  function Hash(phys: nat): (h: nat)
    ensures h < FUTEX_BUCKETS
  {
    phys / 4 % FUTEX_BUCKETS
  }

  /** The position of the wait queue for `phys`, or the length of the bucket. */
  function Index(l: seq<WaitQ>, phys: nat): (i: nat)
    ensures i <= |l| && (i < |l| ==> l[i].phys == phys) && forall k :: 0 <= k < i ==> l[k].phys != phys
  {
    if l == [] || l[0].phys == phys then 0 else 1 + Index(l[1..], phys)
  }

  function QueueIn(l: seq<WaitQ>, phys: nat): seq<Tid> {
    if Index(l, phys) < |l| then l[Index(l, phys)].waiters else []
  }

  /** The abstract map: the threads waiting on the word at `phys`, first come first. */
  function Queue(B: Buckets, phys: nat): seq<Tid>
    requires |B| == FUTEX_BUCKETS
  {
    QueueIn(B[Hash(phys)], phys)
  }

  // ---- the invariant ------------------------------------------------------------------

  ghost predicate BucketOk(l: seq<WaitQ>, h: nat) {
    && (forall i :: 0 <= i < |l| ==> Hash(l[i].phys) == h && l[i].waiters != [])
    && (forall i, j :: 0 <= i < j < |l| ==> l[i].phys != l[j].phys)
  }

  /** A waiter is BLOCKED. */
  predicate Asleep(threads: map<Tid, Thread>, t: Tid) { t in threads && threads[t].status.Blocked? }

  ghost predicate QueueOk(B: Buckets, threads: map<Tid, Thread>, phys: nat)
    requires |B| == FUTEX_BUCKETS
  {
    && NoDup(Queue(B, phys))
    && (forall t :: t in Queue(B, phys) ==> Asleep(threads, t))
  }

  ghost predicate QueuesApart(B: Buckets, p: nat, q: nat)
    requires |B| == FUTEX_BUCKETS
  {
    p != q ==> forall t :: t in Queue(B, p) ==> t !in Queue(B, q)
  }

  /** Wait queues are non-empty, one per word and in the bucket of its hash; each waiter is
      BLOCKED and on one queue. */
  ghost predicate TableOk(B: Buckets, threads: map<Tid, Thread>) {
    && |B| == FUTEX_BUCKETS
    && (forall h {:trigger BucketOk(B[h], h)} :: 0 <= h < FUTEX_BUCKETS ==> BucketOk(B[h], h))
    && (forall p {:trigger QueueOk(B, threads, p)} :: 0 <= p ==> QueueOk(B, threads, p))
    && (forall p, q {:trigger QueuesApart(B, p, q)} :: 0 <= p && 0 <= q ==> QueuesApart(B, p, q))
  }

  /** Words whose addresses agree in bits 2 to 7 share a bucket, others do not. */
  lemma HashIs(phys: nat, other: nat)
    ensures Hash(phys) < 64 && (Hash(phys) == Hash(other) <==> phys / 4 % 64 == other / 4 % 64)
  {
  }

  // ---- one bucket -----------------------------------------------------------------------

  lemma {:induction false} IndexAt(l: seq<WaitQ>, i: nat)
    requires i < |l| && forall k :: 0 <= k < i ==> l[k].phys != l[i].phys
    ensures Index(l, l[i].phys) == i
  {
    if i > 0 { IndexAt(l[1..], i - 1); }
  }

  lemma IndexNone(l: seq<WaitQ>, phys: nat)
    requires forall k :: 0 <= k < |l| ==> l[k].phys != phys
    ensures Index(l, phys) == |l|
  {
  }

  /** Writing the waiters of one queue. */
  lemma SetWaiters(l: seq<WaitQ>, h: nat, i: nat, ws: seq<Tid>, phys: nat)
    requires BucketOk(l, h) && i < |l| && ws != []
    ensures var l' := l[i := WaitQ(l[i].phys, ws)];
      BucketOk(l', h) && QueueIn(l', phys) == if phys == l[i].phys then ws else QueueIn(l, phys)
  {
    var l' := l[i := WaitQ(l[i].phys, ws)];
    var k := Index(l, phys);
    if k < |l| {
      IndexAt(l, k);
      IndexAt(l', k);
      if phys == l[i].phys { IndexAt(l, i); }
    } else {
      IndexNone(l', phys);
    }
  }

  lemma AddQueue(l: seq<WaitQ>, h: nat, q: WaitQ, phys: nat)
    requires BucketOk(l, h) && Hash(q.phys) == h && q.waiters != [] && Index(l, q.phys) == |l|
    ensures BucketOk(l + [q], h) && QueueIn(l + [q], phys) == if phys == q.phys then q.waiters else QueueIn(l, phys)
  {
    var l', k := l + [q], Index(l, phys);
    assert forall j :: 0 <= j < |l| ==> l'[j] == l[j];
    assert l'[|l|] == q;
    if k < |l| {
      IndexAt(l', k);
    } else if phys == q.phys {
      IndexAt(l', |l|);
    } else {
      IndexNone(l', phys);
    }
  }

  lemma DropQueue(l: seq<WaitQ>, h: nat, i: nat, phys: nat)
    requires BucketOk(l, h) && i < |l|
    ensures var l' := l[..i] + l[i + 1..];
      BucketOk(l', h) && QueueIn(l', phys) == if phys == l[i].phys then [] else QueueIn(l, phys)
  {
    var l' := l[..i] + l[i + 1..];
    DropOk(l, h, i);
    var k := Index(l, phys);
    if phys == l[i].phys {
      assert forall j :: 0 <= j < |l'| ==> l'[j] == l[if j < i then j else j + 1];
      IndexNone(l', phys);
    } else if k == |l| {
      IndexNone(l', phys);
    } else {
      var j := if k < i then k else k - 1;
      assert l'[j] == l[k];
      IndexAt(l', j);
    }
  }

  lemma DropOk(l: seq<WaitQ>, h: nat, i: nat)
    requires BucketOk(l, h) && i < |l|
    ensures BucketOk(l[..i] + l[i + 1..], h)
  {
  }

  /** The table after bucket Hash(phys) became `l`, in which only the queue of `phys` changed. */
  lemma TableUpdate(B: Buckets, l: seq<WaitQ>, phys: nat, p: nat)
    requires |B| == FUTEX_BUCKETS
    requires p != phys ==> QueueIn(l, p) == QueueIn(B[Hash(phys)], p)
    ensures Queue(B[Hash(phys) := l], p) == if p == phys then QueueIn(l, phys) else Queue(B, p)
  {
  }

  // ---- the invariant after a queue changed -----------------------------------------------

  ghost predicate Only(B: Buckets, B': Buckets, phys: nat, ws: seq<Tid>)
    requires |B| == FUTEX_BUCKETS
  {
    && |B'| == FUTEX_BUCKETS
    && (forall h {:trigger BucketOk(B'[h], h)} :: 0 <= h < FUTEX_BUCKETS ==> BucketOk(B'[h], h))
    && (forall p: nat {:trigger Queue(B', p)} :: Queue(B', p) == if p == phys then ws else Queue(B, p))
  }

  /** The table keeps its invariant when a queue gains a thread that falls asleep, and loses
      some from the front that wake. */
  lemma InvUpdate(B: Buckets, threads: map<Tid, Thread>, B': Buckets, threads': map<Tid, Thread>, phys: nat, ws: seq<Tid>)
    requires TableOk(B, threads) && Only(B, B', phys, ws) && NoDup(ws)
    requires forall t :: t in ws ==> Asleep(threads', t)
    requires forall t :: t in ws ==> t in Queue(B, phys) || !Asleep(threads, t)
    requires forall t :: Asleep(threads, t) && t !in Queue(B, phys) ==> Asleep(threads', t)
    ensures TableOk(B', threads')
  {
    forall p: nat ensures QueueOk(B', threads', p) {
      assert QueueOk(B, threads, p) && QueuesApart(B, p, phys);
    }
    forall p: nat, q: nat ensures QueuesApart(B', p, q) {
      assert QueuesApart(B, p, q) && QueuesApart(B, phys, p) && QueuesApart(B, phys, q) && QueuesApart(B, p, phys) && QueuesApart(B, q, phys);
      assert QueueOk(B, threads, p) && QueueOk(B, threads, q);
    }
  }

  /** Any scheduler step that wakes no waiter leaves the table valid. */
  lemma InvThreads(B: Buckets, threads: map<Tid, Thread>, threads': map<Tid, Thread>)
    requires TableOk(B, threads)
    requires forall t, p: nat {:trigger t in Queue(B, p)} :: t in Queue(B, p) && Asleep(threads, t) ==> Asleep(threads', t)
    ensures TableOk(B, threads')
  {
    forall p: nat ensures QueueOk(B, threads', p) { assert QueueOk(B, threads, p); }
    forall p: nat, q: nat ensures QueuesApart(B, p, q) { assert QueuesApart(B, p, q); }
  }

  /** A sleeping thread sleeps on through every scheduler step but its own wake-up. */
  lemma AsleepStays(s: Sched, e: SchedRuns.Event, t: Tid)
    requires Inv(s) && SchedRuns.Enabled(s, e) && Asleep(s.threads, t) && (e.Wakes? ==> e.t != t)
    ensures Asleep(SchedRuns.Apply(s, e).threads, t)
  {
    assert ThreadOk(s, t) && ThreadOk(s, s.cur);
    forall l | 0 <= l < MLFQ_LEVELS ensures t !in s.runq[l] { assert Listed(s, l, t); }
    assert t !in Flat(s.runq) && t != s.cur;
  }

  /** The futex table stays valid whatever the scheduler does meanwhile, as long as nobody
      else wakes a waiter. */
  lemma StepKeeps(B: Buckets, s: Sched, e: SchedRuns.Event)
    requires Inv(s) && SchedRuns.Enabled(s, e) && TableOk(B, s.threads)
    requires e.Wakes? ==> forall p: nat :: e.t !in Queue(B, p)
    ensures TableOk(B, SchedRuns.Apply(s, e).threads)
  {
    var threads' := SchedRuns.Apply(s, e).threads;
    forall t, p: nat | t in Queue(B, p) && Asleep(s.threads, t) ensures Asleep(threads', t) {
      AsleepStays(s, e, t);
    }
    InvThreads(B, s.threads, threads');
  }

  // ---- the operations --------------------------------------------------------------------

  class Table {
    var buckets: Buckets
    const cpu: Cpu

    ghost predicate Valid()
      reads this, cpu
    {
      cpu.Valid() && !cpu.halted && TableOk(buckets, cpu.threads)
    }

    /** futex_init. */
    constructor (c: Cpu)
      requires c.Valid() && !c.halted
      ensures Valid() && cpu == c && forall p: nat :: Queue(buckets, p) == []
    {
      buckets := seq(FUTEX_BUCKETS, _ => []);
      cpu := c;
    }

    /** futex_find. */
    method Find(phys: nat) returns (i: nat)
      requires |buckets| == FUTEX_BUCKETS
      ensures i == Index(buckets[Hash(phys)], phys)
    {
      var l := buckets[Hash(phys)];
      i := 0;
      while i < |l| && l[i].phys != phys
        invariant i <= |l| && forall k :: 0 <= k < i ==> l[k].phys != phys
      {
        i := i + 1;
      }
      if i < |l| { IndexAt(l, i); } else { IndexNone(l, phys); }
    }

    /** futex_wait: `phys` is what pmap_extract gave for the address, `word` the value found
        there, `memory` whether a wait queue can be allocated.  On 0 the caller sleeps at the
        end of the queue and another thread runs (or the CPU halts). */
    method Wait(uaddr: nat, phys: nat, word: nat, expected: nat, memory: bool) returns (r: int)
      requires Valid()
      modifies this, cpu
      ensures cpu.Valid() && TableOk(buckets, cpu.threads)
      ensures uaddr % 4 != 0 ==> r == -EINVAL
      ensures uaddr % 4 == 0 && phys == 0 ==> r == -EFAULT
      ensures uaddr % 4 == 0 && phys != 0 ==>
        (r == if word != expected || (!memory && old(Queue(buckets, phys)) == []) then -EAGAIN else 0)
      ensures r != 0 ==> buckets == old(buckets) && cpu.State() == old(cpu.State())
      ensures r == 0 ==>
        && cpu.State() == Leave(old(cpu.State()), Blocked)
        && Only(old(buckets), buckets, phys, old(Queue(buckets, phys)) + [old(cpu.current)])
    {
      if uaddr % 4 != 0 { return -EINVAL; }
      if phys == 0 { return -EFAULT; }
      if word != expected { return -EAGAIN; }
      var h := Hash(phys);
      var i := Find(phys);
      ghost var B, s := buckets, cpu.State();
      assert BucketOk(B[h], h);
      if i == |buckets[h]| {
        if !memory { return -EAGAIN; }
        JoinNew(B, phys, s.cur);
        buckets := buckets[h := buckets[h] + [WaitQ(phys, [cpu.current])]];
      } else {
        var q := buckets[h][i];
        JoinOld(B, phys, s.cur);
        buckets := buckets[h := buckets[h][i := WaitQ(q.phys, q.waiters + [cpu.current])]];
      }
      SleepKeeps(s, B, buckets, phys);
      cpu.SchedLeave(Blocked);
      r := 0;
    }

    /** The loop of futex_wake on the queue at position `i`. */
    method WakeLoop(h: nat, i: nat, all: bool) returns (woken: nat)
      requires cpu.Valid() && !cpu.halted && h < |buckets| && i < |buckets[h]|
      requires NoDup(buckets[h][i].waiters) && forall t :: t in buckets[h][i].waiters ==> Asleep(cpu.threads, t)
      modifies this`buckets, cpu
      ensures cpu.Valid() && !cpu.halted
      ensures var q := old(buckets[h][i].waiters);
        && woken == (if all || q == [] then |q| else 1)
        && buckets == WithWaiters(old(buckets), h, i, q[woken..])
        && Woke(old(cpu.State()), cpu.State(), q[..woken])
    {
      ghost var q := buckets[h][i].waiters;
      woken := 0;
      WithSame(buckets, h, i);
      assert q[0..] == q && cpu.runq[0] + q[..0] == cpu.runq[0];
      while buckets[h][i].waiters != []
        invariant woken <= |q| && (!all ==> woken == 0) && cpu.Valid() && !cpu.halted
        invariant buckets == WithWaiters(old(buckets), h, i, q[woken..])
        invariant Woke(old(cpu.State()), cpu.State(), q[..woken])
        decreases |q| - woken
      {
        var t := buckets[h][i].waiters[0];
        assert t == q[woken] && t in q && t !in q[..woken];
        assert Asleep(old(cpu.threads), t);
        WithAgain(old(buckets), h, i, q[woken..], q[woken + 1..]);
        buckets := buckets[h := buckets[h][i := WaitQ(buckets[h][i].phys, buckets[h][i].waiters[1..])]];
        ghost var s := cpu.State();
        cpu.SchedEnqueue(t);
        WokeNext(old(cpu.State()), s, q[..woken], t);
        assert q[..woken] + [t] == q[..woken + 1];
        woken := woken + 1;
        if !all { break; }
      }
    }

    /** futex_wake: the first waiter, or all of them, become READY in queue order. */
    method Wake(uaddr: nat, phys: nat, all: bool) returns (r: int)
      requires Valid()
      modifies this`buckets, cpu
      ensures Valid()
      ensures uaddr % 4 != 0 ==> r == -EINVAL
      ensures uaddr % 4 == 0 && phys == 0 ==> r == -EFAULT
      ensures r < 0 ==> buckets == old(buckets) && cpu.State() == old(cpu.State())
      ensures uaddr % 4 == 0 && phys != 0 ==>
        var q := old(Queue(buckets, phys));
        && r == (if all || q == [] then |q| else 1)
        && Only(old(buckets), buckets, phys, q[r..])
        && Woke(old(cpu.State()), cpu.State(), q[..r])
    {
      if uaddr % 4 != 0 { return -EINVAL; }
      if phys == 0 { return -EFAULT; }
      var h := Hash(phys);
      var i := Find(phys);
      ghost var B, s := buckets, cpu.State();
      assert BucketOk(B[h], h) && QueueOk(B, s.threads, phys);
      if i == |buckets[h]| {
        NoWaiters(B, s, phys);
        return 0;
      }
      var woken := WakeLoop(h, i, all);
      ghost var rest := Queue(B, phys)[woken..];
      if buckets[h][i].waiters == [] {
        Emptied(B, phys);
        buckets := buckets[h := buckets[h][..i] + buckets[h][i + 1..]];
        assert buckets == B[h := B[h][..i] + B[h][i + 1..]];
      } else {
        Shortened(B, phys, rest);
      }
      WakeKeeps(s, cpu.State(), B, buckets, phys, woken);
      r := woken;
    }
  }

  function WithWaiters(B: Buckets, h: nat, i: nat, ws: seq<Tid>): (r: Buckets)
    requires h < |B| && i < |B[h]|
    ensures |r| == |B| && |r[h]| == |B[h]| && r[h][i] == WaitQ(B[h][i].phys, ws)
  {
    B[h := B[h][i := WaitQ(B[h][i].phys, ws)]]
  }

  lemma WithSame(B: Buckets, h: nat, i: nat)
    requires h < |B| && i < |B[h]|
    ensures WithWaiters(B, h, i, B[h][i].waiters) == B
  {
    assert B[h][i := B[h][i]] == B[h];
  }

  lemma WithAgain(B: Buckets, h: nat, i: nat, ws: seq<Tid>, ws': seq<Tid>)
    requires h < |B| && i < |B[h]|
    ensures WithWaiters(WithWaiters(B, h, i, ws), h, i, ws') == WithWaiters(B, h, i, ws')
  {
    var l, B1 := B[h], WithWaiters(B, h, i, ws);
    assert B1[h][i := WaitQ(l[i].phys, ws')] == l[i := WaitQ(l[i].phys, ws')];
  }

  // ---- lemmas for the operations -----------------------------------------------------------

  lemma JoinNew(B: Buckets, phys: nat, t: Tid)
    requires |B| == FUTEX_BUCKETS && Index(B[Hash(phys)], phys) == |B[Hash(phys)]|
    requires forall h {:trigger BucketOk(B[h], h)} :: 0 <= h < FUTEX_BUCKETS ==> BucketOk(B[h], h)
    ensures Only(B, B[Hash(phys) := B[Hash(phys)] + [WaitQ(phys, [t])]], phys, Queue(B, phys) + [t])
  {
    var h := Hash(phys);
    var B' := B[h := B[h] + [WaitQ(phys, [t])]];
    assert BucketOk(B[h], h);
    AddQueue(B[h], h, WaitQ(phys, [t]), phys);
    forall g | 0 <= g < FUTEX_BUCKETS ensures BucketOk(B'[g], g) { assert BucketOk(B[g], g); }
    forall p: nat ensures Queue(B', p) == if p == phys then Queue(B, phys) + [t] else Queue(B, p) {
      AddQueue(B[h], h, WaitQ(phys, [t]), p);
      TableUpdate(B, B'[h], phys, p);
    }
  }

  /** The queue of `phys` becomes `ws`. */
  lemma Shortened(B: Buckets, phys: nat, ws: seq<Tid>)
    requires |B| == FUTEX_BUCKETS && Index(B[Hash(phys)], phys) < |B[Hash(phys)]| && ws != []
    requires forall h {:trigger BucketOk(B[h], h)} :: 0 <= h < FUTEX_BUCKETS ==> BucketOk(B[h], h)
    ensures var h := Hash(phys);
      Only(B, B[h := B[h][Index(B[h], phys) := WaitQ(phys, ws)]], phys, ws)
  {
    var h := Hash(phys);
    var i := Index(B[h], phys);
    var B' := B[h := B[h][i := WaitQ(phys, ws)]];
    assert BucketOk(B[h], h);
    SetWaiters(B[h], h, i, ws, phys);
    forall g | 0 <= g < FUTEX_BUCKETS ensures BucketOk(B'[g], g) { assert BucketOk(B[g], g); }
    forall p: nat ensures Queue(B', p) == if p == phys then ws else Queue(B, p) {
      SetWaiters(B[h], h, i, ws, p);
      TableUpdate(B, B'[h], phys, p);
    }
  }

  lemma JoinOld(B: Buckets, phys: nat, t: Tid)
    requires |B| == FUTEX_BUCKETS && Index(B[Hash(phys)], phys) < |B[Hash(phys)]|
    requires forall h {:trigger BucketOk(B[h], h)} :: 0 <= h < FUTEX_BUCKETS ==> BucketOk(B[h], h)
    ensures var h := Hash(phys);
      Only(B, B[h := B[h][Index(B[h], phys) := WaitQ(phys, Queue(B, phys) + [t])]], phys, Queue(B, phys) + [t])
  {
    Shortened(B, phys, Queue(B, phys) + [t]);
  }

  lemma Emptied(B: Buckets, phys: nat)
    requires |B| == FUTEX_BUCKETS && Index(B[Hash(phys)], phys) < |B[Hash(phys)]|
    requires forall h {:trigger BucketOk(B[h], h)} :: 0 <= h < FUTEX_BUCKETS ==> BucketOk(B[h], h)
    ensures var h := Hash(phys);
      var i := Index(B[h], phys);
      Only(B, B[h := B[h][..i] + B[h][i + 1..]], phys, [])
  {
    var h := Hash(phys);
    var i := Index(B[h], phys);
    var B' := B[h := B[h][..i] + B[h][i + 1..]];
    assert BucketOk(B[h], h);
    DropQueue(B[h], h, i, phys);
    forall g | 0 <= g < FUTEX_BUCKETS ensures BucketOk(B'[g], g) { assert BucketOk(B[g], g); }
    forall p: nat ensures Queue(B', p) == if p == phys then [] else Queue(B, p) {
      DropQueue(B[h], h, i, p);
      TableUpdate(B, B'[h], phys, p);
    }
  }

  /** The running thread joined a queue and goes to sleep. */
  lemma SleepKeeps(s: Sched, B: Buckets, B': Buckets, phys: nat)
    requires Inv(s) && !s.halted && TableOk(B, s.threads)
    requires Only(B, B', phys, Queue(B, phys) + [s.cur])
    ensures TableOk(B', Leave(s, Blocked).threads)
  {
    var s' := Leave(s, Blocked);
    assert ThreadOk(s, s.cur) && QueueOk(B, s.threads, phys);
    forall t | Asleep(s.threads, t) || t == s.cur ensures Asleep(s'.threads, t) {
      AsleepLeave(s, t);
    }
    var q := Queue(B, phys);
    assert s.cur !in q;
    assert NoDup(q + [s.cur]);
    InvUpdate(B, s.threads, B', s'.threads, phys, q + [s.cur]);
  }

  lemma AsleepLeave(s: Sched, t: Tid)
    requires Inv(s) && !s.halted && (Asleep(s.threads, t) || t == s.cur)
    ensures Asleep(Leave(s, Blocked).threads, t)
  {
    var b := s.(threads := SetStatus(s.threads, s.cur, Blocked));
    if Runnable(b.runq) {
      var l := FirstLevel(b.runq, 0);
      assert Listed(s, l, s.runq[l][0]) && ThreadOk(s, s.cur);
    }
  }

  /** The scheduler after the threads `ts` were woken in this order. */
  ghost predicate Woke(s: Sched, s': Sched, ts: seq<Tid>) {
    && |s.runq| == |s'.runq| == MLFQ_LEVELS
    && s'.runq == s.runq[0 := s.runq[0] + ts] && s'.cur == s.cur && s'.ticks == s.ticks && s'.halted == s.halted
    && s'.threads.Keys == s.threads.Keys
    && forall t {:trigger s'.threads[t]} :: t in s.threads ==>
      s'.threads[t] == if t in ts then Thread(Ready, 0, Quantum(0)) else s.threads[t]
  }

  lemma WokeNext(s: Sched, s1: Sched, ts: seq<Tid>, t: Tid)
    requires Woke(s, s1, ts) && t in s.threads && t !in ts
    ensures Woke(s, Enqueue(s1, t), ts + [t])
  {
    assert s1.runq[0] + [t] == s.runq[0] + (ts + [t]);
  }

  lemma NoWaiters(B: Buckets, s: Sched, phys: nat)
    requires TableOk(B, s.threads) && Queue(B, phys) == [] && Inv(s)
    ensures Only(B, B, phys, []) && Woke(s, s, [])
  {
    assert s.runq[0] + [] == s.runq[0];
  }

  lemma WakeKeeps(s: Sched, s': Sched, B: Buckets, B': Buckets, phys: nat, k: nat)
    requires TableOk(B, s.threads) && k <= |Queue(B, phys)| && Only(B, B', phys, Queue(B, phys)[k..])
    requires Woke(s, s', Queue(B, phys)[..k])
    ensures TableOk(B', s'.threads)
  {
    var q := Queue(B, phys);
    assert QueueOk(B, s.threads, phys);
    assert q == q[..k] + q[k..];
    forall t | Asleep(s.threads, t) && t !in q[..k] ensures Asleep(s'.threads, t) {
      assert s'.threads[t] == s.threads[t];
    }
    forall t | t in q[k..] ensures t in q && t !in q[..k] {}
    InvUpdate(B, s.threads, B', s'.threads, phys, q[k..]);
  }
}
