/**
  The ticket lock of `kernel/misc/lock.c` as a machine of atomic accesses by any number of
  CPUs, with 32-bit counters.

  `issued` and `entered` are history: which CPU drew the n-th ticket since the lock was
  initialised, and which CPUs have entered, in order.  The ticket number a program counter
  carries beside its 32-bit value, and `served`, are history too: no step decides on them.
 */
module TicketLock {

  type Cpu = nat

  const WRAP: nat := 0x1_0000_0000

  datatype Pc =
    | Outside
    | Waiting(ticket: nat, n: nat) // spin_lock, drew ticket n
    | Inside(n: nat)
    | Leaving(n: nat, seen: nat) // spin_unlock, read now_serving
    | Trying(seen: nat, at: nat) // spin_trylock, read now_serving when `at` were served
    | Checked(seen: nat, at: nat) // and found next_ticket equal to it

  datatype Lock = Lock(
    serving: nat,
    next: nat,
    pc: map<Cpu, Pc>,
    served: nat,
    issued: seq<Cpu>,
    entered: seq<Cpu>)

  datatype Event = Draw(c: Cpu) | Spin(c: Cpu) | ReadServing(c: Cpu) | WriteServing(c: Cpu)
    | TryLoad(c: Cpu) | TryCheck(c: Cpu) | TryCas(c: Cpu)

  predicate Enabled(s: Lock, e: Event) {
    && e.c in s.pc
    && match e
       case Draw(c) => s.pc[c].Outside?
       case Spin(c) => s.pc[c].Waiting?
       case ReadServing(c) => s.pc[c].Inside?
       case WriteServing(c) => s.pc[c].Leaving?
       case TryLoad(c) => s.pc[c].Outside?
       case TryCheck(c) => s.pc[c].Trying?
       case TryCas(c) => s.pc[c].Checked?
  }

  function Apply(s: Lock, e: Event): Lock
    requires Enabled(s, e)
  {
    var c, p := e.c, s.pc[e.c];
    match e
    case Draw(_) =>
      s.(next := (s.next + 1) % WRAP, issued := s.issued + [c], pc := s.pc[c := Waiting(s.next, |s.issued|)])
    case Spin(_) =>
      if s.serving == p.ticket then s.(pc := s.pc[c := Inside(p.n)], entered := s.entered + [c]) else s
    case ReadServing(_) =>
      s.(pc := s.pc[c := Leaving(p.n, s.serving)])
    case WriteServing(_) =>
      s.(serving := (p.seen + 1) % WRAP, served := s.served + 1, pc := s.pc[c := Outside])
    case TryLoad(_) =>
      s.(pc := s.pc[c := Trying(s.serving, s.served)])
    case TryCheck(_) =>
      s.(pc := s.pc[c := if s.next != p.seen then Outside else Checked(p.seen, p.at)])
    case TryCas(_) =>
      if s.next == p.seen then
        s.(next := (p.seen + 1) % WRAP, issued := s.issued + [c], entered := s.entered + [c], pc := s.pc[c := Inside(|s.issued|)])
      else
        s.(pc := s.pc[c := Outside])
  }

  /** Fewer than 2^32 tickets were drawn since the trylock read `now_serving`. */
  predicate Fresh(s: Lock, e: Event)
    requires Enabled(s, e)
  {
    e.TryCas? ==> |s.issued| - s.pc[e.c].at < WRAP
  }

  // ---- the invariant -------------------------------------------------------------------

  predicate PcOk(s: Lock, c: Cpu)
    requires c in s.pc
  {
    match s.pc[c]
    case Outside => true
    case Waiting(t, n) => t == n % WRAP && |s.entered| <= n < |s.issued| && s.issued[n] == c
    case Inside(n) => n == s.served && |s.entered| == s.served + 1 && n < |s.issued| && s.issued[n] == c
    case Leaving(n, v) => n == s.served && |s.entered| == s.served + 1 && n < |s.issued| && s.issued[n] == c && v == s.serving
    case Trying(v, at) => v == at % WRAP && at <= s.served
    case Checked(v, at) => v == at % WRAP && at <= s.served
  }

  predicate Has(p: Pc, n: nat) { ((p.Waiting? || p.Inside? || p.Leaving?) && p.n == n) }

  /** Ticket n, drawn and not yet served, is in the hands of the CPU that drew it. */
  predicate Owned(s: Lock, n: nat)
    requires n < |s.issued|
  {
    s.issued[n] in s.pc && Has(s.pc[s.issued[n]], n)
  }

  predicate HistoryOk(s: Lock) {
    && s.next == |s.issued| % WRAP && s.serving == s.served % WRAP
    && s.served <= |s.entered| <= s.served + 1 && |s.entered| <= |s.issued|
    && s.entered == s.issued[..|s.entered|]
  }

  ghost predicate Inv(s: Lock) {
    && HistoryOk(s)
    && (forall c {:trigger PcOk(s, c)} :: c in s.pc ==> PcOk(s, c))
    && (forall n {:trigger Owned(s, n)} :: s.served <= n < |s.issued| ==> Owned(s, n))
  }

  // ---- the number of outstanding tickets ------------------------------------------------

  lemma {:induction false} Pigeonhole(l: seq<Cpu>, C: set<Cpu>)
    requires forall i :: 0 <= i < |l| ==> l[i] in C
    requires forall i, j :: 0 <= i < j < |l| ==> l[i] != l[j]
    ensures |l| <= |C|
  {
    if l != [] {
      var n := |l| - 1;
      Pigeonhole(l[..n], C - {l[n]});
    }
  }

  /** No CPU holds two tickets, so there are at most as many as CPUs. */
  lemma Outstanding(s: Lock)
    requires Inv(s)
    ensures |s.issued| - s.served <= |s.pc|
  {
    var l := s.issued[s.served..];
    forall i | 0 <= i < |l| ensures l[i] in s.pc.Keys { assert Owned(s, s.served + i); }
    forall i, j | 0 <= i < j < |l| ensures l[i] != l[j] {
      assert Owned(s, s.served + i) && Owned(s, s.served + j);
    }
    Pigeonhole(l, s.pc.Keys);
  }

  lemma SameResidue(a: nat, b: nat)
    requires a <= b < a + WRAP && a % WRAP == b % WRAP
    ensures a == b
  {
  }

  lemma NextResidue(a: nat)
    ensures (a % WRAP + 1) % WRAP == (a + 1) % WRAP
  {
  }

  // ---- every step keeps the invariant -----------------------------------------------------

  /** Only the ticket being served passes the spin loop. */
  lemma SpinExact(s: Lock, c: Cpu)
    requires Inv(s) && |s.pc| <= WRAP && c in s.pc && s.pc[c].Waiting?
    ensures s.serving == s.pc[c].ticket <==> s.pc[c].n == s.served
    ensures s.pc[c].n == s.served ==> |s.entered| == s.served
  {
    assert PcOk(s, c);
    Outstanding(s);
    if s.serving == s.pc[c].ticket { SameResidue(s.served, s.pc[c].n); }
  }

  /** A successful compare-and-swap finds the lock free. */
  lemma TryExact(s: Lock, c: Cpu)
    requires Inv(s) && c in s.pc && s.pc[c].Checked? && s.next == s.pc[c].seen
    requires |s.issued| - s.pc[c].at < WRAP
    ensures s.served == |s.issued|
  {
    assert PcOk(s, c);
    SameResidue(s.pc[c].at, |s.issued|);
  }

  /** The compare-and-swap of a trylock keeps the invariant exactly when it fails or the lock is
      free; it can only go wrong when 2^32 tickets were drawn since the trylock began. */
  lemma TryCasExact(s: Lock, c: Cpu)
    requires Inv(s) && |s.pc| <= WRAP && c in s.pc && s.pc[c].Checked?
    ensures Inv(Apply(s, TryCas(c))) <==> s.next != s.pc[c].seen || s.served == |s.issued|
    ensures !Inv(Apply(s, TryCas(c))) ==> |s.issued| - s.pc[c].at >= WRAP
  {
    var e, s' := TryCas(c), Apply(s, TryCas(c));
    assert PcOk(s, c);
    if s.next == s.pc[c].seen {
      if |s.issued| - s.pc[c].at < WRAP { TryExact(s, c); }
      if s.served == |s.issued| {
        NextResidue(|s.issued|);
        assert HistoryOk(s');
        forall d | d in s'.pc ensures PcOk(s', d) { assert PcOk(s, d); }
        forall n | s'.served <= n < |s'.issued| ensures Owned(s', n) {}
      } else {
        assert !PcOk(s', c);
      }
    } else {
      MissedCasKeeps(s, c);
    }
  }

  lemma MissedCasKeeps(s: Lock, c: Cpu)
    requires Inv(s) && c in s.pc && s.pc[c].Checked? && s.next != s.pc[c].seen
    ensures Inv(Apply(s, TryCas(c)))
  {
    var s' := Apply(s, TryCas(c));
    forall d | d in s'.pc ensures PcOk(s', d) { assert PcOk(s, d); }
    forall n | s'.served <= n < |s'.issued| ensures Owned(s', n) { assert Owned(s, n); }
  }

  lemma HistoryKeeps(s: Lock, e: Event)
    requires Inv(s) && Enabled(s, e) && |s.pc| <= WRAP && Fresh(s, e)
    ensures HistoryOk(Apply(s, e))
  {
    assert PcOk(s, e.c);
    NextResidue(|s.issued|);
    NextResidue(s.served);
    if e.Spin? { SpinExact(s, e.c); }
    if e.TryCas? && s.next == s.pc[e.c].seen { TryExact(s, e.c); }
    if e.Spin? && s.pc[e.c].n == s.served {
      assert s.issued[..s.served + 1] == s.issued[..s.served] + [e.c];
    }
    var s' := Apply(s, e);
    assert |s'.entered| <= |s.issued| ==> s'.issued[..|s'.entered|] == s.issued[..|s'.entered|];
  }

  lemma PcKeeps(s: Lock, e: Event, c: Cpu)
    requires Inv(s) && Enabled(s, e) && |s.pc| <= WRAP && Fresh(s, e) && c in s.pc
    ensures PcOk(Apply(s, e), c)
  {
    assert PcOk(s, e.c) && PcOk(s, c);
    if e.Spin? { SpinExact(s, e.c); }
    if e.TryCas? && s.next == s.pc[e.c].seen { TryExact(s, e.c); }
    NextResidue(s.served);
  }

  lemma OwnedKeeps(s: Lock, e: Event, n: nat)
    requires Inv(s) && Enabled(s, e) && |s.pc| <= WRAP && Fresh(s, e)
    requires Apply(s, e).served <= n < |Apply(s, e).issued|
    ensures Owned(Apply(s, e), n)
  {
    assert PcOk(s, e.c);
    assert n < |s.issued| ==> Owned(s, n);
    if e.Spin? { SpinExact(s, e.c); }
  }

  lemma StepKeeps(s: Lock, e: Event)
    requires Inv(s) && Enabled(s, e) && |s.pc| <= WRAP && Fresh(s, e)
    ensures Inv(Apply(s, e)) && Apply(s, e).pc.Keys == s.pc.Keys
  {
    var s' := Apply(s, e);
    HistoryKeeps(s, e);
    forall c | c in s'.pc ensures PcOk(s', c) { PcKeeps(s, e, c); }
    forall n | s'.served <= n < |s'.issued| ensures Owned(s', n) { OwnedKeeps(s, e, n); }
  }

  // ---- runs ---------------------------------------------------------------------------------

  predicate Critical(p: Pc) { p.Inside? || p.Leaving? }

  predicate Run(s: Lock, es: seq<Event>)
    decreases |es|
  {
    es == [] || (Enabled(s, es[0]) && Fresh(s, es[0]) && Run(Apply(s, es[0]), es[1..]))
  }

  function After(s: Lock, es: seq<Event>): Lock
    requires Run(s, es)
    decreases |es|
  {
    if es == [] then s else After(Apply(s, es[0]), es[1..])
  }

  /** spin_lock_init. */
  predicate Init(s: Lock) {
    && s.serving == 0 && s.next == 0 && s.served == 0 && s.issued == [] && s.entered == []
    && forall c :: c in s.pc ==> s.pc[c].Outside?
  }

  lemma {:induction false} RunKeeps(s: Lock, es: seq<Event>)
    requires Inv(s) && |s.pc| <= WRAP && Run(s, es)
    ensures Inv(After(s, es))
    decreases |es|
  {
    if es != [] {
      StepKeeps(s, es[0]);
      assert |Apply(s, es[0]).pc.Keys| == |s.pc.Keys|;
      RunKeeps(Apply(s, es[0]), es[1..]);
    }
  }

  /** In every interleaving at most one CPU is inside, and the CPUs have entered in the order
      in which they drew tickets (a successful trylock draws and enters at once). */
  lemma MutualExclusion(s: Lock, es: seq<Event>, c: Cpu, d: Cpu)
    requires Init(s) && |s.pc| <= WRAP && Run(s, es)
    ensures var s' := After(s, es);
      && (c in s'.pc && d in s'.pc && Critical(s'.pc[c]) && Critical(s'.pc[d]) ==> c == d)
      && |s'.entered| <= |s'.issued| && s'.entered == s'.issued[..|s'.entered|]
  {
    forall c | c in s.pc ensures PcOk(s, c) {}
    RunKeeps(s, es);
    var s' := After(s, es);
    assert c in s'.pc ==> PcOk(s', c);
    assert d in s'.pc ==> PcOk(s', d);
  }

  // ---- nobody waits for ever by the lock's own doing ---------------------------------------

  lemma {:induction false} RunAppend(s: Lock, es: seq<Event>, fs: seq<Event>)
    requires Run(s, es) && Run(After(s, es), fs)
    ensures Run(s, es + fs) && After(s, es + fs) == After(After(s, es), fs)
    decreases |es|
  {
    if es == [] {
      assert es + fs == fs;
    } else {
      assert (es + fs)[1..] == es[1..] + fs;
      RunAppend(Apply(s, es[0]), es[1..], fs);
    }
  }

  /** The holder of the ticket being served, waiting or inside, can pass the lock on by itself:
      no other CPU takes a step. */
  lemma PassOn(s: Lock) returns (es: seq<Event>)
    requires Inv(s) && |s.pc| <= WRAP && s.served < |s.issued|
    ensures Run(s, es) && |es| <= 3
    ensures var s' := After(s, es);
      && Inv(s') && s'.pc.Keys == s.pc.Keys && s'.served == s.served + 1 && s'.issued == s.issued
      && forall c :: c in s.pc && c != s.issued[s.served] ==> s'.pc[c] == s.pc[c]
  {
    var h := s.issued[s.served];
    assert Owned(s, s.served) && PcOk(s, h);
    if s.pc[h].Waiting? {
      SpinExact(s, h);
      var s1 := Step(s, Spin(h));
      var fs := LeaveBy(s1, h);
      es := [Spin(h)] + fs;
      assert es[1..] == fs;
    } else {
      es := LeaveBy(s, h);
    }
  }

  /** One step of a run. */
  lemma Step(s: Lock, e: Event) returns (s': Lock)
    requires Inv(s) && |s.pc| <= WRAP && Enabled(s, e) && Fresh(s, e)
    ensures s' == Apply(s, e) && Inv(s') && s'.pc.Keys == s.pc.Keys && |s'.pc| <= WRAP
  {
    s' := Apply(s, e);
    StepKeeps(s, e);
    assert |s'.pc.Keys| == |s.pc.Keys|;
  }

  lemma LeaveBy(s: Lock, h: Cpu) returns (es: seq<Event>)
    requires Inv(s) && |s.pc| <= WRAP && h in s.pc && Critical(s.pc[h])
    ensures Run(s, es) && |es| <= 2
    ensures var s' := After(s, es);
      && Inv(s') && s'.pc.Keys == s.pc.Keys && s'.served == s.served + 1 && s'.issued == s.issued
      && forall c :: c in s.pc && c != h ==> s'.pc[c] == s.pc[c]
  {
    if s.pc[h].Inside? {
      var s1 := Step(s, ReadServing(h));
      var s2 := Step(s1, WriteServing(h));
      es := [ReadServing(h), WriteServing(h)];
      assert es[1..] == [WriteServing(h)] && [WriteServing(h)][1..] == [];
      assert Run(s2, []) && Run(s1, [WriteServing(h)]);
      assert After(s1, [WriteServing(h)]) == After(s2, []) == s2;
    } else {
      var s1 := Step(s, WriteServing(h));
      es := [WriteServing(h)];
      assert es[1..] == [];
      assert Run(s1, []) && After(s1, []) == s1;
    }
  }

  /** A CPU that has drawn a ticket enters once those before it have passed the lock on: from
      every state there is a run, of no more than three steps for each of them and one of its
      own, in which only they and it take steps. */
  lemma {:induction false} CanEnter(s: Lock, c: Cpu) returns (es: seq<Event>)
    requires Inv(s) && |s.pc| <= WRAP && c in s.pc && s.pc[c].Waiting?
    ensures Run(s, es) && c in After(s, es).pc && After(s, es).pc[c].Inside?
    ensures s.served <= s.pc[c].n && |es| <= 3 * (s.pc[c].n - s.served) + 1
    decreases s.pc[c].n - s.served
  {
    assert PcOk(s, c);
    SpinExact(s, c);
    if s.pc[c].n == s.served {
      es := [Spin(c)];
      var s1 := Step(s, Spin(c));
      assert es[1..] == [];
      assert Run(s1, []) && After(s1, []) == s1;
    } else {
      assert Owned(s, s.served);
      var fs := PassOn(s);
      var s1 := After(s, fs);
      assert |s1.pc.Keys| == |s.pc.Keys|;
      var gs := CanEnter(s1, c);
      RunAppend(s, fs, gs);
      es := fs + gs;
    }
  }

  // ---- why the window matters -------------------------------------------------------------

  /** CPU 0 has locked and unlocked k times since CPU 1 read the two counters of a new lock. */
  function Stalled(k: nat): Lock {
    Lock(k % WRAP, k % WRAP, map[0 := Outside, 1 := Checked(0, 0)], k, seq(k, _ => 0), seq(k, _ => 0))
  }

  lemma {:induction false} LockOnce(k: nat)
    ensures Run(Stalled(k), [Draw(0), Spin(0)])
    ensures After(Stalled(k), [Draw(0), Spin(0)]) ==
      Lock(k % WRAP, (k + 1) % WRAP, map[0 := Inside(k), 1 := Checked(0, 0)], k, seq(k + 1, _ => 0), seq(k + 1, _ => 0))
  {
    var s := Stalled(k);
    NextResidue(k);
    assert seq(k, _ => 0) + [0] == seq(k + 1, _ => 0);
    var s1 := Apply(s, Draw(0));
    var s2 := Apply(s1, Spin(0));
    assert [Draw(0), Spin(0)][1..] == [Spin(0)] && [Spin(0)][1..] == [];
    assert Run(s2, []) && Run(s1, [Spin(0)]);
    assert After(s1, [Spin(0)]) == After(s2, []) == s2;
    assert s2.pc == map[0 := Inside(k), 1 := Checked(0, 0)];
  }

  lemma {:induction false} LockAndUnlock(k: nat)
    ensures Run(Stalled(k), [Draw(0), Spin(0)] + [ReadServing(0), WriteServing(0)])
    ensures After(Stalled(k), [Draw(0), Spin(0)] + [ReadServing(0), WriteServing(0)]) == Stalled(k + 1)
  {
    LockOnce(k);
    var s := After(Stalled(k), [Draw(0), Spin(0)]);
    NextResidue(k);
    var s1 := Apply(s, ReadServing(0));
    var s2 := Apply(s1, WriteServing(0));
    var es := [ReadServing(0), WriteServing(0)];
    assert es[1..] == [WriteServing(0)] && [WriteServing(0)][1..] == [];
    assert Run(s2, []) && Run(s1, [WriteServing(0)]);
    assert After(s1, [WriteServing(0)]) == After(s2, []) == s2;
    assert s2.pc == map[0 := Outside, 1 := Checked(0, 0)];
    assert Run(s, es) && After(s, es) == Stalled(k + 1);
    RunAppend(Stalled(k), [Draw(0), Spin(0)], es);
  }

  function NewLock(): Lock { Lock(0, 0, map[0 := Outside, 1 := Outside], 0, [], []) }

  lemma {:induction false} ReachStalled(k: nat) returns (es: seq<Event>)
    ensures Run(NewLock(), es) && After(NewLock(), es) == Stalled(k)
  {
    if k == 0 {
      es := [TryLoad(1), TryCheck(1)];
      var s1 := Apply(NewLock(), TryLoad(1));
      var s2 := Apply(s1, TryCheck(1));
      assert es[1..] == [TryCheck(1)] && [TryCheck(1)][1..] == [];
      assert Run(s2, []) && Run(s1, [TryCheck(1)]);
      assert After(s1, [TryCheck(1)]) == After(s2, []) == s2;
      assert s2.pc == map[0 := Outside, 1 := Checked(0, 0)];
      assert seq(0, _ => 0) == [];
    } else {
      es := ReachStalled(k - 1);
      LockAndUnlock(k - 1);
      var fs := [Draw(0), Spin(0)] + [ReadServing(0), WriteServing(0)];
      RunAppend(NewLock(), es, fs);
      es := es + fs;
    }
  }

  /** A run of a new lock after which a trylock enters while another CPU is inside: 2^32 tickets
      are drawn between its read and its compare-and-swap. */
  lemma StaleTry() returns (es: seq<Event>, s: Lock)
    ensures Init(NewLock()) && Run(NewLock(), es) && s == After(NewLock(), es)
    ensures Enabled(s, TryCas(1)) && !Fresh(s, TryCas(1))
    ensures var s' := Apply(s, TryCas(1));
      0 in s'.pc && 1 in s'.pc && Critical(s'.pc[0]) && Critical(s'.pc[1])
  {
    var k := WRAP - 1;
    es := ReachStalled(k);
    LockOnce(k);
    RunAppend(NewLock(), es, [Draw(0), Spin(0)]);
    es := es + [Draw(0), Spin(0)];
    s := After(NewLock(), es);
  }
}
