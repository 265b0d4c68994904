/**
  What every guarded step of the IPC protocol keeps, and that the guards are exact.
 */
module IpcProof {
  import opened IpcState

  // ---- the invariant ---------------------------------------------------------------

  /** `x` is a blocked sender (or caller whose message is still its own) on the queue of `t`,
      and its message is as it was sent. */
  ghost predicate Queued(T: Threads, x: Tid, t: Tid) {
    && x in T && x != t && T[x].run == Blocked
    && (T[x].cont.InSend? || (T[x].cont.InCall? && !T[x].cont.taken))
    && T[x].cont.target == t && T[x].msg == T[x].cont.words
  }

  ghost predicate SendersOnly(T: Threads, t: Tid, q: seq<Slot>) {
    && (forall i :: 0 <= i < |q| ==> q[i].node == IpcList && Queued(T, q[i].tid, t))
    && (forall i, j :: 0 <= i < j < |q| ==> q[i] != q[j])
  }

  /** A blocked thread is where its system call left it. */
  ghost predicate Parked(T: Threads, t: Tid)
    requires t in T
  {
    var r := T[t];
    r.run == Blocked ==>
      && r.cont != Idle
      && (r.cont.InRecv? || r.cont.InCall? ==> r.ep == WaitRecv)
      && (r.cont.InSend? || (r.cont.InCall? && !r.cont.taken) ==>
            r.cont.target in T && r.cont.target != t && Slot(t, IpcList) in T[r.cont.target].queue && T[r.cont.target].ep == WaitSend)
  }

  /** The endpoint, its queue and the thread state agree. */
  ghost predicate ThreadOk(T: Threads, cur: Tid, t: Tid)
    requires t in T
  {
    var r := T[t];
    && t != NOBODY
    && (r.ep == Inactive <==> r.queue == [])
    && (r.run == Running <==> t == cur) && (r.run == Running ==> r.cont == Idle)
    && (r.ep == WaitRecv ==>
          && r.run == Blocked && (r.cont.InRecv? || r.cont.InCall?)
          && r.queue == [Slot(t, if r.cont.InRecv? then IpcList else IpcWaitList)])
    && (r.ep == WaitSend ==> SendersOnly(T, t, r.queue))
    && (r.cont.InCall? ==> r.cont.seq' == r.callSeq > 0)
    && Parked(T, t)
  }

  ghost predicate Replied(l: Log, c: Call) { exists i :: 0 <= i < |l.replies| && l.replies[i].call == c }

  /** A caller is blocked exactly until its call is answered, and then holds the answer. */
  ghost predicate CallOk(T: Threads, l: Log, t: Tid)
    requires t in T
  {
    var r := T[t];
    r.cont.InCall? ==>
      if r.run == Blocked then !Replied(l, Call(t, r.callSeq))
      else exists i :: 0 <= i < |l.replies| && l.replies[i] == Sent(Call(t, r.callSeq), r.sender, r.msg)
  }

  /** The reply context of a thread: the call it accepted last and has not answered. */
  ghost predicate ContextOk(T: Threads, l: Log, t: Tid)
    requires t in T
  {
    && t in l.owes
    && match l.owes[t] {
         case Nothing => (T[t].run == Blocked && T[t].cont.InRecv?) || T[t].prevSeq == 0
         case Reply(Call(c, q)) =>
           && q > 0 && c != t && T[t].prevSeq == q
           && (if T[t].cont.InCall? then T[t].cont.saved == c else T[t].sender == c)
           && Awaiting(T, c) && T[c].cont.seq' == q && T[c].cont.taken
           && Call(c, q) in l.accepted && l.accepted[Call(c, q)] == t
       }
  }

  ghost predicate AcceptedOk(T: Threads, l: Log, c: Call) {
    && c.caller in T && 0 < c.seq' <= T[c.caller].callSeq
    && (Awaiting(T, c.caller) && T[c.caller].cont.seq' == c.seq' ==> T[c.caller].cont.taken)
  }

  /** Every reply answers a call its server accepted, and no call is answered twice. */
  ghost predicate RepliesOk(l: Log) {
    && (forall i :: 0 <= i < |l.replies| ==>
          l.replies[i].call in l.accepted && l.accepted[l.replies[i].call] == l.replies[i].server)
    && (forall i, j :: 0 <= i < j < |l.replies| ==> l.replies[i].call != l.replies[j].call)
  }

  /** The message a queued thread is waiting to hand over. */
  function MsgOf(T: Threads, x: Tid): Msg
    requires x in T
  {
    Msg(x, T[x].msg, if T[x].cont.InCall? then T[x].callSeq else 0)
  }

  ghost function Pending(T: Threads, q: seq<Slot>): seq<Msg>
    requires forall i :: 0 <= i < |q| ==> q[i].tid in T
  {
    if q == [] then [] else [MsgOf(T, q[0].tid)] + Pending(T, q[1..])
  }

  /** What arrived is what was received, followed by what is queued, in that order. */
  ghost predicate FifoOk(T: Threads, l: Log, t: Tid)
    requires t in T && (T[t].ep == WaitSend ==> forall i :: 0 <= i < |T[t].queue| ==> T[t].queue[i].tid in T)
  {
    && t in l.arrived && t in l.got
    && l.arrived[t] == l.got[t] + (if T[t].ep == WaitSend then Pending(T, T[t].queue) else [])
  }

  /** A thread that is about to leave ipc_recv holds the last message it received. */
  ghost predicate ReceivedOk(T: Threads, l: Log, t: Tid)
    requires t in T
  {
    T[t].run != Blocked && T[t].cont.InRecv? ==> t in l.got && LastIs(l.got[t], Msg(T[t].sender, T[t].msg, T[t].prevSeq))
  }

  predicate LastIs(ms: seq<Msg>, m: Msg) { ms != [] && ms[|ms| - 1] == m }

  ghost predicate AllReceived(s: State) {
    forall t {:trigger ReceivedOk(s.threads, s.log, t)} :: t in s.threads ==> ReceivedOk(s.threads, s.log, t)
  }

  ghost predicate All(s: State, t: Tid)
    requires t in s.threads
  {
    && ThreadOk(s.threads, s.current, t) && CallOk(s.threads, s.log, t)
    && ContextOk(s.threads, s.log, t) && FifoOk(s.threads, s.log, t)
  }

  ghost predicate Inv(s: State) {
    && (s.current == NOBODY || s.current in s.threads)
    && (forall t {:trigger All(s, t)} :: t in s.threads ==> All(s, t))
    && (forall c {:trigger AcceptedOk(s.threads, s.log, c)} :: c in s.log.accepted ==> AcceptedOk(s.threads, s.log, c))
    && RepliesOk(s.log) && AllReceived(s)
  }

  // ---- pending messages ------------------------------------------------------------

  lemma {:induction false} PendingFrame(T: Threads, T': Threads, q: seq<Slot>)
    requires forall i :: 0 <= i < |q| ==> q[i].tid in T && q[i].tid in T' && MsgOf(T', q[i].tid) == MsgOf(T, q[i].tid)
    ensures Pending(T', q) == Pending(T, q)
  {
    if q != [] { PendingFrame(T, T', q[1..]); }
  }

  lemma {:induction false} PendingAppend(T: Threads, q: seq<Slot>, x: Slot)
    requires (forall i :: 0 <= i < |q| ==> q[i].tid in T) && x.tid in T
    ensures Pending(T, q + [x]) == Pending(T, q) + [MsgOf(T, x.tid)]
  {
    if q == [] {
      assert q + [x] == [x] && [x][1..] == [];
    } else {
      assert (q + [x])[1..] == q[1..] + [x];
      PendingAppend(T, q[1..], x);
    }
  }

  /** A queue of blocked senders keeps its messages when none of their threads changes them. */
  lemma PendingKept(T: Threads, T': Threads, t: Tid, cur: Tid)
    requires t in T && SendersOnly(T, t, T[t].queue)
    requires forall x :: x in T && x != cur && T[x].run == Blocked && !T[x].cont.InRecv? ==> x in T' && MsgOf(T', x) == MsgOf(T, x)
    requires cur in T && T[cur].run == Running
    ensures forall i :: 0 <= i < |T[t].queue| ==> T[t].queue[i].tid in T && T[t].queue[i].tid in T'
    ensures Pending(T', T[t].queue) == Pending(T, T[t].queue)
  {
    PendingFrame(T, T', T[t].queue);
  }

  /** One more blocked sender on a queue. */
  lemma SendersAppend(T: Threads, T': Threads, t: Tid, cur: Tid)
    requires t in T && (T[t].queue == [] || SendersOnly(T, t, T[t].queue)) && Queued(T', cur, t) && cur in T && T[cur].run == Running
    requires forall x :: x in T && x != cur && x != t ==> x in T' && T'[x] == T[x]
    ensures SendersOnly(T', t, T[t].queue + [Slot(cur, IpcList)])
  {
    var q := T[t].queue;
    forall i | 0 <= i < |q| ensures Queued(T', q[i].tid, t) && q[i].tid != cur { assert Queued(T, q[i].tid, t); }
  }

  lemma SendersFrame(T: Threads, T': Threads, t: Tid, cur: Tid)
    requires t in T && SendersOnly(T, t, T[t].queue) && cur in T && T[cur].run == Running
    requires forall x :: x in T && x != cur && T[x].run == Blocked ==>
      x in T' && T'[x].run == Blocked && T'[x].cont == T[x].cont && T'[x].msg == T[x].msg
    ensures SendersOnly(T', t, T[t].queue)
  {
    var q := T[t].queue;
    forall i | 0 <= i < |q| ensures Queued(T', q[i].tid, t) { assert Queued(T, q[i].tid, t); }
  }

  // ---- guards ----------------------------------------------------------------------

  /** A thread that can be a target: not the caller itself, and not waiting for a reply. */
  ghost predicate MayTarget(s: State, target: Tid) {
    target in s.threads && target != s.current && !Awaiting(s.threads, target)
  }

  ghost predicate Acting(s: State) { s.current in s.threads && Inv(s) }

  /** The invariant between the two halves of ipc_reply_recv: the current thread's remembered
      call may already be answered. */
  ghost predicate HalfAll(s: State, t: Tid)
    requires t in s.threads
  {
    && ThreadOk(s.threads, s.current, t) && CallOk(s.threads, s.log, t) && FifoOk(s.threads, s.log, t)
    && (ContextOk(s.threads, s.log, t) || (t == s.current && t in s.log.owes && s.log.owes[t] == Nothing))
  }

  ghost predicate Half(s: State) {
    && s.current in s.threads
    && (forall t {:trigger HalfAll(s, t)} :: t in s.threads ==> HalfAll(s, t))
    && (forall c {:trigger AcceptedOk(s.threads, s.log, c)} :: c in s.log.accepted ==> AcceptedOk(s.threads, s.log, c))
    && RepliesOk(s.log) && AllReceived(s)
  }

  lemma InvHalf(s: State)
    requires Acting(s)
    ensures Half(s)
  {
    forall t | t in s.threads ensures HalfAll(s, t) { assert All(s, t); }
  }

  /** The head of a queue can always be taken off. */
  lemma Total(s: State)
    requires Half(s)
    ensures forall t :: t in s.threads && s.threads[t].ep == WaitRecv ==> s.threads[t].queue != []
    ensures var q := s.threads[s.current].queue;
      s.threads[s.current].ep == WaitSend ==> q != [] && q[0].tid in s.threads && q[0].tid != s.current
  {
    forall t | t in s.threads ensures s.threads[t].ep == WaitRecv ==> s.threads[t].queue != [] { assert HalfAll(s, t); }
    assert HalfAll(s, s.current);
  }

  /** The parts of the invariant, one at a time. */
  lemma StateOf(s: State, t: Tid)
    requires Half(s) && t in s.threads
    ensures ThreadOk(s.threads, s.current, t)
  {
    assert HalfAll(s, t);
  }

  lemma OrderOf(s: State, t: Tid)
    requires Half(s) && t in s.threads
    ensures ThreadOk(s.threads, s.current, t) && FifoOk(s.threads, s.log, t)
  {
    assert HalfAll(s, t);
  }

  // ---- ipc_send --------------------------------------------------------------------

  /** The target was waiting for a message. */
  ghost predicate Direct(s: State, target: Tid) {
    Acting(s) && Half(s) && MayTarget(s, target) && s.threads[target].ep == WaitRecv && s.threads[target].queue != []
  }

  /** The target was not waiting. */
  ghost predicate Indirect(s: State, target: Tid) {
    Acting(s) && Half(s) && MayTarget(s, target) && s.threads[target].ep != WaitRecv
  }

  lemma SendThread(s: State, target: Tid, words: Words, t: Tid)
    requires Direct(s, target) && t in s.threads
    ensures ThreadOk(Send(s, target, words).threads, Send(s, target, words).current, t)
  {
    StateOf(s, t);
    StateOf(s, s.current);
    StateOf(s, target);
  }

  lemma SendThread'(s: State, target: Tid, words: Words, t: Tid)
    requires Indirect(s, target) && t in s.threads
    ensures ThreadOk(Send(s, target, words).threads, Send(s, target, words).current, t)
  {
    var T, T' := s.threads, Send(s, target, words).threads;
    StateOf(s, t);
    StateOf(s, s.current);
    StateOf(s, target);
    if t == target {
      SendersAppend(T, T', t, s.current);
    } else if T[t].ep == WaitSend {
      SendersFrame(T, T', t, s.current);
    }
  }

  lemma SendCalls(s: State, target: Tid, words: Words, t: Tid)
    requires (Direct(s, target) || Indirect(s, target)) && t in s.threads
    ensures CallOk(Send(s, target, words).threads, Send(s, target, words).log, t)
  {
    assert All(s, t) && All(s, s.current) && All(s, target);
  }

  lemma SendContext(s: State, target: Tid, words: Words, t: Tid)
    requires (Direct(s, target) || Indirect(s, target)) && t in s.threads
    ensures ContextOk(Send(s, target, words).threads, Send(s, target, words).log, t)
  {
    assert All(s, t) && All(s, s.current) && All(s, target);
  }

  lemma SendFifo(s: State, target: Tid, words: Words, t: Tid)
    requires Direct(s, target) && t in s.threads
    requires ThreadOk(Send(s, target, words).threads, Send(s, target, words).current, t)
    ensures FifoOk(Send(s, target, words).threads, Send(s, target, words).log, t)
  {
    OrderOf(s, t);
    StateOf(s, s.current);
    StateOf(s, target);
    if s.threads[t].ep == WaitSend { PendingKept(s.threads, Send(s, target, words).threads, t, s.current); }
  }

  lemma SendFifo'(s: State, target: Tid, words: Words, t: Tid)
    requires Indirect(s, target) && t in s.threads
    requires ThreadOk(Send(s, target, words).threads, Send(s, target, words).current, t)
    ensures FifoOk(Send(s, target, words).threads, Send(s, target, words).log, t)
  {
    var T, T' := s.threads, Send(s, target, words).threads;
    OrderOf(s, t);
    StateOf(s, s.current);
    StateOf(s, target);
    if T[t].ep == WaitSend { PendingKept(T, T', t, s.current); }
    if t == target { PendingAppend(T', T[t].queue, Slot(s.current, IpcList)); }
  }

  lemma SendLog(s: State, target: Tid, words: Words, c: Call)
    requires Acting(s) && MayTarget(s, target) && c in s.log.accepted
    requires s.threads[target].ep == WaitRecv ==> s.threads[target].queue != []
    ensures AcceptedOk(Send(s, target, words).threads, Send(s, target, words).log, c)
  {
    assert AcceptedOk(s.threads, s.log, c) && All(s, s.current);
  }

  lemma SendReceived(s: State, target: Tid, words: Words)
    requires Direct(s, target) || Indirect(s, target)
    ensures AllReceived(Send(s, target, words))
  {
    var s' := Send(s, target, words);
    StateOf(s, s.current);
    StateOf(s, target);
    forall t | t in s'.threads ensures ReceivedOk(s'.threads, s'.log, t) {
      assert ReceivedOk(s.threads, s.log, t);
    }
  }

  lemma SendKeeps(s: State, target: Tid, words: Words)
    requires Acting(s) && MayTarget(s, target)
    ensures s.threads[target].ep == WaitRecv ==> s.threads[target].queue != []
    ensures Inv(Send(s, target, words))
  {
    InvHalf(s);
    Total(s);
    var s' := Send(s, target, words);
    forall t | t in s'.threads ensures All(s', t) {
      if s.threads[target].ep == WaitRecv {
        SendThread(s, target, words, t);
        SendFifo(s, target, words, t);
      } else {
        SendThread'(s, target, words, t);
        SendFifo'(s, target, words, t);
      }
      SendCalls(s, target, words, t);
      SendContext(s, target, words, t);
    }
    forall c | c in s'.log.accepted ensures AcceptedOk(s'.threads, s'.log, c) { SendLog(s, target, words, c); }
    SendReceived(s, target, words);
  }

  // ---- ipc_recv --------------------------------------------------------------------

  ghost predicate Receiving(s: State) {
    && Half(s)
    && var q := s.threads[s.current].queue; (s.threads[s.current].ep == WaitSend ==> q != [] && q[0].tid in s.threads && q[0].tid != s.current)
  }

  lemma RecvThread(s: State, t: Tid)
    requires Receiving(s) && t in s.threads
    ensures ThreadOk(Recv(s).threads, Recv(s).current, t)
  {
    StateOf(s, t);
    StateOf(s, s.current);
    if s.threads[s.current].ep == WaitSend { StateOf(s, s.threads[s.current].queue[0].tid); }
  }

  lemma RecvCalls(s: State, t: Tid)
    requires Receiving(s) && t in s.threads
    ensures CallOk(Recv(s).threads, Recv(s).log, t)
  {
    assert HalfAll(s, t) && HalfAll(s, s.current);
    if s.threads[s.current].ep == WaitSend { assert HalfAll(s, s.threads[s.current].queue[0].tid); }
  }

  lemma RecvContext(s: State, t: Tid)
    requires Receiving(s) && t in s.threads
    ensures ContextOk(Recv(s).threads, Recv(s).log, t)
  {
    assert HalfAll(s, t) && HalfAll(s, s.current);
    if s.threads[s.current].ep == WaitSend { assert HalfAll(s, s.threads[s.current].queue[0].tid); }
  }

  lemma RecvFifo(s: State, t: Tid)
    requires Receiving(s) && t in s.threads
    requires ThreadOk(Recv(s).threads, Recv(s).current, t)
    ensures FifoOk(Recv(s).threads, Recv(s).log, t)
  {
    OrderOf(s, t);
    StateOf(s, s.current);
    if s.threads[t].ep == WaitSend {
      PendingKept(s.threads, Recv(s).threads, t, s.current);
      if t == s.current { RecvHead(s); }
    }
  }

  /** The message received is the first of those that were queued. */
  lemma RecvHead(s: State)
    requires Receiving(s) && s.threads[s.current].ep == WaitSend
    requires ThreadOk(s.threads, s.current, s.current) && FifoOk(s.threads, s.log, s.current)
    requires forall i :: 0 <= i < |s.threads[s.current].queue| ==> s.threads[s.current].queue[i].tid in Recv(s).threads
    requires Pending(Recv(s).threads, s.threads[s.current].queue) == Pending(s.threads, s.threads[s.current].queue)
    requires ThreadOk(Recv(s).threads, Recv(s).current, s.current)
    ensures FifoOk(Recv(s).threads, Recv(s).log, s.current)
  {
    var T, T', q := s.threads, Recv(s).threads, s.threads[s.current].queue;
    StateOf(s, q[0].tid);
    assert Queued(T, q[0].tid, s.current);
    assert Pending(T, q) == [MsgOf(T, q[0].tid)] + Pending(T, q[1..]);
    assert Pending(T', q) == [MsgOf(T', q[0].tid)] + Pending(T', q[1..]);
  }

  lemma RecvLog(s: State)
    requires Receiving(s)
    ensures RepliesOk(Recv(s).log)
    ensures forall c {:trigger AcceptedOk(Recv(s).threads, Recv(s).log, c)} :: c in Recv(s).log.accepted ==> AcceptedOk(Recv(s).threads, Recv(s).log, c)
  {
    var s' := Recv(s);
    assert HalfAll(s, s.current);
    if s.threads[s.current].ep == WaitSend { assert HalfAll(s, s.threads[s.current].queue[0].tid); }
    forall c | c in s'.log.accepted ensures AcceptedOk(s'.threads, s'.log, c) {
      if c in s.log.accepted { assert AcceptedOk(s.threads, s.log, c); }
    }
  }

  lemma RecvReceived(s: State)
    requires Receiving(s)
    ensures AllReceived(Recv(s))
  {
    var s' := Recv(s);
    StateOf(s, s.current);
    if s.threads[s.current].ep == WaitSend { StateOf(s, s.threads[s.current].queue[0].tid); }
    forall t | t in s'.threads ensures ReceivedOk(s'.threads, s'.log, t) {
      assert ReceivedOk(s.threads, s.log, t);
    }
  }

  lemma RecvKeeps(s: State)
    requires Half(s)
    ensures Receiving(s) && Inv(Recv(s))
  {
    Total(s);
    var s' := Recv(s);
    forall t | t in s'.threads ensures All(s', t) {
      RecvThread(s, t);
      RecvCalls(s, t);
      RecvContext(s, t);
      RecvFifo(s, t);
    }
    RecvLog(s);
    RecvReceived(s);
  }

  // ---- ipc_call --------------------------------------------------------------------

  /** A call also needs the caller's own queue to be empty. */
  ghost predicate MayCall(s: State, target: Tid) {
    MayTarget(s, target) && s.current in s.threads && s.threads[s.current].queue == []
  }

  lemma CallThread(s: State, target: Tid, words: Words, t: Tid)
    requires Direct(s, target) && MayCall(s, target) && t in s.threads
    ensures ThreadOk(DoCall(s, target, words).threads, DoCall(s, target, words).current, t)
  {
    StateOf(s, t);
    StateOf(s, s.current);
    StateOf(s, target);
  }

  lemma CallThread'(s: State, target: Tid, words: Words, t: Tid)
    requires Indirect(s, target) && MayCall(s, target) && t in s.threads
    ensures ThreadOk(DoCall(s, target, words).threads, DoCall(s, target, words).current, t)
  {
    var T, T' := s.threads, DoCall(s, target, words).threads;
    StateOf(s, t);
    StateOf(s, s.current);
    StateOf(s, target);
    if t == target {
      SendersAppend(T, T', t, s.current);
    } else if T[t].ep == WaitSend {
      SendersFrame(T, T', t, s.current);
    }
  }

  /** A new call's number is in no record yet. */
  lemma FreshCall(s: State)
    requires Acting(s)
    ensures var c := Call(s.current, s.threads[s.current].callSeq + 1);
      c !in s.log.accepted && !Replied(s.log, c)
  {
    var c := Call(s.current, s.threads[s.current].callSeq + 1);
    assert c in s.log.accepted ==> AcceptedOk(s.threads, s.log, c);
  }

  lemma CallCalls(s: State, target: Tid, words: Words, t: Tid)
    requires (Direct(s, target) || Indirect(s, target)) && MayCall(s, target) && t in s.threads
    ensures CallOk(DoCall(s, target, words).threads, DoCall(s, target, words).log, t)
  {
    FreshCall(s);
    assert All(s, t) && All(s, s.current) && All(s, target);
  }

  lemma CallContext(s: State, target: Tid, words: Words, t: Tid)
    requires (Direct(s, target) || Indirect(s, target)) && MayCall(s, target) && t in s.threads
    ensures ContextOk(DoCall(s, target, words).threads, DoCall(s, target, words).log, t)
  {
    FreshCall(s);
    assert All(s, t) && All(s, s.current) && All(s, target);
    if s.threads[target].ep == WaitRecv { CallContextNow(s, target, words, t); } else { CallContextLater(s, target, words, t); }
  }

  lemma CallContextNow(s: State, target: Tid, words: Words, t: Tid)
    requires Direct(s, target) && MayCall(s, target) && t in s.threads && All(s, t) && All(s, s.current) && All(s, target)
    ensures ContextOk(DoCall(s, target, words).threads, DoCall(s, target, words).log, t)
  {
  }

  lemma CallContextLater(s: State, target: Tid, words: Words, t: Tid)
    requires Indirect(s, target) && MayCall(s, target) && t in s.threads && All(s, t) && All(s, s.current) && All(s, target)
    ensures ContextOk(DoCall(s, target, words).threads, DoCall(s, target, words).log, t)
  {
  }

  lemma CallFifo(s: State, target: Tid, words: Words, t: Tid)
    requires Direct(s, target) && MayCall(s, target) && t in s.threads
    requires ThreadOk(DoCall(s, target, words).threads, DoCall(s, target, words).current, t)
    ensures FifoOk(DoCall(s, target, words).threads, DoCall(s, target, words).log, t)
  {
    OrderOf(s, t);
    StateOf(s, s.current);
    StateOf(s, target);
    if s.threads[t].ep == WaitSend { PendingKept(s.threads, DoCall(s, target, words).threads, t, s.current); }
  }

  lemma CallFifo'(s: State, target: Tid, words: Words, t: Tid)
    requires Indirect(s, target) && MayCall(s, target) && t in s.threads
    requires ThreadOk(DoCall(s, target, words).threads, DoCall(s, target, words).current, t)
    ensures FifoOk(DoCall(s, target, words).threads, DoCall(s, target, words).log, t)
  {
    var T, T' := s.threads, DoCall(s, target, words).threads;
    OrderOf(s, t);
    StateOf(s, s.current);
    StateOf(s, target);
    if T[t].ep == WaitSend { PendingKept(T, T', t, s.current); }
    if t == target { PendingAppend(T', T[t].queue, Slot(s.current, IpcList)); }
  }

  lemma CallLog(s: State, target: Tid, words: Words)
    requires (Direct(s, target) || Indirect(s, target)) && MayCall(s, target)
    ensures var s' := DoCall(s, target, words);
      && RepliesOk(s'.log)
      && forall c {:trigger AcceptedOk(s'.threads, s'.log, c)} :: c in s'.log.accepted ==> AcceptedOk(s'.threads, s'.log, c)
  {
    var s' := DoCall(s, target, words);
    FreshCall(s);
    assert All(s, s.current) && All(s, target);
    forall c | c in s'.log.accepted ensures AcceptedOk(s'.threads, s'.log, c) {
      if c in s.log.accepted { assert AcceptedOk(s.threads, s.log, c); }
    }
  }

  lemma CallReceived(s: State, target: Tid, words: Words)
    requires (Direct(s, target) || Indirect(s, target)) && MayCall(s, target)
    ensures AllReceived(DoCall(s, target, words))
  {
    var s' := DoCall(s, target, words);
    StateOf(s, s.current);
    StateOf(s, target);
    forall t | t in s'.threads ensures ReceivedOk(s'.threads, s'.log, t) {
      assert ReceivedOk(s.threads, s.log, t);
    }
  }

  lemma CallKeeps(s: State, target: Tid, words: Words)
    requires Acting(s) && MayCall(s, target)
    ensures s.threads[target].ep == WaitRecv ==> s.threads[target].queue != []
    ensures Inv(DoCall(s, target, words))
  {
    InvHalf(s);
    Total(s);
    var s' := DoCall(s, target, words);
    forall t | t in s'.threads ensures All(s', t) {
      if s.threads[target].ep == WaitRecv {
        CallThread(s, target, words, t);
        CallFifo(s, target, words, t);
      } else {
        CallThread'(s, target, words, t);
        CallFifo'(s, target, words, t);
      }
      CallCalls(s, target, words, t);
      CallContext(s, target, words, t);
    }
    CallLog(s, target, words);
    CallReceived(s, target, words);
  }

  // ---- ipc_reply_recv --------------------------------------------------------------

  /** ipc_reply_recv answers exactly when it owes an answer, and then answers exactly the
      call it accepted: its caller is blocked on that call. */
  lemma AnswersWhatItOwes(s: State)
    requires Acting(s)
    ensures s.current in s.log.owes
    ensures CanReply(s.threads, s.current) <==> s.log.owes[s.current].Reply?
    ensures CanReply(s.threads, s.current) ==>
      && var c := s.threads[s.current].sender;
      && s.log.owes[s.current] == Reply(Call(c, s.threads[s.current].prevSeq))
      && Awaiting(s.threads, c) && s.threads[c].cont.seq' == s.threads[s.current].prevSeq
      && Call(c, s.threads[s.current].prevSeq) in s.log.accepted
      && s.log.accepted[Call(c, s.threads[s.current].prevSeq)] == s.current
      && !Replied(s.log, Call(c, s.threads[s.current].prevSeq))
  {
    assert All(s, s.current);
    if s.log.owes[s.current].Reply? { assert All(s, s.log.owes[s.current].call.caller); }
  }

  lemma AnswerThread(s: State, words: Words, t: Tid)
    requires Acting(s) && t in s.threads
    ensures ThreadOk(Answer(s, words).threads, Answer(s, words).current, t)
  {
    AnswersWhatItOwes(s);
    assert All(s, t) && All(s, s.current);
    if CanReply(s.threads, s.current) { assert All(s, s.threads[s.current].sender); }
  }

  lemma AnswerCalls(s: State, words: Words, t: Tid)
    requires Acting(s) && t in s.threads
    ensures CallOk(Answer(s, words).threads, Answer(s, words).log, t)
  {
    AnswersWhatItOwes(s);
    assert All(s, t) && All(s, s.current);
    var s' := Answer(s, words);
    if CanReply(s.threads, s.current) {
      var c := s.threads[s.current].sender;
      assert All(s, c);
      var n := |s.log.replies|;
      assert s'.log.replies[n] == Sent(Call(c, s.threads[s.current].prevSeq), s.current, words);
      assert forall i :: 0 <= i < n ==> s'.log.replies[i] == s.log.replies[i];
    }
  }

  lemma AnswerContext(s: State, words: Words, t: Tid)
    requires Acting(s) && t in s.threads && t != s.current
    ensures ContextOk(Answer(s, words).threads, Answer(s, words).log, t)
  {
    AnswersWhatItOwes(s);
    assert All(s, t) && All(s, s.current);
    if CanReply(s.threads, s.current) { assert All(s, s.threads[s.current].sender); }
  }

  lemma AnswerFifo(s: State, words: Words, t: Tid)
    requires Acting(s) && t in s.threads && ThreadOk(Answer(s, words).threads, Answer(s, words).current, t)
    ensures FifoOk(Answer(s, words).threads, Answer(s, words).log, t)
  {
    var T, T' := s.threads, Answer(s, words).threads;
    AnswersWhatItOwes(s);
    assert All(s, t) && All(s, s.current);
    if CanReply(T, s.current) { assert All(s, T[s.current].sender); }
    if T[t].ep == WaitSend {
      forall i | 0 <= i < |T[t].queue| ensures T[t].queue[i].tid in T && T[t].queue[i].tid in T' && MsgOf(T', T[t].queue[i].tid) == MsgOf(T, T[t].queue[i].tid) {
        assert Queued(T, T[t].queue[i].tid, t);
      }
      PendingFrame(T, T', T[t].queue);
    }
  }

  lemma AnswerLog(s: State, words: Words)
    requires Acting(s)
    ensures var s' := Answer(s, words);
      && RepliesOk(s'.log)
      && forall c {:trigger AcceptedOk(s'.threads, s'.log, c)} :: c in s'.log.accepted ==> AcceptedOk(s'.threads, s'.log, c)
  {
    var s' := Answer(s, words);
    AnswersWhatItOwes(s);
    assert forall i :: 0 <= i < |s.log.replies| ==> s'.log.replies[i] == s.log.replies[i];
    forall c | c in s'.log.accepted ensures AcceptedOk(s'.threads, s'.log, c) { assert AcceptedOk(s.threads, s.log, c); }
  }

  lemma AnswerReceived(s: State, words: Words)
    requires Acting(s)
    ensures AllReceived(Answer(s, words))
  {
    var s' := Answer(s, words);
    AnswersWhatItOwes(s);
    forall t | t in s'.threads ensures ReceivedOk(s'.threads, s'.log, t) {
      assert ReceivedOk(s.threads, s.log, t);
    }
  }

  lemma AnswerKeeps(s: State, words: Words)
    requires Acting(s)
    ensures Half(Answer(s, words))
  {
    var s' := Answer(s, words);
    forall t | t in s'.threads ensures HalfAll(s', t) {
      assert All(s, t);
      AnswerThread(s, words, t);
      AnswerCalls(s, words, t);
      AnswerFifo(s, words, t);
      if t != s.current { AnswerContext(s, words, t); }
    }
    AnswerLog(s, words);
    AnswerReceived(s, words);
  }

  // ---- dispatching and preempting --------------------------------------------------

  /** What two states have in common when one thread, not blocked, goes on or off the CPU. */
  ghost predicate Switched(s: State, s': State, t: Tid) {
    && s'.log == s.log && s'.threads.Keys == s.threads.Keys && t in s.threads && s.threads[t].run != Blocked
    && (forall x :: x in s.threads && x != t ==> s'.threads[x] == s.threads[x])
    && s'.threads[t] == s.threads[t].(run := s'.threads[t].run, cont := s'.threads[t].cont, sender := s'.threads[t].sender)
    && s'.threads[t].run != Blocked && s'.threads[t].cont == Idle
    && s'.threads[t].sender == (if s.threads[t].cont.InCall? then s.threads[t].cont.saved else s.threads[t].sender)
    && (s'.threads[t].run == Running <==> t == s'.current) && (forall x :: x in s.threads && x != t ==> x != s.current && x != s'.current)
  }

  lemma SwitchThread(s: State, s': State, t: Tid, u: Tid)
    requires Switched(s, s', t) && u in s.threads && ThreadOk(s.threads, s.current, u) && ThreadOk(s.threads, s.current, t)
    ensures ThreadOk(s'.threads, s'.current, u)
  {
    var q := s.threads[u].queue;
    assert s.threads[u].ep == WaitSend ==> forall i :: 0 <= i < |q| ==> Queued(s.threads, q[i].tid, u);
  }

  lemma SwitchContext(s: State, s': State, t: Tid, u: Tid)
    requires Switched(s, s', t) && u in s.threads
    requires CallOk(s.threads, s.log, u) && ContextOk(s.threads, s.log, u)
    ensures CallOk(s'.threads, s'.log, u) && ContextOk(s'.threads, s'.log, u)
  {
  }

  lemma SwitchFifo(s: State, s': State, t: Tid, u: Tid)
    requires Switched(s, s', t) && u in s.threads && ThreadOk(s.threads, s.current, u) && FifoOk(s.threads, s.log, u)
    requires ThreadOk(s'.threads, s'.current, u)
    ensures FifoOk(s'.threads, s'.log, u)
  {
    if s.threads[u].ep == WaitSend { PendingFrame(s.threads, s'.threads, s.threads[u].queue); }
  }

  lemma SwitchKeeps(s: State, s': State, t: Tid)
    requires Inv(s) && Switched(s, s', t) && (s'.current == NOBODY || s'.current == t)
    ensures Inv(s')
  {
    forall u | u in s'.threads ensures All(s', u) {
      assert All(s, u) && All(s, t);
      SwitchAll(s, s', t, u);
    }
    forall c | c in s'.log.accepted ensures AcceptedOk(s'.threads, s'.log, c) { SwitchAccepted(s, s', t, c); }
    SwitchReceived(s, s', t);
  }

  lemma SwitchReceived(s: State, s': State, t: Tid)
    requires Inv(s) && Switched(s, s', t)
    ensures AllReceived(s')
  {
    forall u | u in s'.threads ensures ReceivedOk(s'.threads, s'.log, u) {
      assert ReceivedOk(s.threads, s.log, u);
    }
  }

  lemma SwitchAccepted(s: State, s': State, t: Tid, c: Call)
    requires Switched(s, s', t) && c in s.log.accepted && Inv(s)
    ensures AcceptedOk(s'.threads, s'.log, c)
  {
    assert AcceptedOk(s.threads, s.log, c);
  }

  lemma SwitchAll(s: State, s': State, t: Tid, u: Tid)
    requires Switched(s, s', t) && u in s.threads && All(s, u) && All(s, t)
    ensures All(s', u)
  {
    SwitchThread(s, s', t, u);
    SwitchContext(s, s', t, u);
    SwitchFifo(s, s', t, u);
  }

  lemma DispatchKeeps(s: State, t: Tid)
    requires Inv(s) && s.current == NOBODY && t in s.threads && s.threads[t].run == Ready
    ensures Inv(Dispatch(s, t))
  {
    forall x | x in s.threads ensures x != NOBODY { assert All(s, x); }
    SwitchKeeps(s, Dispatch(s, t), t);
  }

  lemma PreemptKeeps(s: State)
    requires Acting(s)
    ensures Inv(Preempt(s))
  {
    forall x | x in s.threads ensures x != NOBODY { assert All(s, x); }
    assert All(s, s.current);
    SwitchKeeps(s, Preempt(s), s.current);
  }
}
