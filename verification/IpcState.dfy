/**
  The message protocol of `kernel/task/ipc.c`, one system call at a time.

  System calls run with interrupts masked, so each runs in one step up to sched_block;
  what a blocked call still has to do is its continuation, run when the thread is next
  dispatched.  `Log` records what has happened and is not read by any operation.
 */
module IpcState {

  type Tid = nat
  const NOBODY: Tid := 0

  type Words = seq<int>

  datatype Run = Running | Ready | Blocked

  datatype EpState = Inactive | WaitSend | WaitRecv

  /** The two list nodes of a thread. */
  datatype ListNode = IpcList | IpcWaitList

  datatype Slot = Slot(tid: Tid, node: ListNode)

  /** Where a thread is inside ipc.c; `taken` says that the call's message was handed over. */
  datatype Cont =
    | Idle
    | InSend(target: Tid, words: Words)
    | InRecv
    | InCall(target: Tid, words: Words, seq': nat, saved: Tid, taken: bool)

  datatype Thread = Thread(run: Run, ep: EpState, queue: seq<Slot>, msg: Words,
                           sender: Tid, prevSeq: nat, callSeq: nat, cont: Cont)

  type Threads = map<Tid, Thread>

  datatype Msg = Msg(sender: Tid, words: Words, seq': nat)

  /** A call, named by its caller and the caller's call counter. */
  datatype Call = Call(caller: Tid, seq': nat)

  datatype Owes = Nothing | Reply(call: Call)

  datatype Sent = Sent(call: Call, server: Tid, words: Words)

  /** `arrived[t]`: messages sent to `t`; `got[t]`: messages `t` received; `owes[t]`: the call
      `t` has accepted and not answered; `accepted`: who accepted each call; `replies`: all
      replies delivered. */
  datatype Log = Log(arrived: map<Tid, seq<Msg>>, got: map<Tid, seq<Msg>>, owes: map<Tid, Owes>,
                     accepted: map<Call, Tid>, replies: seq<Sent>)

  datatype State = State(threads: Threads, current: Tid, log: Log)

  // ---- shared pieces ---------------------------------------------------------------

  predicate Awaiting(T: Threads, t: Tid) { t in T && T[t].run == Blocked && T[t].cont.InCall? }

  function Wake(r: Run): Run { if r == Blocked then Ready else r }

  function After(q: seq<Slot>, ep: EpState): EpState { if q == [] then Inactive else ep }

  /** ipc_deliver_msg: takes the head off the receiver's queue and hands it the message. */
  function DeliverMsg(T: Threads, recv: Tid, sender: Tid, words: Words, sq: nat): Threads
    requires recv in T && T[recv].queue != []
  {
    var r := T[recv];
    var q := r.queue[1..];
    T[recv := r.(queue := q, msg := words, sender := sender, prevSeq := sq, ep := After(q, r.ep), run := Wake(r.run))]
  }

  /** ipc_deliver_reply: the same, without touching the receiver's prevSeq. */
  function DeliverReply(T: Threads, recv: Tid, sender: Tid, words: Words): Threads
    requires recv in T && T[recv].queue != []
  {
    var r := T[recv];
    var q := r.queue[1..];
    T[recv := r.(queue := q, msg := words, sender := sender, ep := After(q, r.ep), run := Wake(r.run))]
  }

  /** ipc_accept: takes the first queued sender's message. */
  function Accept(T: Threads, recv: Tid): Threads
    requires recv in T && T[recv].queue != [] && T[recv].queue[0].tid in T && T[recv].queue[0].tid != recv
  {
    var r := T[recv];
    var snd := r.queue[0].tid;
    var s := T[snd];
    var q := r.queue[1..];
    var calls := s.ep == WaitRecv;
    T[recv := r.(queue := q, msg := s.msg, sender := snd, prevSeq := if calls then s.callSeq else 0, ep := After(q, r.ep))]
     [snd := if calls then s.(cont := Taken(s.cont)) else s.(run := Wake(s.run))]
  }

  function Taken(c: Cont): Cont { if c.InCall? then c.(taken := true) else c }

  // ---- the log ---------------------------------------------------------------------

  function Arrive(l: Log, t: Tid, m: Msg): Log {
    l.(arrived := l.arrived[t := (if t in l.arrived then l.arrived[t] else []) + [m]])
  }

  function Receive(l: Log, t: Tid, m: Msg): Log {
    var l1 := l.(got := l.got[t := (if t in l.got then l.got[t] else []) + [m]],
                 owes := l.owes[t := if m.seq' == 0 then Nothing else Reply(Call(m.sender, m.seq'))]);
    if m.seq' == 0 then l1 else l1.(accepted := l.accepted[Call(m.sender, m.seq') := t])
  }

  // ---- system calls ----------------------------------------------------------------

  /** ipc_send by the current thread. */
  function Send(s: State, target: Tid, words: Words): State
    requires s.current in s.threads && target in s.threads
    requires s.threads[target].ep == WaitRecv ==> s.threads[target].queue != []
  {
    var cur, T := s.current, s.threads;
    var m := Msg(cur, words, 0);
    if T[target].ep == WaitRecv then
      s.(threads := DeliverMsg(T, target, cur, words, 0), log := Receive(Arrive(s.log, target, m), target, m))
    else
      var T1 := T[cur := T[cur].(msg := words, run := Blocked, cont := InSend(target, words))];
      State(T1[target := T1[target].(ep := WaitSend, queue := T1[target].queue + [Slot(cur, IpcList)])],
            NOBODY, Arrive(s.log, target, m))
  }

  /** The receiving half that ipc_recv and ipc_reply_recv share. */
  function Recv(s: State): State
    requires s.current in s.threads
    requires var q := s.threads[s.current].queue;
      s.threads[s.current].ep == WaitSend ==> q != [] && q[0].tid in s.threads && q[0].tid != s.current
  {
    var cur, T := s.current, s.threads;
    if T[cur].ep == WaitSend then
      var snd := T[cur].queue[0].tid;
      s.(threads := Accept(T, cur),
         log := Receive(s.log, cur, Msg(snd, T[snd].msg, if T[snd].ep == WaitRecv then T[snd].callSeq else 0)))
    else
      s.(threads := T[cur := T[cur].(ep := WaitRecv, queue := T[cur].queue + [Slot(cur, IpcList)], run := Blocked, cont := InRecv)],
         current := NOBODY)
  }

  /** ipc_call by the current thread, up to sched_block. */
  function DoCall(s: State, target: Tid, words: Words): State
    requires s.current in s.threads && target in s.threads
    requires s.threads[target].ep == WaitRecv ==> s.threads[target].queue != []
  {
    var cur, T := s.current, s.threads;
    var r := T[cur];
    var sq := r.callSeq + 1;
    var m := Msg(cur, words, sq);
    var r1 := r.(callSeq := sq, ep := WaitRecv, queue := r.queue + [Slot(cur, IpcWaitList)]);
    var T1 := T[cur := r1];
    if T1[target].ep == WaitRecv then
      var T2 := DeliverMsg(T1, target, cur, words, sq);
      State(T2[cur := T2[cur].(run := Blocked, cont := InCall(target, words, sq, r.sender, true))],
            NOBODY, Receive(Arrive(s.log, target, m), target, m))
    else
      var T2 := T1[cur := r1.(msg := words, run := Blocked, cont := InCall(target, words, sq, r.sender, false))];
      State(T2[target := T2[target].(ep := WaitSend, queue := T2[target].queue + [Slot(cur, IpcList)])],
            NOBODY, Arrive(s.log, target, m))
  }

  /** The test of ipc_reply_recv: is the remembered caller blocked on the remembered call? */
  predicate CanReply(T: Threads, cur: Tid)
    requires cur in T
  {
    var c := T[cur].sender;
    && T[cur].prevSeq != 0 && c in T && c != cur && T[c].callSeq == T[cur].prevSeq
    && T[c].ep == WaitRecv && T[c].queue != []
  }

  /** The replying half of ipc_reply_recv. */
  function Answer(s: State, words: Words): State
    requires s.current in s.threads
  {
    var cur, T := s.current, s.threads;
    var l := s.log.(owes := s.log.owes[cur := Nothing]);
    if CanReply(T, cur) then
      var c := T[cur].sender;
      s.(threads := DeliverReply(T, c, cur, words),
         log := l.(replies := l.replies + [Sent(Call(c, T[cur].prevSeq), cur, words)]))
    else s.(log := l)
  }

  // ---- the scheduler's part --------------------------------------------------------

  /** A ready thread is dispatched and finishes the call it is in. */
  function Dispatch(s: State, t: Tid): State
    requires t in s.threads
  {
    var r := s.threads[t];
    var sender := if r.cont.InCall? then r.cont.saved else r.sender;
    s.(threads := s.threads[t := r.(run := Running, cont := Idle, sender := sender)], current := t)
  }

  /** The current thread is preempted or yields outside of any IPC call. */
  function Preempt(s: State): State
    requires s.current in s.threads
  {
    s.(threads := s.threads[s.current := s.threads[s.current].(run := Ready)], current := NOBODY)
  }
}
