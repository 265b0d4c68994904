/**
  Whole runs of the IPC protocol: which steps keep the invariant, and what follows.
 */
module IpcRuns {
  import opened IpcState
  import opened IpcProof

  // ---- the guards are exact --------------------------------------------------------

  lemma SendBreaks(s: State, target: Tid, words: Words)
    requires Acting(s) && target in s.threads && !MayTarget(s, target)
    requires s.threads[target].ep == WaitRecv ==> s.threads[target].queue != []
    ensures !Inv(Send(s, target, words))
  {
    var s' := Send(s, target, words);
    assert All(s, s.current) && All(s, target);
    if target == s.current {
      assert !Parked(s'.threads, target);
      assert !All(s', target);
    } else {
      NoReplyYet(s.log, s'.log, Call(target, s.threads[target].callSeq));
      assert !CallOk(s'.threads, s'.log, target);
      assert !All(s', target);
    }
  }

  lemma NoReplyYet(l: Log, l': Log, c: Call)
    requires l'.replies == l.replies && !Replied(l, c)
    ensures forall i :: 0 <= i < |l'.replies| ==> l'.replies[i].call != c
  {
  }

  /** ipc_send keeps the protocol's invariant exactly when its target may be sent to. */
  lemma SendExact(s: State, target: Tid, words: Words)
    requires Acting(s) && target in s.threads
    ensures s.threads[target].ep == WaitRecv ==> s.threads[target].queue != []
    ensures Inv(Send(s, target, words)) <==> MayTarget(s, target)
  {
    InvHalf(s);
    Total(s);
    if MayTarget(s, target) { SendKeeps(s, target, words); } else { SendBreaks(s, target, words); }
  }

  lemma CallBreaks(s: State, target: Tid, words: Words)
    requires Acting(s) && target in s.threads && !MayCall(s, target)
    requires s.threads[target].ep == WaitRecv ==> s.threads[target].queue != []
    ensures !Inv(DoCall(s, target, words))
  {
    var s' := DoCall(s, target, words);
    var cur, T := s.current, s.threads;
    assert All(s, cur) && All(s, target);
    if target == cur {
      if T[cur].queue == [] {
        assert s'.threads[cur].ep == Inactive && !Parked(s'.threads, cur);
        assert !All(s', cur);
      } else {
        LostSender(s, words);
      }
    } else if T[cur].queue != [] {
      assert |s'.threads[cur].queue| >= 2 && s'.threads[cur].ep == WaitRecv;
      assert !ThreadOk(s'.threads, s'.current, cur);
      assert !All(s', cur);
    } else {
      NoReplyYet(s.log, s'.log, Call(target, T[target].callSeq));
      assert !CallOk(s'.threads, s'.log, target);
      assert !All(s', target);
    }
  }

  /** A call to oneself with a sender waiting takes that sender off the queue for good. */
  lemma LostSender(s: State, words: Words)
    requires Acting(s) && s.threads[s.current].queue != []
    requires s.threads[s.current].ep == WaitRecv ==> s.threads[s.current].queue != []
    ensures !Inv(DoCall(s, s.current, words))
  {
    var cur, T := s.current, s.threads;
    var s' := DoCall(s, cur, words);
    assert All(s, cur);
    var x := T[cur].queue[0].tid;
    assert Queued(T, x, cur) && All(s, x);
    var q := T[cur].queue + [Slot(cur, IpcWaitList)];
    assert s'.threads[cur].queue == q[1..] && s'.threads[x] == T[x];
    assert Slot(x, IpcList) !in q[1..] by {
      forall i | 1 <= i < |q| ensures q[i] != Slot(x, IpcList) {
        assert i < |T[cur].queue| ==> T[cur].queue[i] != T[cur].queue[0];
      }
    }
    assert !Parked(s'.threads, x);
    assert !All(s', x);
  }

  /** ipc_call keeps the protocol's invariant exactly when its target may be called and the
      caller has nobody waiting to send to it. */
  lemma CallExact(s: State, target: Tid, words: Words)
    requires Acting(s) && target in s.threads
    ensures s.threads[target].ep == WaitRecv ==> s.threads[target].queue != []
    ensures Inv(DoCall(s, target, words)) <==> MayCall(s, target)
  {
    InvHalf(s);
    Total(s);
    if MayCall(s, target) { CallKeeps(s, target, words); } else { CallBreaks(s, target, words); }
  }

  // ---- runs ------------------------------------------------------------------------

  datatype Event =
    | Sends(target: Tid, words: Words)
    | Receives
    | Calls(target: Tid, words: Words)
    | RepliesAndReceives(words: Words)
    | Dispatched(t: Tid)
    | Preempted

  /** The event can happen, and its system call is one the guards allow. */
  ghost predicate Guarded(s: State, e: Event) {
    match e
    case Sends(target, _) => s.current in s.threads && MayTarget(s, target)
    case Receives => s.current in s.threads
    case Calls(target, _) => MayCall(s, target)
    case RepliesAndReceives(_) => s.current in s.threads
    case Dispatched(t) => s.current == NOBODY && t in s.threads && s.threads[t].run == Ready
    case Preempted => s.current in s.threads
  }

  ghost function Step(s: State, e: Event): (s': State)
    requires Inv(s) && Guarded(s, e)
    ensures Inv(s') && s'.threads.Keys == s.threads.Keys
  {
    match e
    case Sends(target, words) => SendKeeps(s, target, words); Send(s, target, words)
    case Receives => InvHalf(s); RecvKeeps(s); Recv(s)
    case Calls(target, words) => CallKeeps(s, target, words); DoCall(s, target, words)
    case RepliesAndReceives(words) => AnswerKeeps(s, words); RecvKeeps(Answer(s, words)); Recv(Answer(s, words))
    case Dispatched(t) => DispatchKeeps(s, t); Dispatch(s, t)
    case Preempted => PreemptKeeps(s); Preempt(s)
  }

  /** All threads ready, nothing sent. */
  function Start(tids: set<Tid>): State {
    State(map t | t in tids :: Thread(Ready, Inactive, [], [], NOBODY, 0, 0, Idle), NOBODY,
          Log(map t | t in tids :: [], map t | t in tids :: [], map t | t in tids :: Nothing, map[], []))
  }

  lemma StartOk(tids: set<Tid>)
    requires NOBODY !in tids
    ensures Inv(Start(tids))
  {
    var s := Start(tids);
    forall t | t in s.threads ensures All(s, t) { }
  }

  /** A sequence of events that is guarded from first to last. */
  ghost predicate Run(s: State, es: seq<Event>)
    requires Inv(s)
    decreases |es|
  {
    es == [] || (Guarded(s, es[0]) && Run(Step(s, es[0]), es[1..]))
  }

  ghost function Exec(s: State, es: seq<Event>): (s': State)
    requires Inv(s) && Run(s, es)
    ensures Inv(s')
    decreases |es|
  {
    if es == [] then s else Exec(Step(s, es[0]), es[1..])
  }

  // ---- what holds in every reachable state -----------------------------------------

  /** After any guarded run: messages are received in the order they arrived at an endpoint,
      each at most once; each call is answered at most once, by the thread that accepted it. */
  lemma RunSafety(tids: set<Tid>, es: seq<Event>)
    requires NOBODY !in tids && Inv(Start(tids)) && Run(Start(tids), es)
    ensures var s := Exec(Start(tids), es);
      && (forall t :: t in s.threads ==> t in s.log.got && t in s.log.arrived && s.log.got[t] <= s.log.arrived[t])
      && (forall i, j :: 0 <= i < j < |s.log.replies| ==> s.log.replies[i].call != s.log.replies[j].call)
      && (forall i :: 0 <= i < |s.log.replies| ==>
            s.log.replies[i].call in s.log.accepted && s.log.accepted[s.log.replies[i].call] == s.log.replies[i].server)
  {
    var s := Exec(Start(tids), es);
    forall t | t in s.threads ensures t in s.log.got && t in s.log.arrived && s.log.got[t] <= s.log.arrived[t] {
      assert All(s, t);
    }
  }

  // ---- where the words come from ---------------------------------------------------

  /** What the event sends to `t`: the words its caller passed, under its name and, for a
      call, the number of that call. */
  function MsgFor(s: State, e: Event, t: Tid): seq<Msg> {
    match e
    case Sends(target, words) => if target == t then [Msg(s.current, words, 0)] else []
    case Calls(target, words) =>
      if target == t && s.current in s.threads then [Msg(s.current, words, s.threads[s.current].callSeq + 1)] else []
    case _ => []
  }

  /** The answer the event gives: the words its caller passed, to the call it owes. */
  function AnswerOf(s: State, e: Event): seq<Sent> {
    if e.RepliesAndReceives? && s.current in s.log.owes && s.log.owes[s.current].Reply?
    then [Sent(s.log.owes[s.current].call, s.current, e.words)] else []
  }

  lemma Logged(s: State, t: Tid)
    requires Inv(s) && t in s.threads
    ensures t in s.log.arrived && t in s.log.got && t in s.log.owes && s.log.got[t] <= s.log.arrived[t]
  {
    assert All(s, t);
  }

  lemma StepArrives(s: State, e: Event, t: Tid)
    requires Inv(s) && Guarded(s, e) && t in s.threads
    ensures t in s.log.arrived && t in Step(s, e).log.arrived
    ensures Step(s, e).log.arrived[t] == s.log.arrived[t] + MsgFor(s, e, t)
  {
    Logged(s, t);
    if s.current in s.threads {
      InvHalf(s);
      Total(s);
    }
    match e
    case Sends(target, words) =>
      Logged(s, target);
      ArrivesBySend(s, target, words, t);
    case Calls(target, words) =>
      Logged(s, target);
      ArrivesByCall(s, target, words, t);
    case Receives => RecvKeeps(s);
    case RepliesAndReceives(words) =>
      AnswerKeeps(s, words);
      RecvKeeps(Answer(s, words));
    case _ =>
  }

  lemma ArrivesBySend(s: State, target: Tid, words: Words, t: Tid)
    requires Acting(s) && target in s.threads && t in s.threads && t in s.log.arrived && target in s.log.arrived
    requires s.threads[target].ep == WaitRecv ==> s.threads[target].queue != []
    ensures t in Send(s, target, words).log.arrived
    ensures Send(s, target, words).log.arrived[t] == s.log.arrived[t] + if target == t then [Msg(s.current, words, 0)] else []
    ensures Send(s, target, words).log.replies == s.log.replies
  {
  }

  lemma ArrivesByCall(s: State, target: Tid, words: Words, t: Tid)
    requires Acting(s) && target in s.threads && t in s.threads && t in s.log.arrived && target in s.log.arrived
    requires s.threads[target].ep == WaitRecv ==> s.threads[target].queue != []
    ensures t in DoCall(s, target, words).log.arrived
    ensures DoCall(s, target, words).log.arrived[t]
         == s.log.arrived[t] + if target == t then [Msg(s.current, words, s.threads[s.current].callSeq + 1)] else []
    ensures DoCall(s, target, words).log.replies == s.log.replies
  {
  }

  lemma StepAnswers(s: State, e: Event)
    requires Inv(s) && Guarded(s, e)
    ensures Step(s, e).log.replies == s.log.replies + AnswerOf(s, e)
  {
    if s.current in s.threads {
      InvHalf(s);
      Total(s);
    }
    match e
    case Receives => RecvKeeps(s);
    case RepliesAndReceives(words) =>
      AnswersWhatItOwes(s);
      AnswerKeeps(s, words);
      RecvKeeps(Answer(s, words));
    case _ =>
  }

  /** ipc_reply_recv answers the call it owes, and no other, with the words it was passed:
      its caller holds them under this thread's name. */
  lemma AnswerGives(s: State, words: Words)
    requires Acting(s)
    ensures Receiving(Answer(s, words)) && s.current in s.log.owes
    ensures var s' := Recv(Answer(s, words));
      match s.log.owes[s.current]
      case Nothing => s'.log.replies == s.log.replies
      case Reply(c) =>
        && s'.log.replies == s.log.replies + [Sent(c, s.current, words)]
        && c.caller in s'.threads && s'.threads[c.caller].msg == words && s'.threads[c.caller].sender == s.current
        && s'.threads[c.caller].run == Ready
  {
    AnswersWhatItOwes(s);
    AnswerKeeps(s, words);
    RecvKeeps(Answer(s, words));
    if s.log.owes[s.current].Reply? { AnsweredStays(s, words); }
  }

  /** The receiving half leaves the caller just answered alone. */
  lemma AnsweredStays(s: State, words: Words)
    requires Acting(s) && CanReply(s.threads, s.current) && Receiving(Answer(s, words))
    ensures var s1 := Answer(s, words);
      var c := s.threads[s.current].sender;
      c in s1.threads && c in Recv(s1).threads && Recv(s1).threads[c].msg == s1.threads[c].msg
      && Recv(s1).threads[c].sender == s1.threads[c].sender && Recv(s1).threads[c].run == s1.threads[c].run == Ready
  {
    AnswersWhatItOwes(s);
    var s1 := Answer(s, words);
    StateOf(s1, s.current);
  }

  /** All that the events of a run send to `t`, in order. */
  ghost function Messages(s: State, es: seq<Event>, t: Tid): seq<Msg>
    requires Inv(s) && Run(s, es)
    decreases |es|
  {
    if es == [] then [] else MsgFor(s, es[0], t) + Messages(Step(s, es[0]), es[1..], t)
  }

  lemma {:induction false} RunArrives(s: State, es: seq<Event>, t: Tid)
    requires Inv(s) && Run(s, es) && t in s.threads && t in s.log.arrived
    ensures t in Exec(s, es).log.arrived
    ensures Exec(s, es).log.arrived[t] == s.log.arrived[t] + Messages(s, es, t)
    decreases |es|
  {
    if es != [] {
      var s1, m := Ahead(s, es, t);
      RunArrives(s1, es[1..], t);
      Grouped(s.log.arrived[t], m, Messages(s1, es[1..], t));
    }
  }

  lemma Grouped(a: seq<Msg>, b: seq<Msg>, c: seq<Msg>)
    ensures (a + b) + c == a + (b + c)
  {
  }

  /** The first step of a run and what it sends to `t`. */
  lemma Ahead(s: State, es: seq<Event>, t: Tid) returns (s1: State, m: seq<Msg>)
    requires Inv(s) && Run(s, es) && es != [] && t in s.threads && t in s.log.arrived
    ensures Inv(s1) && Run(s1, es[1..]) && Exec(s, es) == Exec(s1, es[1..])
    ensures t in s1.threads && t in s1.log.arrived && s1.log.arrived[t] == s.log.arrived[t] + m
    ensures Messages(s, es, t) == m + Messages(s1, es[1..], t)
  {
    StepArrives(s, es[0], t);
    s1, m := Step(s, es[0]), MsgFor(s, es[0], t);
  }

  /** What a thread has received in a run is the beginning of what was sent to it. */
  lemma RunDelivers(tids: set<Tid>, es: seq<Event>, t: Tid)
    requires NOBODY !in tids && t in tids && Inv(Start(tids)) && Run(Start(tids), es)
    ensures t in Exec(Start(tids), es).log.got
    ensures Exec(Start(tids), es).log.got[t] <= Messages(Start(tids), es, t)
  {
    var s := Start(tids);
    Logged(s, t);
    RunArrives(s, es, t);
    RunKeepsThreads(s, es);
    Logged(Exec(s, es), t);
    assert s.log.arrived[t] == [];
  }

  lemma {:induction false} RunKeepsThreads(s: State, es: seq<Event>)
    requires Inv(s) && Run(s, es)
    ensures Exec(s, es).threads.Keys == s.threads.Keys
    decreases |es|
  {
    if es != [] { RunKeepsThreads(Step(s, es[0]), es[1..]); }
  }

  /** Event `i` of the run gives the answer `x`. */
  ghost predicate AnsweredAt(s: State, es: seq<Event>, i: nat, x: Sent)
    requires Inv(s)
  {
    i < |es| && Run(s, es[..i]) && AnswerOf(Exec(s, es[..i]), es[i]) == [x]
  }

  lemma {:induction false} AnswerFrom(s: State, es: seq<Event>, x: Sent) returns (i: nat)
    requires Inv(s) && Run(s, es) && x in Exec(s, es).log.replies && x !in s.log.replies
    ensures AnsweredAt(s, es, i, x)
    decreases |es|
  {
    StepAnswers(s, es[0]);
    var s1 := Step(s, es[0]);
    if x in s1.log.replies {
      i := 0;
      assert es[..0] == [];
    } else {
      var j := AnswerFrom(s1, es[1..], x);
      i := j + 1;
      assert es[..i][0] == es[0] && es[..i][1..] == es[1..][..j];
    }
  }

  /** What ipc_call returns is what the ipc_reply_recv that answered it was passed: an event of
      the run, by the thread whose name is returned, which then owed that call. */
  lemma CallReturnsAnswer(tids: set<Tid>, es: seq<Event>, t: Tid) returns (i: nat)
    requires NOBODY !in tids && Inv(Start(tids)) && Run(Start(tids), es)
    requires var s := Exec(Start(tids), es); t in s.threads && s.threads[t].run == Ready && s.threads[t].cont.InCall?
    ensures var s := Exec(Start(tids), es);
      && i < |es| && Run(Start(tids), es[..i]) && es[i] == RepliesAndReceives(s.threads[t].msg)
      && var before := Exec(Start(tids), es[..i]);
         && before.current == s.threads[t].sender
         && before.current in before.log.owes && before.log.owes[before.current] == Reply(Call(t, s.threads[t].callSeq))
  {
    var s := Exec(Start(tids), es);
    DispatchReturns(s, t);
    i := AnswerFrom(Start(tids), es, Sent(Call(t, s.threads[t].callSeq), s.threads[t].sender, s.threads[t].msg));
  }

  /** What a thread reads when it is dispatched again: ipc_recv gives the last message it
      received, ipc_call the answer to that call. */
  lemma DispatchReturns(s: State, t: Tid)
    requires Inv(s) && t in s.threads && s.threads[t].run == Ready
    ensures var r := s.threads[t];
      && (r.cont.InRecv? ==> t in s.log.got && LastIs(s.log.got[t], Msg(r.sender, r.msg, r.prevSeq)))
      && (r.cont.InCall? ==> Sent(Call(t, r.callSeq), r.sender, r.msg) in s.log.replies)
  {
    assert All(s, t) && ReceivedOk(s.threads, s.log, t);
  }

  /** `t` is inside ipc_recv in both states, and between them one message was received for it
      if it was woken, and none otherwise. */
  ghost predicate Waited(s: State, s': State, t: Tid) {
    && t in s.threads && t in s'.threads && t in s.log.got && t in s'.log.got
    && s.threads[t].cont.InRecv? && s'.threads[t].cont.InRecv?
    && (s'.threads[t].run == Blocked ==> s.threads[t].run == Blocked)
    && if s.threads[t].run == Blocked && s'.threads[t].run != Blocked then OneMore(s.log.got[t], s'.log.got[t])
       else s'.log.got[t] == s.log.got[t]
  }

  predicate OneMore(a: seq<Msg>, b: seq<Msg>) { |b| == |a| + 1 && a <= b }

  lemma SendWaits(s: State, target: Tid, words: Words, t: Tid)
    requires (Direct(s, target) || Indirect(s, target)) && t in s.threads && s.threads[t].cont.InRecv? && t in s.log.got
    ensures Waited(s, Send(s, target, words), t)
  {
    StateOf(s, t);
    StateOf(s, s.current);
  }

  lemma CallWaits(s: State, target: Tid, words: Words, t: Tid)
    requires (Direct(s, target) || Indirect(s, target)) && t in s.threads && s.threads[t].cont.InRecv? && t in s.log.got
    ensures Waited(s, DoCall(s, target, words), t)
  {
    StateOf(s, t);
    StateOf(s, s.current);
  }

  lemma RecvWaits(s: State, t: Tid)
    requires Receiving(s) && t in s.threads && s.threads[t].cont.InRecv? && t in s.log.got
    ensures Waited(s, Recv(s), t)
  {
    StateOf(s, t);
    StateOf(s, s.current);
  }

  lemma AnswerWaits(s: State, words: Words, t: Tid)
    requires Acting(s) && Half(s) && t in s.threads && s.threads[t].cont.InRecv? && t in s.log.got
    ensures Waited(s, Answer(s, words), t)
  {
    AnswersWhatItOwes(s);
    StateOf(s, t);
  }

  lemma StepWaits(s: State, e: Event, t: Tid)
    requires Inv(s) && Guarded(s, e) && t in s.threads && s.threads[t].cont.InRecv? && e != Dispatched(t)
    ensures Waited(s, Step(s, e), t)
  {
    assert t in s.log.got by { assert All(s, t); }
    if s.current in s.threads {
      InvHalf(s);
      Total(s);
    }
    match e
    case Sends(target, words) => SendWaits(s, target, words, t);
    case Calls(target, words) => CallWaits(s, target, words, t);
    case Receives => RecvWaits(s, t);
    case RepliesAndReceives(words) =>
      AnswerKeeps(s, words);
      AnswerWaits(s, words, t);
      RecvKeeps(Answer(s, words));
      RecvWaits(Answer(s, words), t);
    case Dispatched(_) =>
    case Preempted => StateOf(s, t); StateOf(s, s.current);
  }

  lemma {:induction false} RunWaits(s: State, es: seq<Event>, t: Tid)
    requires Inv(s) && Run(s, es) && t in s.threads && s.threads[t].cont.InRecv? && Dispatched(t) !in es
    ensures Waited(s, Exec(s, es), t)
    decreases |es|
  {
    if es == [] {
      assert All(s, t);
    } else {
      StepWaits(s, es[0], t);
      RunWaits(Step(s, es[0]), es[1..], t);
    }
  }

  /** A receive that finds nothing queued returns, whatever happens until the thread runs
      again, the message that follows those it had received before: no message is skipped,
      overwritten or returned twice. */
  lemma ReceiveReturnsNext(s: State, es: seq<Event>)
    requires Acting(s) && s.threads[s.current].ep != WaitSend
    requires Run(Step(s, Receives), es) && Dispatched(s.current) !in es
    requires var s2 := Exec(Step(s, Receives), es); Guarded(s2, Dispatched(s.current))
    ensures var t, s2 := s.current, Exec(Step(s, Receives), es);
      t in s2.threads && t in s.log.got && t in s2.log.got
      && s2.log.got[t] == s.log.got[t] + [Msg(s2.threads[t].sender, s2.threads[t].msg, s2.threads[t].prevSeq)]
  {
    var t, s1 := s.current, Step(s, Receives);
    var s2 := Exec(s1, es);
    assert All(s, t);
    RunWaits(s1, es, t);
    DispatchReturns(s2, t);
    Appended(s.log.got[t], s2.log.got[t], Msg(s2.threads[t].sender, s2.threads[t].msg, s2.threads[t].prevSeq));
  }

  lemma Appended(a: seq<Msg>, b: seq<Msg>, m: Msg)
    requires OneMore(a, b) && LastIs(b, m)
    ensures b == a + [m]
  {
  }

  // ---- nested calls ----------------------------------------------------------------

  /** The reply context of a thread inside ipc_call. */
  ghost predicate SameContext(s: State, s': State, t: Tid) {
    && t in s.threads && t in s'.threads && s.threads[t].cont.InCall? && s'.threads[t].cont.InCall?
    && s'.threads[t].prevSeq == s.threads[t].prevSeq
    && s'.threads[t].cont.saved == s.threads[t].cont.saved
    && t in s.log.owes && t in s'.log.owes && s'.log.owes[t] == s.log.owes[t]
  }

  /** Receiving leaves the context of every thread that is inside a call alone. */
  lemma RecvKeepsContext(s: State, t: Tid)
    requires Receiving(s) && t in s.threads && s.threads[t].cont.InCall? && t in s.log.owes
    ensures SameContext(s, Recv(s), t)
  {
    StateOf(s, t);
    StateOf(s, s.current);
  }

  lemma AnswerKeepsContext(s: State, words: Words, t: Tid)
    requires Acting(s) && Half(s) && t in s.threads && s.threads[t].cont.InCall? && t in s.log.owes
    ensures SameContext(s, Answer(s, words), t)
  {
    StateOf(s, t);
    StateOf(s, s.current);
  }

  lemma SendKeepsContext(s: State, target: Tid, words: Words, t: Tid)
    requires (Direct(s, target) || Indirect(s, target)) && t in s.threads && s.threads[t].cont.InCall? && t in s.log.owes
    ensures SameContext(s, Send(s, target, words), t)
  {
    StateOf(s, t);
    StateOf(s, target);
    StateOf(s, s.current);
  }

  lemma CallKeepsContext(s: State, target: Tid, words: Words, t: Tid)
    requires (Direct(s, target) || Indirect(s, target)) && t in s.threads && s.threads[t].cont.InCall? && t in s.log.owes
    ensures SameContext(s, DoCall(s, target, words), t)
  {
    StateOf(s, t);
    StateOf(s, target);
    StateOf(s, s.current);
  }

  lemma StepKeepsContext(s: State, e: Event, t: Tid)
    requires Inv(s) && Guarded(s, e) && t in s.threads && s.threads[t].cont.InCall? && e != Dispatched(t)
    ensures SameContext(s, Step(s, e), t)
  {
    assert t in s.log.owes by { assert All(s, t); }
    if s.current in s.threads {
      InvHalf(s);
      Total(s);
    }
    match e
    case Sends(target, words) => SendKeepsContext(s, target, words, t);
    case Calls(target, words) => CallKeepsContext(s, target, words, t);
    case Receives => RecvKeepsContext(s, t);
    case RepliesAndReceives(words) =>
      AnswerKeeps(s, words);
      AnswerKeepsContext(s, words, t);
      RecvKeeps(Answer(s, words));
      RecvKeepsContext(Answer(s, words), t);
    case Dispatched(_) =>
    case Preempted => StateOf(s, t); StateOf(s, s.current);
  }

  lemma {:induction false} RunKeepsContext(s: State, es: seq<Event>, t: Tid)
    requires Inv(s) && Run(s, es) && t in s.threads && s.threads[t].cont.InCall? && Dispatched(t) !in es
    ensures SameContext(s, Exec(s, es), t)
    decreases |es|
  {
    if es == [] {
      assert All(s, t);
    } else {
      StepKeepsContext(s, es[0], t);
      RunKeepsContext(Step(s, es[0]), es[1..], t);
    }
  }

  /** A server that makes a nested call comes back from it, whatever happens meanwhile, with
      the reply context it had: the call it owes an answer to, its caller and its number. */
  lemma NestedCall(s: State, target: Tid, words: Words, es: seq<Event>)
    requires Acting(s) && Guarded(s, Calls(target, words))
    requires Run(Step(s, Calls(target, words)), es) && Dispatched(s.current) !in es
    requires var s2 := Exec(Step(s, Calls(target, words)), es); Guarded(s2, Dispatched(s.current))
    ensures var s2 := Exec(Step(s, Calls(target, words)), es);
      var s3 := Step(s2, Dispatched(s.current));
      && s3.threads[s.current].sender == s.threads[s.current].sender
      && s3.threads[s.current].prevSeq == s.threads[s.current].prevSeq
      && s.current in s.log.owes && s.current in s3.log.owes && s3.log.owes[s.current] == s.log.owes[s.current]
  {
    assert All(s, s.current);
    var s1 := Step(s, Calls(target, words));
    assert All(s1, s.current);
    RunKeepsContext(s1, es, s.current);
  }

  // ---- what goes wrong without the guards ------------------------------------------

  /** 1 calls 2, and 2, before it answers, calls 3: a state with a server in a nested call. */
  lemma NestedState() returns (s: State)
    ensures Acting(s) && s.current == 4 && 2 in s.threads && Awaiting(s.threads, 2)
    ensures s.threads[2].prevSeq == 1 && s.threads[2].sender == 1 && 2 in s.log.owes && s.log.owes[2] == Reply(Call(1, 1))
    ensures s.threads[2].ep == WaitRecv && s.threads[2].queue == [Slot(2, IpcWaitList)]
    ensures s.threads[2].cont.saved == 1
  {
    s := ServerBusy();
    s := Step(s, Dispatched(2));
    var q := s.threads[2].queue;
    s := Step(s, Calls(3, [8]));
    assert s.threads[2].queue == q + [Slot(2, IpcWaitList)] == [Slot(2, IpcWaitList)];
    s := Step(s, Dispatched(4));
  }

  /** 2 waits for a request. */
  lemma ServerWaits() returns (s: State)
    ensures Inv(s) && s.current == NOBODY && s.threads.Keys == {1, 2, 3, 4}
    ensures var r := s.threads[2]; r.ep == WaitRecv && r.queue == [Slot(2, IpcList)] && r.run == Blocked && r.cont == InRecv
    ensures forall t :: t in {1, 3, 4} ==> s.threads[t] == Thread(Ready, Inactive, [], [], NOBODY, 0, 0, Idle)
  {
    s := Start({1, 2, 3, 4});
    StartOk({1, 2, 3, 4});
    s := Step(s, Dispatched(2));
    s := Step(s, Receives);
    assert s.threads[2].queue == [] + [Slot(2, IpcList)];
  }

  /** 2 waits for a request and 1 calls it. */
  lemma ServerBusy() returns (s: State)
    ensures Inv(s) && s.current == NOBODY && s.threads.Keys == {1, 2, 3, 4}
    ensures var r := s.threads[2]; r.run == Ready && r.queue == [] && r.sender == 1 && r.prevSeq == 1 && r.cont == InRecv
    ensures s.threads[3].ep == Inactive && s.threads[3].run == Ready && s.threads[3].cont == Idle
    ensures s.threads[4].run == Ready
    ensures 2 in s.log.owes && s.log.owes[2] == Reply(Call(1, 1))
  {
    s := ServerWaits();
    s := Step(s, Dispatched(1));
    s := Step(s, Calls(2, [7]));
  }

  /** Without the guard: a message sent to a server in a nested call is taken for the answer to
      that call and wipes the number of the call the server owes, so that when the server
      comes to reply, the reply to its own caller is not delivered. */
  lemma StrayMessage(words: Words) returns (s: State)
    ensures Acting(s) && 2 in s.threads && 2 in s.log.owes && s.log.owes[2] == Reply(Call(1, 1))
    ensures s.threads[2].queue != [] && s.threads[2].ep == WaitRecv && s.current != 2
    ensures var s' := Dispatch(Preempt(Send(s, 2, words)), 2);
      s'.threads[2].run == Running && s'.threads[2].sender == 1 && s'.threads[2].prevSeq == 0 && !CanReply(s'.threads, 2)
  {
    s := NestedState();
  }
}
