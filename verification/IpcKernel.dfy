/**
  The functions of `kernel/task/ipc.c` as they update the threads, each proved to do what
  module IpcState says and, with the guards of module IpcRuns, to keep the invariant.
 */
module IpcKernel {
  import opened IpcState
  import opened IpcProof
  import opened IpcRuns

  class Kernel {
    var threads: Threads
    var current: Tid
    ghost var log: Log

    ghost function Snapshot(): State
      reads this
    {
      State(threads, current, log)
    }

    /** The threads as they are created, none inside ipc.c. */
    constructor (tids: set<Tid>)
      requires NOBODY !in tids
      ensures Inv(Snapshot()) && Snapshot() == Start(tids)
    {
      threads := map t | t in tids :: Thread(Ready, Inactive, [], [], NOBODY, 0, 0, Idle);
      current := NOBODY;
      log := Start(tids).log;
      new;
      StartOk(tids);
      assert Snapshot() == Start(tids);
    }

    /** ipc_deliver_msg */
    method HandMessage(recv: Tid, sender: Tid, words: Words, sq: nat)
      requires recv in threads && threads[recv].queue != []
      modifies this`threads
      ensures threads == DeliverMsg(old(threads), recv, sender, words, sq)
    {
      var r := threads[recv];
      r := r.(queue := r.queue[1..]);
      r := r.(msg := words, sender := sender, prevSeq := sq);
      if r.queue == [] {
        r := r.(ep := Inactive);
      }
      if r.run == Blocked {
        r := r.(run := Ready);
      }
      threads := threads[recv := r];
    }

    /** ipc_deliver_reply */
    method HandReply(recv: Tid, sender: Tid, words: Words)
      requires recv in threads && threads[recv].queue != []
      modifies this`threads
      ensures threads == DeliverReply(old(threads), recv, sender, words)
    {
      var r := threads[recv];
      r := r.(queue := r.queue[1..]);
      r := r.(msg := words, sender := sender);
      if r.queue == [] {
        r := r.(ep := Inactive);
      }
      if r.run == Blocked {
        r := r.(run := Ready);
      }
      threads := threads[recv := r];
    }

    /** ipc_accept */
    method AcceptHead(recv: Tid) returns (sender: Tid)
      requires recv in threads && threads[recv].queue != []
      requires threads[recv].queue[0].tid in threads && threads[recv].queue[0].tid != recv
      modifies this`threads
      ensures threads == Accept(old(threads), recv) && sender == old(threads[recv].queue[0].tid)
    {
      sender := threads[recv].queue[0].tid;
      var r, s := threads[recv], threads[sender];
      r := r.(queue := r.queue[1..], msg := s.msg, sender := sender);
      r := r.(prevSeq := if s.ep == WaitRecv then s.callSeq else 0);
      if r.queue == [] {
        r := r.(ep := Inactive);
      }
      if s.ep != WaitRecv && s.run == Blocked {
        s := s.(run := Ready);
      }
      if s.ep == WaitRecv {
        s := s.(cont := Taken(s.cont));
      }
      threads := threads[recv := r][sender := s];
    }

    /** ipc_send */
    method IpcSend(target: Tid, words: Words)
      requires Acting(Snapshot()) && target in threads
      modifies this
      ensures Inv(Snapshot()) <==> MayTarget(old(Snapshot()), target)
      ensures old(threads[target].ep == WaitRecv ==> threads[target].queue != []) && Snapshot() == Send(old(Snapshot()), target, words)
      ensures target in old(log.arrived)
           && log.arrived == old(log.arrived)[target := old(log.arrived[target]) + [Msg(old(current), words, 0)]]
      ensures log.replies == old(log.replies)
    {
      assert All(Snapshot(), target);
      SendExact(Snapshot(), target, words);
      ghost var s' := Send(Snapshot(), target, words);
      PostSend(target, words);
      assert Snapshot() == s';
    }

    /** The stores of ipc_send. */
    method PostSend(target: Tid, words: Words)
      requires current in threads && target in threads
      requires threads[target].ep == WaitRecv ==> threads[target].queue != []
      modifies this
      ensures threads == Send(old(Snapshot()), target, words).threads
      ensures current == Send(old(Snapshot()), target, words).current && log == Send(old(Snapshot()), target, words).log
    {
      ghost var m := Msg(current, words, 0);
      if threads[target].ep == WaitRecv {
        HandMessage(target, current, words, 0);
        log := Receive(Arrive(log, target, m), target, m);
        return;
      }
      var cur := current;
      threads := threads[cur := threads[cur].(msg := words)];
      threads := threads[target := threads[target].(ep := WaitSend)];
      threads := threads[target := threads[target].(queue := threads[target].queue + [Slot(cur, IpcList)])];
      log := Arrive(log, target, m);
      threads := threads[cur := threads[cur].(run := Blocked, cont := InSend(target, words))];
      current := NOBODY;
    }

    /** ipc_recv, and the second half of ipc_reply_recv */
    method IpcRecv()
      requires Half(Snapshot())
      modifies this
      ensures Inv(Snapshot())
      ensures Receiving(old(Snapshot())) && Snapshot() == Recv(old(Snapshot()))
      ensures log.arrived == old(log.arrived) && log.replies == old(log.replies)
      ensures old(current in threads && threads[current].ep == WaitSend) ==>
        var t := old(current);
        t in log.got && LastIs(log.got[t], Msg(threads[t].sender, threads[t].msg, threads[t].prevSeq))
    {
      RecvKeeps(Snapshot());
      ghost var s' := Recv(Snapshot());
      var cur := current;
      if threads[cur].ep == WaitSend {
        ghost var snd := threads[cur].queue[0].tid;
        ghost var m := Msg(snd, threads[snd].msg, if threads[snd].ep == WaitRecv then threads[snd].callSeq else 0);
        var sender := AcceptHead(cur);
        log := Receive(log, cur, m);
        assert Snapshot() == s';
        return;
      }
      threads := threads[cur := threads[cur].(ep := WaitRecv)];
      threads := threads[cur := threads[cur].(queue := threads[cur].queue + [Slot(cur, IpcList)])];
      threads := threads[cur := threads[cur].(run := Blocked, cont := InRecv)];
      current := NOBODY;
      assert threads == s'.threads;
    }

    /** ipc_call, up to sched_block */
    method IpcCall(target: Tid, words: Words)
      requires Acting(Snapshot()) && target in threads
      modifies this
      ensures Inv(Snapshot()) <==> MayCall(old(Snapshot()), target)
      ensures old(threads[target].ep == WaitRecv ==> threads[target].queue != []) && Snapshot() == DoCall(old(Snapshot()), target, words)
      ensures target in old(log.arrived)
           && log.arrived == old(log.arrived)[target := old(log.arrived[target]) + [Msg(old(current), words, old(threads[current].callSeq) + 1)]]
      ensures log.replies == old(log.replies)
    {
      assert All(Snapshot(), target);
      CallExact(Snapshot(), target, words);
      ghost var s' := DoCall(Snapshot(), target, words);
      var cur := current;
      var saved := threads[cur].sender;
      var sq := threads[cur].callSeq + 1;
      PostCall(target, words, sq, saved);
      current := NOBODY;
      assert threads == s'.threads;
    }

    /** The stores of ipc_call, and the hand-over if the target waits. */
    method PostCall(target: Tid, words: Words, sq: nat, saved: Tid)
      requires current in threads && target in threads
      requires threads[target].ep == WaitRecv ==> threads[target].queue != []
      requires sq == threads[current].callSeq + 1 && saved == threads[current].sender
      modifies this`threads, this`log
      ensures threads == DoCall(old(Snapshot()), target, words).threads
      ensures log == DoCall(old(Snapshot()), target, words).log
    {
      var cur := current;
      threads := threads[cur := threads[cur].(callSeq := threads[cur].callSeq + 1)];
      ghost var m := Msg(cur, words, sq);
      threads := threads[cur := threads[cur].(ep := WaitRecv, queue := threads[cur].queue + [Slot(cur, IpcWaitList)])];
      if threads[target].ep == WaitRecv {
        HandMessage(target, cur, words, sq);
        log := Receive(Arrive(log, target, m), target, m);
        threads := threads[cur := threads[cur].(run := Blocked, cont := InCall(target, words, sq, saved, true))];
      } else {
        threads := threads[cur := threads[cur].(msg := words)];
        threads := threads[target := threads[target].(ep := WaitSend, queue := threads[target].queue + [Slot(cur, IpcList)])];
        log := Arrive(log, target, m);
        threads := threads[cur := threads[cur].(run := Blocked, cont := InCall(target, words, sq, saved, false))];
      }
    }

    /** What follows sched_block: the thread runs again and leaves the call it was in with the
        sender and the words it reads there; ipc_call restores the sender it had saved. */
    method Resume(t: Tid) returns (sender: Tid, words: Words)
      requires Inv(Snapshot()) && current == NOBODY && t in threads && threads[t].run == Ready
      modifies this
      ensures Inv(Snapshot()) && Snapshot() == Dispatch(old(Snapshot()), t)
      ensures old(threads[t].cont.InRecv?) ==> t in log.got && LastIs(log.got[t], Msg(sender, words, threads[t].prevSeq))
      ensures old(threads[t].cont.InCall?) ==> Sent(Call(t, threads[t].callSeq), sender, words) in log.replies
    {
      DispatchKeeps(Snapshot(), t);
      DispatchReturns(Snapshot(), t);
      var r := threads[t];
      sender, words := r.sender, r.msg;
      if r.cont.InCall? {
        r := r.(sender := r.cont.saved);
      }
      threads := threads[t := r.(run := Running, cont := Idle)];
      current := t;
    }

    /** ipc_reply_recv */
    method IpcReplyRecv(words: Words) returns (answered: bool)
      requires Acting(Snapshot())
      modifies this
      ensures Inv(Snapshot())
      ensures Receiving(Answer(old(Snapshot()), words)) && Snapshot() == Recv(Answer(old(Snapshot()), words))
      ensures old(current in log.owes) && (answered <==> old(log.owes[current]).Reply?)
      ensures !answered ==> log.replies == old(log.replies)
      ensures answered ==>
        var c := old(log.owes[current]).call;
        && log.replies == old(log.replies) + [Sent(c, old(current), words)]
        && c.caller in threads && threads[c.caller].msg == words && threads[c.caller].sender == old(current)
        && threads[c.caller].run == Ready
    {
      AnswerGives(Snapshot(), words);
      AnswersWhatItOwes(Snapshot());
      AnswerKeeps(Snapshot(), words);
      var cur := current;
      var caller := threads[cur].sender;
      answered := false;
      log := log.(owes := log.owes[cur := Nothing]);
      if threads[cur].prevSeq != 0 && caller in threads && caller != cur && threads[caller].callSeq == threads[cur].prevSeq {
        if threads[caller].ep == WaitRecv && threads[caller].queue != [] {
          log := log.(replies := log.replies + [Sent(Call(caller, threads[cur].prevSeq), cur, words)]);
          HandReply(caller, cur, words);
          answered := true;
        }
      }
      assert Snapshot() == Answer(old(Snapshot()), words);
      IpcRecv();
    }
  }
}
