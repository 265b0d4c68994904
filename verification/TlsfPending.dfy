/**
  The drain of `tlsf_flush_pending` and the link written by `tlsf_push_pending`
  (`kernel/lib/tlsf.c`), on the heap of module Tlsf: the pending blocks are still in use, and
  `next_free` is the first word of their payload.
 */
module TlsfPending {
  import opened TlsfHeap
  import opened TlsfSteps
  import opened Tlsf

  function NextFree(m: Mem, b: nat): nat { PayloadWord(m, b, 0) }

  /** From `p` the links run through exactly the blocks of `l`, all of them in use. */
  ghost predicate Pending(m: Mem, live: map<nat, nat>, p: nat, l: seq<nat>)
    decreases |l|
  {
    if l == [] then p == 0
    else p == l[0] && p != 0 && p in live && live[p] >= 8 && p !in l[1..] && Pending(m, live, NextFree(m, p), l[1..])
  }

  ghost function Members(l: seq<nat>): set<nat> { set b | b in l }

  lemma MembersHead(l: seq<nat>)
    requires l != []
    ensures Members(l) == {l[0]} + Members(l[1..])
  {
    assert l == [l[0]] + l[1..];
  }

  /** Another memory that keeps the payloads, with fewer live blocks outside the list. */
  lemma {:induction false} PendingKept(m: Mem, m': Mem, live: map<nat, nat>, live': map<nat, nat>, p: nat, l: seq<nat>)
    requires Pending(m, live, p, l) && Kept(m, m', live')
    requires forall b :: b in l && b in live ==> b in live' && live'[b] == live[b]
    ensures Pending(m', live', p, l)
    decreases |l|
  {
    if l != [] {
      KeptWord(m, m', live', p, 0);
      forall b | b in l[1..] && b in live ensures b in live' && live'[b] == live[b] { assert b in l; }
      PendingKept(m, m', live, live', NextFree(m, p), l[1..]);
    }
  }

  lemma KeptNow(m0: Mem, m1: Mem, m2: Mem, live: map<nat, nat>, live': map<nat, nat>, b: nat)
    requires Kept(m0, m1, live) && Kept(m1, m2, live') && live' == live - {b}
    ensures Kept(m0, m2, live')
  {
  }

  method FreeFirst(h: Heap, pending: nat, ghost rest: seq<nat>) returns (next: nat)
    requires h.Valid() && Pending(h.mem, Live(h.blocks), pending, rest) && pending != 0
    modifies h
    ensures h.Valid() && Pools(h.blocks) == Pools(old(h.blocks))
    ensures rest != [] && pending == rest[0] && Pending(h.mem, Live(h.blocks), next, rest[1..])
    ensures Live(h.blocks) == Live(old(h.blocks)) - {pending} && Kept(old(h.mem), h.mem, Live(h.blocks))
  {
    next := NextFree(h.mem, pending);
    h.Free(pending + 16);
    PendingKept(old(h.mem), h.mem, Live(old(h.blocks)), Live(h.blocks), next, rest[1..]);
  }

  /** Frees every block of the list: the link of each is read before the block is freed, and
      freeing a block changes no link of the others. */
  method Drain(h: Heap, head: nat, ghost list: seq<nat>)
    requires h.Valid() && Pending(h.mem, Live(h.blocks), head, list)
    modifies h
    ensures h.Valid() && Pools(h.blocks) == Pools(old(h.blocks))
    ensures Live(h.blocks) == Live(old(h.blocks)) - Members(list)
    ensures Kept(old(h.mem), h.mem, Live(h.blocks))
  {
    var pending := head;
    ghost var rest, done: set<nat> := list, {};
    while pending != 0
      invariant h.Valid() && Pools(h.blocks) == Pools(old(h.blocks))
      invariant Pending(h.mem, Live(h.blocks), pending, rest)
      invariant Live(h.blocks) == Live(old(h.blocks)) - done && Members(list) == done + Members(rest)
      invariant Kept(old(h.mem), h.mem, Live(h.blocks))
      decreases |rest|
    {
      ghost var m, live := h.mem, Live(h.blocks);
      var next := FreeFirst(h, pending, rest);
      KeptNow(old(h.mem), m, h.mem, live, Live(h.blocks), pending);
      MembersHead(rest);
      done := done + {pending};
      rest := rest[1..];
      pending := next;
    }
  }
}
