/**
  The pending-free stack of `kernel/lib/tlsf.c` and its routing in `kernel/mm/kmem.c`:
  other CPUs push blocks of the owner's heap with load, write-next and compare-and-swap; the
  owner takes the whole stack with one exchange and frees it block by block.

  A step is one atomic access.  `place` says who may write a block's `next_free` word: the
  owner's heap, the program that holds the block, the pushing CPU, or nobody.
 */
module PendingFree {

  type Cpu = nat
  type Block = nat // address of the header; 0 is NULL

  datatype Pusher = Idle | Ready(b: Block) | Loaded(b: Block, head: Block) | Written(b: Block, head: Block)

  datatype Owner = Resting | Draining(cur: Block) | Freeing(cur: Block, next: Block)

  datatype Place = Heap | Held | Pushed(c: Cpu) | Stacked | Taken

  datatype State = State(
    head: Block, // pending_free_list
    next: map<Block, Block>, // next_free of each block
    pushers: map<Cpu, Pusher>,
    owner: Owner,
    place: map<Block, Place>,
    pushes: multiset<Block>, // calls of tlsf_push_pending
    frees: multiset<Block>) // calls of tlsf_free by the drain

  datatype Event =
    | Push(c: Cpu, b: Block)
    | Load(c: Cpu)
    | WriteNext(c: Cpu)
    | Cas(c: Cpu, weak: bool) // `weak`: the weak compare-and-swap fails for no reason
    | Exchange
    | ReadNext
    | Free(scribble: map<Block, Block>) // what tlsf_free leaves in words of the heap
    | Malloc(b: Block)
    | LocalFree(b: Block) // kfree on the owner's CPU
    | Store(b: Block, word: Block) // the heap, or the program, writes a word it owns

  predicate Enabled(s: State, e: Event) {
    match e
    case Push(c, b) => c in s.pushers && s.pushers[c].Idle? && b in s.place && s.place[b].Held?
    case Load(c) => c in s.pushers && s.pushers[c].Ready?
    case WriteNext(c) => c in s.pushers && s.pushers[c].Loaded?
    case Cas(c, _) => c in s.pushers && s.pushers[c].Written?
    case Exchange => s.owner.Resting?
    case ReadNext => s.owner.Draining? && s.owner.cur != 0
    case Free(w) => s.owner.Freeing? && forall b :: b in w ==> b in s.place && (s.place[b].Heap? || b == s.owner.cur)
    case Malloc(b) => b in s.place && s.place[b].Heap?
    case LocalFree(b) => b in s.place && s.place[b].Held?
    case Store(b, _) => b in s.place && (s.place[b].Heap? || s.place[b].Held?)
  }

  function Get(s: State, b: Block): Block { if b in s.next then s.next[b] else 0 }

  function Apply(s: State, e: Event): State
    requires Enabled(s, e)
  {
    match e
    case Push(c, b) =>
      s.(pushers := s.pushers[c := Ready(b)], place := s.place[b := Pushed(c)], pushes := s.pushes + multiset{b})
    case Load(c) =>
      s.(pushers := s.pushers[c := Loaded(s.pushers[c].b, s.head)])
    case WriteNext(c) =>
      var p := s.pushers[c];
      s.(next := s.next[p.b := p.head], pushers := s.pushers[c := Written(p.b, p.head)])
    case Cas(c, weak) =>
      var p := s.pushers[c];
      if s.head == p.head && !weak then
        s.(head := p.b, pushers := s.pushers[c := Idle], place := s.place[p.b := Stacked])
      else
        s.(pushers := s.pushers[c := Ready(p.b)])
    case Exchange =>
      s.(head := 0, owner := if s.head == 0 then Resting else Draining(s.head), place := Seize(s.place))
    case ReadNext =>
      s.(owner := Freeing(s.owner.cur, Get(s, s.owner.cur)))
    case Free(w) =>
      var b, n := s.owner.cur, s.owner.next;
      s.(next := s.next + w, owner := if n == 0 then Resting else Draining(n),
         place := s.place[b := Heap], frees := s.frees + multiset{b})
    case Malloc(b) => s.(place := s.place[b := Held])
    case LocalFree(b) => s.(place := s.place[b := Heap])
    case Store(b, word) => s.(next := s.next[b := word])
  }

  /** The exchange takes every stacked block. */
  function Seize(place: map<Block, Place>): map<Block, Place> {
    map b | b in place :: if place[b].Stacked? then Taken else place[b]
  }

  // ---- the invariant ---------------------------------------------------------------

  /** From `p` the links run through exactly the blocks of `l`. */
  predicate Linked(next: map<Block, Block>, p: Block, l: seq<Block>)
    decreases |l|
  {
    if l == [] then p == 0
    else p == l[0] && p != 0 && p in next && Linked(next, next[p], l[1..])
  }

  predicate Distinct(l: seq<Block>) { forall i, j :: 0 <= i < j < |l| ==> l[i] != l[j] }

  /** The list holds exactly the blocks at that place. */
  ghost predicate Holds(place: map<Block, Place>, l: seq<Block>, at: Place) {
    Distinct(l) && forall b {:trigger b in l} {:trigger b in place} :: b in l <==> b in place && place[b] == at
  }

  predicate PusherOk(s: State, c: Cpu)
    requires c in s.pushers
  {
    var p := s.pushers[c];
    && (!p.Idle? ==> p.b in s.place && s.place[p.b] == Pushed(c))
    && (p.Written? ==> p.b in s.next && s.next[p.b] == p.head)
  }

  predicate PlaceOk(s: State, b: Block)
    requires b in s.place
  {
    s.place[b].Pushed? ==>
      var c := s.place[b].c;
      c in s.pushers && !s.pushers[c].Idle? && s.pushers[c].b == b
  }

  /** In flight: pushed and not yet freed. */
  predicate InFlight(place: map<Block, Place>, b: Block) { b in place && !place[b].Heap? && !place[b].Held? }

  predicate Counted(s: State, b: Block) { s.pushes[b] == s.frees[b] + if InFlight(s.place, b) then 1 else 0 }

  predicate OwnerOk(s: State, chain: seq<Block>) {
    match s.owner
    case Resting => chain == []
    case Draining(p) => p != 0 && Linked(s.next, p, chain)
    case Freeing(b, n) => chain != [] && b == chain[0] && b != 0 && Linked(s.next, n, chain[1..])
  }

  /** `stack` is what the list head leads to, `chain` what the drain still has to free. */
  ghost predicate Inv(s: State, stack: seq<Block>, chain: seq<Block>) {
    && 0 !in s.place
    && Linked(s.next, s.head, stack) && Holds(s.place, stack, Stacked)
    && OwnerOk(s, chain) && Holds(s.place, chain, Taken)
    && (forall c {:trigger PusherOk(s, c)} :: c in s.pushers ==> PusherOk(s, c))
    && (forall b {:trigger PlaceOk(s, b)} :: b in s.place ==> PlaceOk(s, b))
    && (forall b {:trigger Counted(s, b)} :: Counted(s, b))
  }

  lemma {:induction false} LinkedFrame(next: map<Block, Block>, next': map<Block, Block>, p: Block, l: seq<Block>)
    requires Linked(next, p, l)
    requires forall b :: b in l && b in next ==> b in next' && next'[b] == next[b]
    ensures Linked(next', p, l)
    decreases |l|
  {
    if l != [] {
      assert l[0] in l;
      forall b | b in l[1..] && b in next ensures b in next' && next'[b] == next[b] { assert b in l; }
      LinkedFrame(next, next', next[p], l[1..]);
    }
  }

  /** What the two lists become. */
  function StackOf(s: State, stack: seq<Block>, e: Event): seq<Block>
    requires Enabled(s, e)
  {
    match e
    case Cas(c, weak) => if s.head == s.pushers[c].head && !weak then [s.pushers[c].b] + stack else stack
    case Exchange => []
    case _ => stack
  }

  function ChainOf(stack: seq<Block>, chain: seq<Block>, e: Event): seq<Block> {
    match e
    case Exchange => stack
    case Free(_) => if chain == [] then [] else chain[1..]
    case _ => chain
  }

  // ---- every step keeps it -----------------------------------------------------------

  lemma StackKeeps(s: State, stack: seq<Block>, chain: seq<Block>, e: Event)
    requires Inv(s, stack, chain) && Enabled(s, e)
    ensures Linked(Apply(s, e).next, Apply(s, e).head, StackOf(s, stack, e))
    ensures Holds(Apply(s, e).place, StackOf(s, stack, e), Stacked)
  {
    var s' := Apply(s, e);
    if e.WriteNext? || e.Cas? || e.Load? { assert PusherOk(s, e.c); }
    if !e.Exchange? {
      assert e.Free? ==> s.owner.cur in chain;
      LinkedFrame(s.next, s'.next, s.head, stack);
    }
    if e.Cas? && s.head == s.pushers[e.c].head && !e.weak {
      var b := s.pushers[e.c].b;
      assert b !in stack;
      assert ([b] + stack)[1..] == stack;
    }
  }

  /** Freeing one block leaves the links of those still to be freed as they were. */
  lemma DrainKeeps(s: State, stack: seq<Block>, chain: seq<Block>, e: Event)
    requires Inv(s, stack, chain) && Enabled(s, e) && e.Free?
    ensures OwnerOk(Apply(s, e), chain[1..]) && Holds(Apply(s, e).place, chain[1..], Taken)
  {
    assert chain == [chain[0]] + chain[1..];
    forall b | b in chain[1..] ensures b in chain && b != chain[0] {}
    LinkedFrame(s.next, Apply(s, e).next, s.owner.next, chain[1..]);
  }

  lemma ChainKeeps(s: State, stack: seq<Block>, chain: seq<Block>, e: Event)
    requires Inv(s, stack, chain) && Enabled(s, e)
    ensures OwnerOk(Apply(s, e), ChainOf(stack, chain, e))
    ensures Holds(Apply(s, e).place, ChainOf(stack, chain, e), Taken)
  {
    var s' := Apply(s, e);
    if e.WriteNext? || e.Cas? || e.Load? { assert PusherOk(s, e.c); }
    if e.Free? {
      DrainKeeps(s, stack, chain, e);
    } else if !e.Exchange? && s.owner.Draining? {
      LinkedFrame(s.next, s'.next, s.owner.cur, chain);
    } else if s.owner.Freeing? {
      forall b | b in chain[1..] ensures b in chain {}
      LinkedFrame(s.next, s'.next, s.owner.next, chain[1..]);
    }
  }

  lemma PushersKeep(s: State, stack: seq<Block>, chain: seq<Block>, e: Event, c: Cpu)
    requires Inv(s, stack, chain) && Enabled(s, e) && c in Apply(s, e).pushers
    ensures PusherOk(Apply(s, e), c)
  {
    assert PusherOk(s, c);
    if e.WriteNext? || e.Cas? || e.Load? { assert PusherOk(s, e.c); }
    assert e.Free? ==> s.owner.cur in chain;
  }

  lemma PlacesKeep(s: State, stack: seq<Block>, chain: seq<Block>, e: Event, b: Block)
    requires Inv(s, stack, chain) && Enabled(s, e) && b in Apply(s, e).place
    ensures PlaceOk(Apply(s, e), b)
  {
    if e.WriteNext? || e.Cas? || e.Load? { assert PusherOk(s, e.c); }
    assert e.Free? ==> s.owner.cur in chain;
    assert PlaceOk(s, b);
  }

  lemma CountsKeep(s: State, stack: seq<Block>, chain: seq<Block>, e: Event, b: Block)
    requires Inv(s, stack, chain) && Enabled(s, e)
    ensures Counted(Apply(s, e), b)
  {
    assert Counted(s, b);
    if e.WriteNext? || e.Cas? || e.Load? { assert PusherOk(s, e.c); }
    assert e.Free? ==> s.owner.cur in chain;
  }

  /** One step of any CPU keeps the invariant. */
  lemma StepKeeps(s: State, stack: seq<Block>, chain: seq<Block>, e: Event)
    requires Inv(s, stack, chain) && Enabled(s, e)
    ensures Inv(Apply(s, e), StackOf(s, stack, e), ChainOf(stack, chain, e))
  {
    var s' := Apply(s, e);
    StackKeeps(s, stack, chain, e);
    ChainKeeps(s, stack, chain, e);
    forall c | c in s'.pushers ensures PusherOk(s', c) { PushersKeep(s, stack, chain, e, c); }
    forall b | b in s'.place ensures PlaceOk(s', b) { PlacesKeep(s, stack, chain, e, b); }
    forall b ensures Counted(s', b) { CountsKeep(s, stack, chain, e, b); }
    assert e.Free? ==> s.owner.cur in chain;
    if e.Cas? { assert PusherOk(s, e.c); }
  }

  // ---- whole runs --------------------------------------------------------------------

  /** Any interleaving. */
  predicate Run(s: State, es: seq<Event>)
    decreases |es|
  {
    es == [] || (Enabled(s, es[0]) && Run(Apply(s, es[0]), es[1..]))
  }

  function After(s: State, es: seq<Event>): State
    requires Run(s, es)
    decreases |es|
  {
    if es == [] then s else After(Apply(s, es[0]), es[1..])
  }

  predicate Start(s: State) {
    && s.head == 0 && s.owner.Resting? && s.pushes == multiset{} && s.frees == multiset{} && 0 !in s.place
    && (forall c :: c in s.pushers ==> s.pushers[c].Idle?)
    && (forall b :: b in s.place ==> s.place[b].Heap? || s.place[b].Held?)
  }

  lemma {:induction false} RunKeeps(s: State, stack: seq<Block>, chain: seq<Block>, es: seq<Event>)
    requires Inv(s, stack, chain) && Run(s, es)
    ensures exists stack', chain' :: Inv(After(s, es), stack', chain')
    decreases |es|
  {
    if es == [] {
      assert Inv(After(s, es), stack, chain);
    } else {
      StepKeeps(s, stack, chain, es[0]);
      RunKeeps(Apply(s, es[0]), StackOf(s, stack, es[0]), ChainOf(stack, chain, es[0]), es[1..]);
      assert After(s, es) == After(Apply(s, es[0]), es[1..]);
    }
  }

  /** In every run each push of a block is matched by exactly one free, or the block is still
      in flight; and once no push is under way and the list is drained, none is. */
  lemma ExactlyOnce(s: State, es: seq<Event>, b: Block)
    requires Start(s) && Run(s, es)
    ensures var s' := After(s, es);
      && s'.pushes[b] == s'.frees[b] + (if InFlight(s'.place, b) then 1 else 0)
      && (s'.head == 0 && s'.owner.Resting? && (forall c :: c in s'.pushers ==> s'.pushers[c].Idle?) ==>
          s'.pushes[b] == s'.frees[b])
  {
    assert Linked(s.next, s.head, []);
    assert Inv(s, [], []) by {
      forall b ensures Counted(s, b) {}
    }
    RunKeeps(s, [], [], es);
    var s' := After(s, es);
    var stack, chain :| Inv(s', stack, chain);
    assert Counted(s', b);
    if s'.head == 0 && s'.owner.Resting? && InFlight(s'.place, b) {
      assert b !in stack && b !in chain;
      assert PlaceOk(s', b);
    }
  }

  // ---- nothing stays in flight for ever by the list's own doing -----------------------------

  lemma {:induction false} RunAppend(s: State, es: seq<Event>, fs: seq<Event>)
    requires Run(s, es) && Run(After(s, es), fs)
    ensures Run(s, es + fs) && After(s, es + fs) == After(After(s, es), fs)
    decreases |es|
  {
    if es == [] {
      assert es + fs == fs;
    } else {
      assert (es + fs)[1..] == es[1..] + fs;
      RunAppend(Apply(s, es[0]), es[1..], fs);
    }
  }

  /** A push that no other CPU interferes with is on the list after three steps. */
  lemma PushEnds(s: State, c: Cpu)
    requires c in s.pushers && s.pushers[c].Ready?
    ensures var es := [Load(c), WriteNext(c), Cas(c, false)]; var b := s.pushers[c].b;
      && Run(s, es)
      && var s' := After(s, es);
         s'.head == b && s'.pushers == s.pushers[c := Idle] && s'.place == s.place[b := Stacked]
         && s'.next == s.next[b := s.head] && s'.owner == s.owner
  {
    var s1 := Apply(s, Load(c));
    var s2 := Apply(s1, WriteNext(c));
    var s3 := Apply(s2, Cas(c, false));
    var es := [Load(c), WriteNext(c), Cas(c, false)];
    assert es[1..] == [WriteNext(c), Cas(c, false)] && es[1..][1..] == [Cas(c, false)] && es[1..][1..][1..] == [];
    assert Run(s3, []) && Run(s2, [Cas(c, false)]) && Run(s1, [WriteNext(c), Cas(c, false)]);
    assert After(s2, [Cas(c, false)]) == After(s3, []) == s3;
    assert After(s1, [WriteNext(c), Cas(c, false)]) == s3;
  }

  /** Two steps free the first block of a chain. */
  lemma FreeFirst(s: State, stack: seq<Block>, chain: seq<Block>) returns (es: seq<Event>)
    requires Inv(s, stack, chain) && s.owner.Draining?
    ensures chain != [] && |es| == 2 && Run(s, es) && Inv(After(s, es), stack, chain[1..]) && !After(s, es).owner.Freeing?
    ensures After(s, es).frees == s.frees + multiset{chain[0]} && After(s, es).head == s.head
  {
    var s1 := Apply(s, ReadNext);
    StepKeeps(s, stack, chain, ReadNext);
    var s2 := Apply(s1, Free(map[]));
    StepKeeps(s1, stack, chain, Free(map[]));
    es := [ReadNext, Free(map[])];
    assert es[1..] == [Free(map[])] && es[1..][1..] == [];
    assert Run(s2, []) && Run(s1, es[1..]) && After(s1, es[1..]) == After(s2, []) == s2;
  }

  /** The owner, once it has taken a chain, frees exactly its blocks. */
  lemma {:induction false} DrainEnds(s: State, stack: seq<Block>, chain: seq<Block>) returns (es: seq<Event>)
    requires Inv(s, stack, chain) && !s.owner.Freeing?
    ensures Run(s, es) && Inv(After(s, es), stack, []) && After(s, es).owner.Resting?
    ensures After(s, es).frees == s.frees + multiset(chain) && After(s, es).head == s.head && |es| == 2 * |chain|
    decreases |chain|
  {
    if s.owner.Resting? {
      es := [];
    } else {
      var fs := FreeFirst(s, stack, chain);
      var gs := DrainEnds(After(s, fs), stack, chain[1..]);
      RunAppend(s, fs, gs);
      es := fs + gs;
      assert chain == [chain[0]] + chain[1..];
    }
  }

  /** A flush of a list that no push is adding to frees all that is on it. */
  lemma FlushEnds(s: State, stack: seq<Block>) returns (es: seq<Event>)
    requires Inv(s, stack, []) && s.owner.Resting?
    ensures Run(s, es) && After(s, es).head == 0 && After(s, es).owner.Resting?
    ensures After(s, es).frees == s.frees + multiset(stack)
  {
    var s1 := Apply(s, Exchange);
    StepKeeps(s, stack, [], Exchange);
    var fs := DrainEnds(s1, [], stack);
    es := [Exchange] + fs;
    assert es[1..] == fs;
  }
}
