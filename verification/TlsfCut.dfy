/**
  block_split of a block in use at size 0, which `kernel/lib/tlsf.c` reaches when tlsf_realloc
  is asked for a size that adjust_request_size refuses.  The header of the block then reads as
  a sentinel, so that its pool ends there and a new one begins with the remainder.
 */
module TlsfCut {
  import opened TlsfMapping
  import opened TlsfHeap
  import opened TlsfLists
  import opened TlsfSteps

  predicate CanCut(B: Blocks, b: nat)
    requires b in B
  {
    !B[b].free && B[b].size >= 32
  }

  function CutBlock(B: Blocks, b: nat, x: nat): Block
    requires b in B && CanCut(B, b) && (x in B || x == Rest(b, 0))
  {
    var k := B[b];
    if x == b then Block(0, false, k.pfree, k.base, b)
    else if x == Rest(b, 0) then Block(k.size - 8, true, false, x, k.end)
    else Flagged(Moved(B[x], k.base, b, x), x == Next(B, b))
  }

  /** The entry of another block: its pool may now end or begin at the cut. */
  function Moved(j: Block, base: nat, b: nat, x: nat): Block {
    if j.base != base then j else if x < b then j.(end := b) else j.(base := Rest(b, 0))
  }

  function Flagged(j: Block, next: bool): Block { if next then j.(pfree := true) else j }

  /** The layout after the split at 0. */
  ghost function Cut(B: Blocks, b: nat): Blocks
    requires b in B && CanCut(B, b)
  {
    map x | x in B.Keys + {Rest(b, 0)} :: CutBlock(B, b, x)
  }

  lemma CutFresh(B: Blocks, nb: nat, b: nat)
    requires Phys(B, nb) && b in B && CanCut(B, b)
    ensures Next(B, b) in B && Rest(b, 0) !in B
  {
    assert Good(B, b);
    if Rest(b, 0) in B { Apart(B, nb, b, Rest(b, 0)); }
  }

  lemma CutPhys(B: Blocks, nb: nat, b: nat)
    requires Phys(B, nb) && b in B && CanCut(B, b)
    ensures Phys(Cut(B, b), nb)
  {
    var B' := Cut(B, b);
    CutFresh(B, nb, b);
    forall c | c in B' ensures Good(B', c) && Clear(B', nb, c) {
      CutGood(B, nb, b, c);
    }
    forall c, d | c in B' && d in B' && c < d ensures Before(B', c, d) {
      CutBefore(B, nb, b, c, d);
    }
  }

  lemma CutGood(B: Blocks, nb: nat, b: nat, c: nat)
    requires Phys(B, nb) && b in B && CanCut(B, b) && Next(B, b) in B && Rest(b, 0) !in B && c in Cut(B, b)
    ensures Good(Cut(B, b), c) && Clear(Cut(B, b), nb, c)
  {
    if c == b || c == Rest(b, 0) {
      CutParts(B, nb, b);
    } else if c < b {
      GoodBelow(B, nb, b, c);
    } else {
      GoodAbove(B, nb, b, c);
    }
  }

  lemma CutParts(B: Blocks, nb: nat, b: nat)
    requires Phys(B, nb) && b in B && CanCut(B, b) && Next(B, b) in B && Rest(b, 0) !in B
    ensures var B', r := Cut(B, b), Rest(b, 0); Good(B', b) && Clear(B', nb, b) && Good(B', r) && Clear(B', nb, r)
  {
    assert Good(B, b) && Clear(B, nb, b) && Good(B, Next(B, b));
  }

  lemma GoodBelow(B: Blocks, nb: nat, b: nat, c: nat)
    requires Phys(B, nb) && b in B && CanCut(B, b) && Next(B, b) in B && Rest(b, 0) !in B && c in B && c < b
    ensures Good(Cut(B, b), c) && Clear(Cut(B, b), nb, c)
  {
    assert Good(B, b) && Good(B, c) && Clear(B, nb, c) && Before(B, c, b);
    assert Cut(B, b)[c].size == B[c].size;
    if B[c].size > 0 { assert Next(B, c) != Rest(b, 0) && Next(B, c) != Next(B, b); }
  }

  lemma GoodAbove(B: Blocks, nb: nat, b: nat, c: nat)
    requires Phys(B, nb) && b in B && CanCut(B, b) && Next(B, b) in B && Rest(b, 0) !in B && c in B && c > b
    ensures Good(Cut(B, b), c) && Clear(Cut(B, b), nb, c)
  {
    var n := Next(B, b);
    assert Good(B, b) && Good(B, c) && Clear(B, nb, c) && Before(B, b, c);
    assert c >= n;
    if B[c].size > 0 && Next(B, c) == n { PrevUnique(B, nb, c, b); }
  }

  lemma CutBefore(B: Blocks, nb: nat, b: nat, c: nat, d: nat)
    requires Phys(B, nb) && b in B && CanCut(B, b)
    requires c in Cut(B, b) && d in Cut(B, b) && c < d
    ensures Before(Cut(B, b), c, d)
  {
    if c in B { Apart(B, nb, b, c); }
    if d in B { Apart(B, nb, b, d); }
    if c in B && d in B { assert Before(B, c, d); }
  }

  /** The words the split writes. */
  ghost predicate CutWritten(m: Mem, m': Mem, B: Blocks, b: nat)
    requires b in B && CanCut(B, b) && Next(B, b) in B
  {
    var r, n, B' := Rest(b, 0), Next(B, b), Cut(B, b);
    && Rd(m', b + 8) == Word(B'[b]) && Rd(m', r + 8) == Word(B'[r]) && Rd(m', n + 8) == Word(B'[n]) && Rd(m', n) == r
    && (forall a :: a != b + 8 && a != r + 8 && a != n && a != n + 8 ==> Rd(m', a) == Rd(m, a))
  }

  lemma CutWords(m: Mem, B: Blocks, nb: nat, b: nat)
    requires Phys(B, nb) && MemOk(m, B) && b in B && CanCut(B, b) && Next(B, b) in B && Rest(b, 0) !in B
    ensures CutWritten(m, TrimUsedMem(m, b, 0, B[b].size), B, b)
  {
    var n, wb, wn := Next(B, b), Word(B[b].(size := 0)), Word(B[Next(B, b)].(pfree := true));
    assert Good(B, b) && Good(B, n) && Header(m, B, b) && Header(m, B, n);
    WordFields(B[b], 0, true);
    WordFields(B[n], 0, true);
    TrimReads(m, b, 0, B[b].size, false, wb, wn);
    CutEntries(B, b);
  }

  lemma CutEntries(B: Blocks, b: nat)
    requires b in B && CanCut(B, b) && Next(B, b) in B && Rest(b, 0) !in B
    ensures var B', r, n := Cut(B, b), Rest(b, 0), Next(B, b);
      && Word(B'[b]) == Word(B[b].(size := 0)) && Word(B'[r]) == B[b].size - 7
      && Word(B'[n]) == Word(B[n].(pfree := true))
  {
  }

  lemma CutMem(m: Mem, m': Mem, B: Blocks, nb: nat, b: nat)
    requires Phys(B, nb) && MemOk(m, B) && b in B && CanCut(B, b) && Next(B, b) in B && Rest(b, 0) !in B
    requires CutWritten(m, m', B, b)
    ensures MemOk(m', Cut(B, b)) && Keeps(m, m', Cut(B, b))
  {
    var B' := Cut(B, b);
    forall c | c in B' ensures Header(m', B', c) {
      if c != Rest(b, 0) { CutHeader(m, m', B, nb, b, c); }
    }
    forall c, a | c in B' && !B'[c].free && InPayload(B', c, a) ensures Rd(m', a) == Rd(m, a) {
      CutPayload(B, nb, b, c, a);
    }
  }

  lemma CutHeader(m: Mem, m': Mem, B: Blocks, nb: nat, b: nat, c: nat)
    requires Phys(B, nb) && MemOk(m, B) && b in B && CanCut(B, b) && Next(B, b) in B && Rest(b, 0) !in B
    requires CutWritten(m, m', B, b) && c in B
    ensures c in Cut(B, b) && Header(m', Cut(B, b), c)
  {
    var n, B' := Next(B, b), Cut(B, b);
    assert Good(B, b) && Header(m, B, c) && Good(B, c);
    Apart(B, nb, b, c);
    if B'[c].pfree && c != n {
      var p := Rd(m, c);
      SlotApart(B, nb, p, c, b);
      SlotApart(B, nb, p, c, n);
      assert IsPrev(B', p, c);
    }
  }

  lemma CutPayload(B: Blocks, nb: nat, b: nat, c: nat, a: nat)
    requires Phys(B, nb) && b in B && CanCut(B, b) && Next(B, b) in B && Rest(b, 0) !in B
    requires c in Cut(B, b) && !Cut(B, b)[c].free && InPayload(Cut(B, b), c, a)
    ensures a != b + 8 && a != b + 16 && a != Next(B, b) && a != Next(B, b) + 8
  {
    assert c in B && InPayload(B, c, a) && Good(B, b);
    Apart(B, nb, c, b);
    Apart(B, nb, c, Next(B, b));
    Apart(B, nb, b, c);
  }

  lemma CutStep(m: Mem, B: Blocks, nb: nat, heads: seq<nat>, lists: Lists, b: nat)
    requires State(m, B, nb, heads, lists, {}) && b in B && CanCut(B, b)
    ensures Next(B, b) in B && Rest(b, 0) !in B
    ensures var m', B' := TrimUsedMem(m, b, 0, B[b].size), Cut(B, b);
      State(m', B', nb, heads, lists, {Rest(b, 0)}) && Keeps(m, m', B')
  {
    CutFresh(B, nb, b);
    CutWords(m, B, nb, b);
    CutTo(m, TrimUsedMem(m, b, 0, B[b].size), B, nb, heads, lists, b);
  }

  lemma CutTo(m: Mem, m': Mem, B: Blocks, nb: nat, heads: seq<nat>, lists: Lists, b: nat)
    requires State(m, B, nb, heads, lists, {}) && b in B && CanCut(B, b)
    requires Next(B, b) in B && Rest(b, 0) !in B && CutWritten(m, m', B, b)
    ensures State(m', Cut(B, b), nb, heads, lists, {Rest(b, 0)}) && Keeps(m, m', Cut(B, b))
  {
    CutPhys(B, nb, b);
    CutMem(m, m', B, nb, b);
    CutIndex(B, lists, b);
    forall x | x in B && B[x].free && x !in {} ensures Rd(m', x + 16) == Rd(m, x + 16) && Rd(m', x + 24) == Rd(m, x + 24) {
      CutLinks(m, m', B, nb, b, x);
    }
    ChainedFrame(m, m', B, nb, heads, lists, {});
  }

  lemma CutIndex(B: Blocks, lists: Lists, b: nat)
    requires Indexed(B, lists, {}) && b in B && CanCut(B, b) && Rest(b, 0) !in B
    ensures Indexed(Cut(B, b), lists, {Rest(b, 0)})
  {
    CutKeys(B, b);
    Reindex(B, Cut(B, b), lists, {}, {Rest(b, 0)});
  }

  /** Which blocks are there after the cut, and what it does not change about them. */
  lemma CutKeys(B: Blocks, b: nat)
    requires b in B && CanCut(B, b) && Rest(b, 0) !in B
    ensures var B', r := Cut(B, b), Rest(b, 0);
      && (forall x :: x in B' <==> x in B || x == r) && !B'[b].free && B'[b].size == 0 && B'[r].free
      && (forall x :: x in B && x != b ==> B'[x].free == B[x].free && B'[x].size == B[x].size)
  {
  }

  lemma CutLinks(m: Mem, m': Mem, B: Blocks, nb: nat, b: nat, x: nat)
    requires Phys(B, nb) && b in B && CanCut(B, b) && Next(B, b) in B && x in B && B[x].free
    requires CutWritten(m, m', B, b)
    ensures Rd(m', x + 16) == Rd(m, x + 16) && Rd(m', x + 24) == Rd(m, x + 24)
  {
    LinkApart(B, nb, x, b);
    LinkApart(B, nb, x, Next(B, b));
    Apart(B, nb, b, x);
    assert Good(B, x);
    Apart(B, nb, x, b);
  }

  lemma CoCut(B: Blocks, nb: nat, b: nat)
    requires Phys(B, nb) && Coalesced(B, {}) && b in B && CanCut(B, b) && Rest(b, 0) !in B
    ensures Coalesced(Cut(B, b), {Rest(b, 0)})
  {
    var B', r := Cut(B, b), Rest(b, 0);
    forall x | x in B' && x !in {r} && Next(B', x) !in {r} ensures Alone(B', x) {
      if x != b { assert Good(B, x) && Alone(B, x); }
    }
  }

  /** The block is no longer in use; all others are. */
  lemma LiveCut(B: Blocks, b: nat)
    requires b in B && CanCut(B, b) && Rest(b, 0) !in B
    ensures Live(Cut(B, b)) == Live(B) - {b}
  {
    CutKeys(B, b);
  }

  /** The pools after `(base, end)` has been cut at `b`. */
  ghost function CutPools(P: set<(nat, nat)>, base: nat, b: nat, end: nat): set<(nat, nat)> {
    P - {(base, end)} + {(base, b), (b + 8, end)}
  }

  lemma PoolsCut(B: Blocks, nb: nat, b: nat)
    requires Phys(B, nb) && b in B && CanCut(B, b) && Rest(b, 0) !in B
    ensures Pools(Cut(B, b)) == CutPools(Pools(B), B[b].base, b, B[b].end)
  {
    var B', P := Cut(B, b), CutPools(Pools(B), B[b].base, b, B[b].end);
    forall x | x in B' ensures (B'[x].base, B'[x].end) in P {
      CutEntry(B, nb, b, x);
    }
    forall p | p in P ensures p in Pools(B') {
      PoolKept(B, nb, b, p);
    }
  }

  lemma CutEntry(B: Blocks, nb: nat, b: nat, x: nat)
    requires Phys(B, nb) && b in B && CanCut(B, b) && x in Cut(B, b)
    ensures (Cut(B, b)[x].base, Cut(B, b)[x].end) in CutPools(Pools(B), B[b].base, b, B[b].end)
  {
    assert Good(B, b);
    if x in B { assert Good(B, x); }
  }

  lemma PoolKept(B: Blocks, nb: nat, b: nat, p: (nat, nat))
    requires Phys(B, nb) && b in B && CanCut(B, b) && Rest(b, 0) !in B
    requires p in CutPools(Pools(B), B[b].base, b, B[b].end)
    ensures p in Pools(Cut(B, b))
  {
    var B' := Cut(B, b);
    assert Good(B, b);
    if p == (B[b].base, b) {
      assert (B'[b].base, B'[b].end) == p;
    } else if p == (b + 8, B[b].end) {
      assert (B'[Rest(b, 0)].base, B'[Rest(b, 0)].end) == p;
    } else {
      var x :| x in B && (B[x].base, B[x].end) == p;
      assert Good(B, x);
      assert (B'[x].base, B'[x].end) == p;
    }
  }

  /** In no layout that the memory holds is `b` a block in use. */
  ghost predicate NotInUse(m: Mem, nb: nat, b: nat) {
    forall B :: Phys(B, nb) && MemOk(m, B) ==> b !in Live(B)
  }

  /** Memory fixes the size of every header, whatever layout is read into it: where one layout
      has a sentinel, no layout has a block in use. */
  lemma SentinelFixed(m: Mem, B: Blocks, nb: nat, b: nat)
    requires Phys(B, nb) && MemOk(m, B) && b in B && B[b].size == 0
    ensures NotInUse(m, nb, b)
  {
    assert Header(m, B, b) && Good(B, b);
    WordSize(B[b]);
    forall B' | Phys(B', nb) && MemOk(m, B') ensures b !in Live(B') {
      if b in B' {
        assert Header(m, B', b) && Good(B', b);
        WordSize(B'[b]);
      }
    }
  }
}
