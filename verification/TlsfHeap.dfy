/**
  The boundary-tag heap of `kernel/lib/tlsf.c`: what the words of memory mean.

  Memory is word addressed by byte address; a header at address `b` has its
  prev_phys_block word at `b` (the last word of the block before it), its size word at
  `b + 8`, and its next_free / prev_free words at `b + 16` and `b + 24`, inside its payload.
  `Blocks` is the set of headers the memory holds, each with the pool it belongs to.
 */
module TlsfHeap {
  import opened TlsfMapping

  type Mem = map<nat, nat>

  /** Reading any word; memory nobody has written holds some value, here 0. */
  function Rd(m: Mem, a: nat): nat { if a in m then m[a] else 0 }

  function NextFree(m: Mem, b: nat): nat { Rd(m, b + 16) }

  function PrevFree(m: Mem, b: nat): nat { Rd(m, b + 24) }

  /** A pool runs from its first header `base` to its sentinel `end`. */
  datatype Block = Block(size: nat, free: bool, pfree: bool, base: nat, end: nat)

  type Blocks = map<nat, Block>

  /** The header after `b`: block_next. */
  function Next(B: Blocks, b: nat): nat
    requires b in B
  {
    b + 8 + B[b].size
  }

  /** The size word: the size with the free bit and the prev-free bit below it. */
  function Word(k: Block): nat { k.size + (if k.free then 1 else 0) + (if k.pfree then 2 else 0) }

  // ---- size words (block_size, block_set_size, block_set_free, ...) ----------------

  function SizeOf(w: nat): nat { w / 4 * 4 }

  predicate IsFree(w: nat) { w % 2 == 1 }

  predicate IsPrevFree(w: nat) { w / 2 % 2 == 1 }

  function WithSize(w: nat, size: nat): nat { size + w % 4 }

  function WithFree(w: nat, f: bool): nat { w / 2 * 2 + (if f then 1 else 0) }

  function WithPrevFree(w: nat, f: bool): nat { w / 4 * 4 + (if f then 2 else 0) + w % 2 }

  lemma Quotients(q: nat, r: nat)
    requires r < 2
    ensures (2 * q + r) / 2 == q && (2 * q + r) % 2 == r
  {
  }

  lemma Quarters(q: nat, r: nat)
    requires r < 4
    ensures (4 * q + r) / 4 == q && (4 * q + r) % 4 == r
  {
  }

  /** The parts of a word with its size, prev-free and free bits written out. */
  lemma WordParts(q: nat, p: nat, f: nat)
    requires p < 2 && f < 2
    ensures var w := 8 * q + 2 * p + f;
      w / 4 * 4 == 8 * q && w % 4 == 2 * p + f && w % 2 == f && w / 2 == 4 * q + p && w / 2 % 2 == p
  {
    Quarters(2 * q, 2 * p + f);
    Quotients(4 * q + p, f);
    Quotients(2 * q, p);
    assert 8 * q + 2 * p + f == 4 * (2 * q) + (2 * p + f) == 2 * (4 * q + p) + f;
  }

  lemma WordFields(k: Block, s: nat, f: bool)
    requires k.size % 8 == 0 && s % 8 == 0
    ensures SizeOf(Word(k)) == k.size && IsFree(Word(k)) == k.free && IsPrevFree(Word(k)) == k.pfree
    ensures WithSize(Word(k), s) == Word(k.(size := s))
    ensures WithFree(Word(k), f) == Word(k.(free := f))
    ensures WithPrevFree(Word(k), f) == Word(k.(pfree := f))
  {
    var q := k.size / 8;
    assert k.size == 8 * q;
    WordParts(q, if k.pfree then 1 else 0, if k.free then 1 else 0);
  }

  lemma WordSize(k: Block)
    requires k.size % 8 == 0
    ensures SizeOf(Word(k)) == k.size && IsFree(Word(k)) == k.free && IsPrevFree(Word(k)) == k.pfree
  {
    WordFields(k, 0, true);
  }

  // ---- the physical invariant ------------------------------------------------------

  ghost predicate Good(B: Blocks, b: nat)
    requires b in B
  {
    var k := B[b];
    && b % 8 == 0 && k.size % 8 == 0
    && k.base <= b <= k.end && k.end < k.base + BLOCK_SIZE_MAX + 8
    && (k.size == 0 <==> b == k.end) && (k.size == 0 ==> !k.free)
    && (k.size > 0 ==>
          && k.size >= BLOCK_SIZE_MIN && Next(B, b) in B
          && B[Next(B, b)].base == k.base && B[Next(B, b)].end == k.end && B[Next(B, b)].pfree == k.free)
    && (b == k.base ==> !k.pfree)
    && k.base in B && B[k.base].base == k.base && B[k.base].end == k.end
  }

  ghost predicate Before(B: Blocks, b: nat, c: nat)
    requires b in B
  {
    Next(B, b) <= c
  }

  ghost predicate NoOverlap(B: Blocks) {
    forall b, c {:trigger Before(B, b, c)} :: b in B && c in B && b < c ==> Before(B, b, c)
  }

  /** The block lies outside the links of block_null. */
  ghost predicate Clear(B: Blocks, nb: nat, b: nat)
    requires b in B
  {
    b >= nb + 24 || Next(B, b) <= nb + 8
  }

  /** Blocks tile their pools, flags agree with neighbours, and block_null is elsewhere. */
  ghost predicate Phys(B: Blocks, nb: nat) {
    && (forall b {:trigger Good(B, b)} :: b in B ==> Good(B, b))
    && NoOverlap(B)
    && (forall b {:trigger Clear(B, nb, b)} :: b in B ==> Clear(B, nb, b))
  }

  ghost predicate IsPrev(B: Blocks, p: nat, b: nat) {
    p in B && B[p].free && Next(B, p) == b
  }

  ghost predicate Header(m: Mem, B: Blocks, b: nat)
    requires b in B
  {
    Rd(m, b + 8) == Word(B[b]) && (B[b].pfree ==> IsPrev(B, Rd(m, b), b))
  }

  /** The header words in memory say what `B` says. */
  ghost predicate MemOk(m: Mem, B: Blocks) {
    forall b {:trigger Header(m, B, b)} :: b in B ==> Header(m, B, b)
  }

  /** No two neighbours are both free, except next to a block in `holes`. */
  ghost predicate Coalesced(B: Blocks, holes: set<nat>) {
    forall b {:trigger Alone(B, b)} :: b in B && b !in holes && Next(B, b) !in holes ==> Alone(B, b)
  }

  ghost predicate Alone(B: Blocks, b: nat)
    requires b in B
  {
    B[b].free && Next(B, b) in B ==> !B[Next(B, b)].free
  }

  /** The words of a block's payload. */
  ghost predicate InPayload(B: Blocks, b: nat, a: nat)
    requires b in B
  {
    B[b].size > 0 && b + 16 <= a <= Next(B, b)
  }

  /** Every payload of a block that `B` says is in use is the same in both memories. */
  ghost predicate Keeps(m: Mem, m': Mem, B: Blocks) {
    forall b, a :: b in B && !B[b].free && InPayload(B, b, a) ==> Rd(m', a) == Rd(m, a)
  }

  /** The blocks in use in `B` are in use in `B'`, with the same size. */
  ghost predicate LiveIn(B: Blocks, B': Blocks) {
    forall b :: b in B && !B[b].free ==> b in B' && !B'[b].free && B'[b].size == B[b].size
  }

  lemma KeepsTrans(m: Mem, m': Mem, m'': Mem, B: Blocks, B': Blocks)
    requires Keeps(m, m', B) && Keeps(m', m'', B') && LiveIn(B, B')
    ensures Keeps(m, m'', B)
  {
    forall b, a | b in B && !B[b].free && InPayload(B, b, a) ensures Rd(m'', a) == Rd(m, a) {
      assert InPayload(B', b, a);
    }
  }

  /** Headers keep their distance from a free block. */
  lemma Apart(B: Blocks, nb: nat, f: nat, b: nat)
    requires Phys(B, nb) && f in B && B[f].size > 0 && b in B
    ensures b <= f || b >= Next(B, f) >= f + 32
    ensures b < f ==> Next(B, b) <= f
  {
    assert Good(B, f);
    if b < f { assert Before(B, b, f); }
    if b > f { assert Before(B, f, b); }
  }

  /** The predecessor of a block with the prev-free bit is unique. */
  lemma PrevUnique(B: Blocks, nb: nat, p: nat, q: nat)
    requires Phys(B, nb) && p in B && q in B && B[p].size > 0 && B[q].size > 0 && Next(B, p) == Next(B, q)
    ensures p == q
  {
    assert p < q ==> Before(B, p, q);
    assert q < p ==> Before(B, q, p);
  }

  // ---- writing list links ----------------------------------------------------------

  /** A node whose list links may be written: block_null or a free block. */
  ghost predicate Node(B: Blocks, nb: nat, x: nat) { x == nb || (x in B && B[x].free) }

  lemma WriteLink(m: Mem, B: Blocks, nb: nat, x: nat, a: nat, v: nat)
    requires Phys(B, nb) && MemOk(m, B) && Node(B, nb, x) && (a == x + 16 || a == x + 24)
    ensures MemOk(m[a := v], B) && Keeps(m, m[a := v], B)
  {
    var m' := m[a := v];
    forall b | b in B
      ensures Header(m', B, b) && (!B[b].free ==> !InPayload(B, b, a))
    {
      assert Header(m, B, b) && Good(B, b) && Clear(B, nb, b);
      if x != nb {
        assert Good(B, x);
        Apart(B, nb, x, b);
      } else if B[b].pfree {
        assert Clear(B, nb, Rd(m, b));
      }
    }
  }

  // ---- marking a block free or used ------------------------------------------------

  function Mark(B: Blocks, b: nat, f: bool): Blocks
    requires b in B && Next(B, b) in B
  {
    B[b := B[b].(free := f)][Next(B, b) := B[Next(B, b)].(pfree := f)]
  }

  lemma MarkPhys(B: Blocks, nb: nat, b: nat, f: bool)
    requires Phys(B, nb) && b in B && B[b].size > 0
    ensures Next(B, b) in B && Phys(Mark(B, b, f), nb)
  {
    assert Good(B, b);
    var B' := Mark(B, b, f);
    forall c | c in B' ensures Good(B', c) && Clear(B', nb, c) {
      MarkGood(B, nb, b, f, c);
    }
    forall c, d | c in B' && d in B' && c < d ensures Before(B', c, d) {
      MarkNext(B, b, f, c);
      assert Before(B, c, d);
    }
  }

  lemma MarkNext(B: Blocks, b: nat, f: bool, c: nat)
    requires b in B && Next(B, b) in B && c in B
    ensures Next(Mark(B, b, f), c) == Next(B, c)
  {
  }

  lemma MarkGood(B: Blocks, nb: nat, b: nat, f: bool, c: nat)
    requires Phys(B, nb) && b in B && B[b].size > 0 && Next(B, b) in B && c in B
    ensures Good(Mark(B, b, f), c) && Clear(Mark(B, b, f), nb, c)
  {
    assert Good(B, b) && Good(B, c) && Clear(B, nb, c);
    if c != b && B[c].size > 0 && Next(B, c) == Next(B, b) { PrevUnique(B, nb, c, b); }
    if Next(B, b) == c { assert B[b].base <= b; }
  }

  /** The word before a header that has its prev-free bit set is not a size word. */
  lemma SlotApart(B: Blocks, nb: nat, p: nat, c: nat, x: nat)
    requires Phys(B, nb) && IsPrev(B, p, c) && x in B
    ensures p + 32 <= c && x + 8 != c && (x <= p || x >= c) && (x < p ==> Next(B, x) <= p)
  {
    assert Good(B, p);
    Apart(B, nb, p, x);
  }

  lemma MarkMem(m: Mem, m': Mem, B: Blocks, nb: nat, b: nat, f: bool)
    requires Phys(B, nb) && MemOk(m, B) && b in B && B[b].size > 0 && Next(B, b) in B
    requires Rd(m', b + 8) == Word(B[b].(free := f))
    requires Rd(m', Next(B, b) + 8) == Word(B[Next(B, b)].(pfree := f))
    requires f ==> Rd(m', Next(B, b)) == b
    requires forall a :: a != b + 8 && a != Next(B, b) + 8 && (!f || a != Next(B, b)) ==> Rd(m', a) == Rd(m, a)
    ensures MemOk(m', Mark(B, b, f))
    ensures Keeps(m, m', Mark(B, b, f)) && (!f ==> Keeps(m, m', B))
  {
    var B', n := Mark(B, b, f), Next(B, b);
    assert Good(B, b);
    forall c | c in B' ensures Header(m', B', c) {
      assert Header(m, B, c) && Good(B, c);
      Apart(B, nb, b, c);
      if B'[c].pfree && c != n {
        var p := Rd(m, c);
        SlotApart(B, nb, p, c, b);
        SlotApart(B, nb, p, c, n);
        assert IsPrev(B', p, c);
      }
    }
    forall c, a | c in B && c != b && !B[c].free && InPayload(B, c, a) ensures a != b + 8 && a != n + 8 && a != n {
      Apart(B, nb, c, b);
      Apart(B, nb, c, n);
      Apart(B, nb, b, c);
    }
    forall c, a | c in B' && !B'[c].free && InPayload(B', c, a) ensures Rd(m', a) == Rd(m, a) {
      assert InPayload(B, c, a);
    }
  }

  // ---- splitting -------------------------------------------------------------------

  /** The remainder of a split starts here. */
  function Rest(b: nat, size: nat): nat { b + 8 + size }

  predicate CanSplit(B: Blocks, b: nat, size: nat)
    requires b in B
  {
    BLOCK_SIZE_MIN <= size && size % 8 == 0 && B[b].size >= 32 + size
  }

  function Split(B: Blocks, b: nat, size: nat): Blocks
    requires b in B && CanSplit(B, b, size) && Next(B, b) in B
  {
    var k := B[b];
    B[b := k.(size := size)]
     [Rest(b, size) := Block(k.size - size - 8, true, k.free, k.base, k.end)]
     [Next(B, b) := B[Next(B, b)].(pfree := true)]
  }

  lemma SplitFresh(B: Blocks, nb: nat, b: nat, size: nat)
    requires Phys(B, nb) && b in B && CanSplit(B, b, size)
    ensures Next(B, b) in B && Rest(b, size) !in B
  {
    assert Good(B, b);
    if Rest(b, size) in B { Apart(B, nb, b, Rest(b, size)); }
  }

  lemma SplitPhys(B: Blocks, nb: nat, b: nat, size: nat)
    requires Phys(B, nb) && b in B && CanSplit(B, b, size) && Next(B, b) in B
    ensures Phys(Split(B, b, size), nb)
  {
    var B' := Split(B, b, size);
    forall c | c in B' ensures Good(B', c) && Clear(B', nb, c) {
      SplitGood(B, nb, b, size, c);
    }
    forall c, d | c in B' && d in B' && c < d ensures Before(B', c, d) {
      SplitBefore(B, nb, b, size, c, d);
    }
  }

  lemma SplitGood(B: Blocks, nb: nat, b: nat, size: nat, c: nat)
    requires Phys(B, nb) && b in B && CanSplit(B, b, size) && Next(B, b) in B && c in Split(B, b, size)
    ensures Good(Split(B, b, size), c) && Clear(Split(B, b, size), nb, c)
  {
    SplitFresh(B, nb, b, size);
    if c == b || c == Rest(b, size) {
      SplitParts(B, nb, b, size);
    } else {
      if B[c].size > 0 && Next(B, c) == Next(B, b) { PrevUnique(B, nb, c, b); }
      SplitOther(B, nb, b, size, c);
    }
  }

  lemma SplitParts(B: Blocks, nb: nat, b: nat, size: nat)
    requires Phys(B, nb) && b in B && CanSplit(B, b, size) && Next(B, b) in B && Rest(b, size) !in B
    ensures var B', r := Split(B, b, size), Rest(b, size);
      Good(B', b) && Clear(B', nb, b) && Good(B', r) && Clear(B', nb, r)
  {
    var B', r, n := Split(B, b, size), Rest(b, size), Next(B, b);
    assert Good(B, b) && Good(B, n) && Clear(B, nb, b);
    assert Next(B', r) == n && Next(B', b) == r;
  }

  lemma SplitOther(B: Blocks, nb: nat, b: nat, size: nat, c: nat)
    requires Phys(B, nb) && b in B && CanSplit(B, b, size) && Next(B, b) in B && Rest(b, size) !in B
    requires c in B && c != b && (B[c].size > 0 ==> Next(B, c) != Next(B, b))
    ensures Good(Split(B, b, size), c) && Clear(Split(B, b, size), nb, c)
  {
    assert Good(B, b) && Good(B, c) && Clear(B, nb, c);
    if c == Next(B, b) { assert B[b].base <= b; }
  }

  lemma SplitBefore(B: Blocks, nb: nat, b: nat, size: nat, c: nat, d: nat)
    requires Phys(B, nb) && b in B && CanSplit(B, b, size) && Next(B, b) in B
    requires c in Split(B, b, size) && d in Split(B, b, size) && c < d
    ensures Before(Split(B, b, size), c, d)
  {
    var r := Rest(b, size);
    if c in B { Apart(B, nb, b, c); }
    if d in B { Apart(B, nb, b, d); }
    if c in B && d in B { assert Before(B, c, d); }
  }

  lemma SplitMem(m: Mem, m': Mem, B: Blocks, nb: nat, b: nat, size: nat)
    requires Phys(B, nb) && MemOk(m, B) && b in B && CanSplit(B, b, size) && Next(B, b) in B
    requires var r, n, B' := Rest(b, size), Next(B, b), Split(B, b, size);
      && Rd(m', b + 8) == Word(B'[b]) && Rd(m', r + 8) == Word(B'[r]) && Rd(m', n + 8) == Word(B'[n])
      && Rd(m', n) == r && (B[b].free ==> Rd(m', r) == b)
      && (forall a :: a != b + 8 && a != r + 8 && a != n && a != n + 8 && (!B[b].free || a != r) ==> Rd(m', a) == Rd(m, a))
    ensures MemOk(m', Split(B, b, size)) && Keeps(m, m', Split(B, b, size))
    ensures B[b].free ==> Keeps(m, m', B)
  {
    var r, n, B' := Rest(b, size), Next(B, b), Split(B, b, size);
    assert Good(B, b);
    SplitFresh(B, nb, b, size);
    forall c | c in B' ensures Header(m', B', c) {
      if c != r {
        assert Header(m, B, c) && Good(B, c);
        Apart(B, nb, b, c);
        if B'[c].pfree && c != n {
          var p := Rd(m, c);
          SlotApart(B, nb, p, c, b);
          SlotApart(B, nb, p, c, n);
          assert IsPrev(B', p, c);
        }
      }
    }
    forall c, a | c in B' && !B'[c].free && InPayload(B', c, a) ensures Rd(m', a) == Rd(m, a) {
      if c != b {
        assert InPayload(B, c, a);
        Apart(B, nb, c, b);
        Apart(B, nb, c, n);
        Apart(B, nb, b, c);
      }
    }
    if B[b].free {
      forall c, a | c in B && !B[c].free && InPayload(B, c, a) ensures Rd(m', a) == Rd(m, a) {
        assert InPayload(B', c, a);
      }
    }
  }

  // ---- absorbing the next block ----------------------------------------------------

  function Absorb(B: Blocks, p: nat): Blocks
    requires p in B && Next(B, p) in B && Next(B, Next(B, p)) in B
  {
    var b := Next(B, p);
    (B - {b})[p := B[p].(size := B[p].size + B[b].size + 8)][Next(B, b) := B[Next(B, b)].(pfree := B[p].free)]
  }

  lemma AbsorbPhys(B: Blocks, nb: nat, p: nat)
    requires Phys(B, nb) && p in B && B[p].size > 0 && Next(B, p) in B && B[Next(B, p)].size > 0
    ensures Next(B, Next(B, p)) in B && Phys(Absorb(B, p), nb)
  {
    assert Good(B, Next(B, p));
    var B' := Absorb(B, p);
    AbsorbKeys(B, p);
    forall c | c in B' ensures Good(B', c) && Clear(B', nb, c) {
      AbsorbGood(B, nb, p, c);
    }
    forall c, d | c in B' && d in B' && c < d ensures Before(B', c, d) {
      AbsorbBefore(B, nb, p, c, d);
    }
  }

  lemma AbsorbKeys(B: Blocks, p: nat)
    requires p in B && Next(B, p) in B && Next(B, Next(B, p)) in B && B[Next(B, p)].size > 0
    ensures forall x :: x in Absorb(B, p) <==> x in B && x != Next(B, p)
  {
  }

  lemma AbsorbBefore(B: Blocks, nb: nat, p: nat, c: nat, d: nat)
    requires Phys(B, nb) && p in B && B[p].size > 0 && Next(B, p) in B && B[Next(B, p)].size > 0
    requires Next(B, Next(B, p)) in B && c in B && c != Next(B, p) && d in B && d != Next(B, p) && c < d
    ensures Before(Absorb(B, p), c, d)
  {
    Apart(B, nb, p, d);
    Apart(B, nb, Next(B, p), d);
    assert Before(B, c, d);
  }

  lemma AbsorbGood(B: Blocks, nb: nat, p: nat, c: nat)
    requires Phys(B, nb) && p in B && B[p].size > 0 && Next(B, p) in B && B[Next(B, p)].size > 0
    requires Next(B, Next(B, p)) in B && c in B && c != Next(B, p)
    ensures Good(Absorb(B, p), c) && Clear(Absorb(B, p), nb, c)
  {
    var b := Next(B, p);
    assert Good(B, c) && Clear(B, nb, c);
    if c == p {
      AbsorbGrown(B, nb, p);
    } else {
      if B[c].size > 0 && Next(B, c) == b { PrevUnique(B, nb, c, p); }
      if B[c].size > 0 && Next(B, c) == Next(B, b) { PrevUnique(B, nb, c, b); }
      AbsorbOther(B, nb, p, c);
    }
  }

  lemma AbsorbGrown(B: Blocks, nb: nat, p: nat)
    requires Phys(B, nb) && p in B && B[p].size > 0 && Next(B, p) in B && B[Next(B, p)].size > 0
    requires Next(B, Next(B, p)) in B
    ensures Good(Absorb(B, p), p) && Clear(Absorb(B, p), nb, p)
  {
    var b := Next(B, p);
    assert Good(B, p) && Good(B, b) && Good(B, Next(B, b)) && Clear(B, nb, p) && Clear(B, nb, b);
    assert Next(Absorb(B, p), p) == Next(B, b);
  }

  lemma AbsorbOther(B: Blocks, nb: nat, p: nat, c: nat)
    requires Phys(B, nb) && p in B && B[p].size > 0 && Next(B, p) in B && B[Next(B, p)].size > 0
    requires Next(B, Next(B, p)) in B && c in B && c != Next(B, p) && c != p
    requires B[c].size > 0 ==> Next(B, c) != Next(B, p) && Next(B, c) != Next(B, Next(B, p))
    ensures Good(Absorb(B, p), c) && Clear(Absorb(B, p), nb, c)
  {
    var b, B' := Next(B, p), Absorb(B, p);
    assert Good(B, b) && Good(B, c) && Clear(B, nb, c);
    AbsorbBase(B, nb, p);
    assert c in B' && B'[c].size == B[c].size && B'[c].base == B[c].base && B'[c].end == B[c].end && B'[c].free == B[c].free;
    if c == Next(B, b) { assert B[b].base <= b < c; }
    assert B[c].base != b;
  }

  /** A block with a block before it is not the first of a pool. */
  lemma AbsorbBase(B: Blocks, nb: nat, p: nat)
    requires Phys(B, nb) && p in B && B[p].size > 0 && Next(B, p) in B
    ensures B[Next(B, p)].base <= p
  {
    assert Good(B, p);
  }

  lemma AbsorbMem(m: Mem, m': Mem, B: Blocks, nb: nat, p: nat)
    requires Phys(B, nb) && MemOk(m, B) && p in B && B[p].size > 0
    requires Next(B, p) in B && B[Next(B, p)].size > 0 && Next(B, Next(B, p)) in B
    requires var n, B' := Next(B, Next(B, p)), Absorb(B, p);
      && Rd(m', p + 8) == Word(B'[p]) && Rd(m', n + 8) == Word(B'[n]) && (B[p].free ==> Rd(m', n) == p)
      && (forall a :: a != p + 8 && a != n && a != n + 8 ==> Rd(m', a) == Rd(m, a))
    requires B[Next(B, p)].free
    ensures MemOk(m', Absorb(B, p)) && Keeps(m, m', B)
  {
    var b := Next(B, p);
    var n, B' := Next(B, b), Absorb(B, p);
    assert Good(B, p) && Good(B, b) && Good(B, n);
    forall c | c in B' ensures Header(m', B', c) {
      assert Header(m, B, c) && Good(B, c);
      Apart(B, nb, p, c);
      Apart(B, nb, b, c);
      if B'[c].pfree && c != n {
        var q := Rd(m, c);
        SlotApart(B, nb, q, c, p);
        SlotApart(B, nb, q, c, b);
        SlotApart(B, nb, q, c, n);
        assert IsPrev(B', q, c);
      }
    }
    forall c, a | c in B && !B[c].free && InPayload(B, c, a) ensures a != p + 8 && a != n && a != n + 8 {
      if c != p { Apart(B, nb, c, p); }
      Apart(B, nb, c, b);
      Apart(B, nb, c, n);
      Apart(B, nb, b, c);
      Apart(B, nb, p, c);
    }
  }

  // ---- a new pool ------------------------------------------------------------------

  /** The blocks of a fresh pool whose first header is `b`: one free block and the sentinel. */
  function AddPool(B: Blocks, b: nat, bytes: nat): Blocks {
    var e := b + 8 + bytes;
    B[b := Block(bytes, true, false, b, e)][e := Block(0, false, true, b, e)]
  }

  /** The memory of a new pool: apart from the existing pools and from block_null. */
  ghost predicate Outside(B: Blocks, nb: nat, b: nat, bytes: nat) {
    && (forall c :: c in B ==> c >= b + 16 + bytes || Next(B, c) <= b)
    && (b >= nb + 24 || b + 16 + bytes <= nb + 8)
  }

  lemma AddPoolPhys(B: Blocks, nb: nat, b: nat, bytes: nat)
    requires Phys(B, nb) && Outside(B, nb, b, bytes) && b % 8 == 0 && bytes % 8 == 0
    requires BLOCK_SIZE_MIN <= bytes < BLOCK_SIZE_MAX
    ensures Phys(AddPool(B, b, bytes), nb) && b !in B && b + 8 + bytes !in B
  {
    var B', e := AddPool(B, b, bytes), b + 8 + bytes;
    forall c | c in B' ensures Good(B', c) && Clear(B', nb, c) {
      if c in B {
        AddPoolGood(B, nb, b, bytes, c);
      }
    }
    AddPoolApart(B, nb, b, bytes);
  }

  lemma AddPoolApart(B: Blocks, nb: nat, b: nat, bytes: nat)
    requires Phys(B, nb) && Outside(B, nb, b, bytes)
    ensures NoOverlap(AddPool(B, b, bytes))
  {
    var B' := AddPool(B, b, bytes);
    forall c, d | c in B' && d in B' && c < d ensures Before(B', c, d) {
      if c in B && d in B { assert Before(B, c, d); }
    }
  }

  lemma AddPoolGood(B: Blocks, nb: nat, b: nat, bytes: nat, c: nat)
    requires Phys(B, nb) && Outside(B, nb, b, bytes) && c in B
    ensures c in AddPool(B, b, bytes) && Good(AddPool(B, b, bytes), c) && Clear(AddPool(B, b, bytes), nb, c)
  {
    assert Good(B, c) && Clear(B, nb, c);
    assert forall x :: x in B ==> x != b && x != b + 8 + bytes;
  }

  lemma AddPoolMem(m: Mem, m': Mem, B: Blocks, nb: nat, b: nat, bytes: nat)
    requires Phys(B, nb) && MemOk(m, B) && Outside(B, nb, b, bytes) && bytes >= BLOCK_SIZE_MIN
    requires var e, B' := b + 8 + bytes, AddPool(B, b, bytes);
      && Rd(m', b + 8) == Word(B'[b]) && Rd(m', e + 8) == Word(B'[e]) && Rd(m', e) == b
      && (forall a :: a != b + 8 && a != e && a != e + 8 ==> Rd(m', a) == Rd(m, a))
    ensures MemOk(m', AddPool(B, b, bytes)) && Keeps(m, m', B)
  {
    var B', e := AddPool(B, b, bytes), b + 8 + bytes;
    forall c | c in B' ensures Header(m', B', c) {
      if c in B {
        assert Header(m, B, c) && Good(B, c);
        if B[c].pfree {
          var p := Rd(m, c);
          assert Good(B, p);
          assert IsPrev(B', p, c);
        }
      } else if c == e {
        assert IsPrev(B', b, e);
      }
    }
    forall c, a | c in B && !B[c].free && InPayload(B, c, a) ensures a != b + 8 && a != e && a != e + 8 {
    }
  }
}
