/**
  The block operations of `kernel/lib/tlsf.c` as functions on memory, and what each does
  to the blocks and the index together.
 */
module TlsfSteps {
  import opened TlsfMapping
  import opened TlsfHeap
  import opened TlsfLists

  /** Blocks, memory and lists agree; blocks in `holes` are free but on no list. */
  ghost predicate State(m: Mem, B: Blocks, nb: nat, heads: seq<nat>, lists: Lists, holes: set<nat>) {
    Phys(B, nb) && MemOk(m, B) && Indexed(B, lists, holes) && Chained(m, nb, heads, lists)
  }

  lemma SizeBound(B: Blocks, nb: nat, b: nat)
    requires Phys(B, nb) && b in B
    ensures B[b].size < BLOCK_SIZE_MAX
  {
    assert Good(B, b);
    if B[b].size > 0 { assert Good(B, Next(B, b)); }
  }

  lemma Fits(B: Blocks, nb: nat, b: nat)
    requires Phys(B, nb) && b in B
    ensures B[b].size < BLOCK_SIZE_MAX && Class(B[b].size) < CLASSES
  {
    SizeBound(B, nb, b);
    ClassInRange(B[b].size);
  }

  /** The list links of a free block are no part of another header. */
  lemma LinkApart(B: Blocks, nb: nat, x: nat, y: nat)
    requires Phys(B, nb) && x in B && B[x].free && y in B
    ensures y + 8 != x + 16 && y + 8 != x + 24 && y != x + 16 && y != x + 24
  {
    assert Good(B, x);
    Apart(B, nb, x, y);
  }

  // ---- block_mark_as_free, block_mark_as_used --------------------------------------

  function MarkFreeMem(m: Mem, b: nat, n: nat): Mem {
    m[n := b][n + 8 := WithPrevFree(Rd(m, n + 8), true)][b + 8 := WithFree(Rd(m, b + 8), true)]
  }

  function MarkUsedMem(m: Mem, b: nat, n: nat): Mem {
    m[n + 8 := WithPrevFree(Rd(m, n + 8), false)][b + 8 := WithFree(Rd(m, b + 8), false)]
  }

  lemma MarkFreeStep(m: Mem, B: Blocks, nb: nat, heads: seq<nat>, lists: Lists, holes: set<nat>, b: nat)
    requires State(m, B, nb, heads, lists, holes) && b in B && !B[b].free && B[b].size > 0 && b !in holes
    ensures Next(B, b) in B
    ensures var m', B' := MarkFreeMem(m, b, Next(B, b)), Mark(B, b, true);
      State(m', B', nb, heads, lists, holes + {b}) && Keeps(m, m', B')
  {
    var n := Next(B, b);
    MarkPhys(B, nb, b, true);
    assert Good(B, b) && Good(B, n) && Header(m, B, b) && Header(m, B, n);
    assert WithFree(Rd(m, b + 8), true) == Word(B[b].(free := true)) by { WordFields(B[b], 0, true); }
    assert WithPrevFree(Rd(m, n + 8), true) == Word(B[n].(pfree := true)) by { WordFields(B[n], 0, true); }
    var m', B' := MarkFreeMem(m, b, n), Mark(B, b, true);
    MarkMem(m, m', B, nb, b, true);
    Reindex(B, B', lists, holes, holes + {b});
    forall x | x in B && B[x].free && x !in holes ensures Rd(m', x + 16) == Rd(m, x + 16) && Rd(m', x + 24) == Rd(m, x + 24) {
      LinkApart(B, nb, x, b);
      LinkApart(B, nb, x, n);
    }
    ChainedFrame(m, m', B, nb, heads, lists, holes);
  }

  lemma MarkUsedStep(m: Mem, B: Blocks, nb: nat, heads: seq<nat>, lists: Lists, holes: set<nat>, b: nat)
    requires State(m, B, nb, heads, lists, holes) && b in B && B[b].free && b in holes
    ensures Next(B, b) in B
    ensures var m', B' := MarkUsedMem(m, b, Next(B, b)), Mark(B, b, false);
      State(m', B', nb, heads, lists, holes - {b}) && Keeps(m, m', B)
  {
    assert Good(B, b);
    var n := Next(B, b);
    MarkPhys(B, nb, b, false);
    assert Good(B, n) && Header(m, B, b) && Header(m, B, n);
    assert WithFree(Rd(m, b + 8), false) == Word(B[b].(free := false)) by { WordFields(B[b], 0, false); }
    assert WithPrevFree(Rd(m, n + 8), false) == Word(B[n].(pfree := false)) by { WordFields(B[n], 0, false); }
    var m', B' := MarkUsedMem(m, b, n), Mark(B, b, false);
    MarkMem(m, m', B, nb, b, false);
    Reindex(B, B', lists, holes, holes - {b});
    forall x | x in B && B[x].free && x !in holes ensures Rd(m', x + 16) == Rd(m, x + 16) && Rd(m', x + 24) == Rd(m, x + 24) {
      LinkApart(B, nb, x, b);
      LinkApart(B, nb, x, n);
    }
    ChainedFrame(m, m', B, nb, heads, lists, holes);
  }

  // ---- block_split -----------------------------------------------------------------

  /** block_split: the remainder at `r` keeps whatever flag bits the payload word there had,
      until they are set. */
  function SplitMemOf(m: Mem, b: nat, size: nat, total: nat): Mem
    requires total >= size + 8
  {
    var r, n := Rest(b, size), b + 8 + total;
    var m1 := m[r + 8 := WithSize(Rd(m, r + 8), total - size - 8)];
    var m2 := m1[b + 8 := WithSize(Rd(m1, b + 8), size)];
    MarkFreeMem(m2, r, n)
  }

  /** ... then block_link_next(block) and block_set_prev_free(remaining). */
  function TrimFreeMem(m: Mem, b: nat, size: nat, total: nat): Mem
    requires total >= size + 8
  {
    var r := Rest(b, size);
    var m1 := SplitMemOf(m, b, size, total)[r := b];
    m1[r + 8 := WithPrevFree(Rd(m1, r + 8), true)]
  }

  /** ... or block_set_prev_used(remaining). */
  function TrimUsedMem(m: Mem, b: nat, size: nat, total: nat): Mem
    requires total >= size + 8
  {
    var r, m1 := Rest(b, size), SplitMemOf(m, b, size, total);
    m1[r + 8 := WithPrevFree(Rd(m1, r + 8), false)]
  }

  /** Whatever flag bits a word had, setting all three parts of it leaves no trace of them. */
  lemma RawFlags(w: nat, s: nat, f: bool)
    requires s % 8 == 0
    ensures WithPrevFree(WithFree(WithSize(w, s), true), f) == s + 1 + (if f then 2 else 0)
  {
    var q, v := s / 8, w % 4;
    assert s == 8 * q;
    Quotients(4 * q + v / 2, v % 2);
    assert s + v == 2 * (4 * q + v / 2) + v % 2;
    var y := 2 * (4 * q + v / 2) + 1;
    assert WithFree(WithSize(w, s), true) == y;
    Quarters(2 * q, 2 * (v / 2) + 1);
    Quotients(4 * q + v / 2, 1);
    assert y == 4 * (2 * q) + (2 * (v / 2) + 1);
  }

  lemma SplitStep(m: Mem, B: Blocks, nb: nat, heads: seq<nat>, lists: Lists, holes: set<nat>, b: nat, size: nat)
    requires State(m, B, nb, heads, lists, holes) && b in B && CanSplit(B, b, size) && (B[b].free <==> b in holes)
    ensures Next(B, b) in B && Rest(b, size) !in B
    ensures var m' := if B[b].free then TrimFreeMem(m, b, size, B[b].size) else TrimUsedMem(m, b, size, B[b].size);
      var B' := Split(B, b, size);
      && State(m', B', nb, heads, lists, holes + {Rest(b, size)})
      && Keeps(m, m', B') && (B[b].free ==> Keeps(m, m', B))
  {
    SplitFresh(B, nb, b, size);
    SplitPhys(B, nb, b, size);
    SplitWords(m, B, nb, b, size);
    var m' := if B[b].free then TrimFreeMem(m, b, size, B[b].size) else TrimUsedMem(m, b, size, B[b].size);
    SplitTo(m, m', B, nb, heads, lists, holes, b, size);
  }

  /** The words a split writes. */
  ghost predicate SplitWritten(m: Mem, m': Mem, B: Blocks, b: nat, size: nat)
    requires b in B && CanSplit(B, b, size) && Next(B, b) in B
  {
    var r, n, B' := Rest(b, size), Next(B, b), Split(B, b, size);
    && Rd(m', b + 8) == Word(B'[b]) && Rd(m', r + 8) == Word(B'[r]) && Rd(m', n + 8) == Word(B'[n])
    && Rd(m', n) == r && (B[b].free ==> Rd(m', r) == b)
    && (forall a :: a != b + 8 && a != r + 8 && a != n && a != n + 8 && (!B[b].free || a != r) ==> Rd(m', a) == Rd(m, a))
  }

  lemma SplitTo(m: Mem, m': Mem, B: Blocks, nb: nat, heads: seq<nat>, lists: Lists, holes: set<nat>, b: nat, size: nat)
    requires State(m, B, nb, heads, lists, holes) && b in B && CanSplit(B, b, size) && (B[b].free <==> b in holes)
    requires Next(B, b) in B && Rest(b, size) !in B && SplitWritten(m, m', B, b, size)
    ensures State(m', Split(B, b, size), nb, heads, lists, holes + {Rest(b, size)})
    ensures Keeps(m, m', Split(B, b, size)) && (B[b].free ==> Keeps(m, m', B))
  {
    SplitPhys(B, nb, b, size);
    SplitMem(m, m', B, nb, b, size);
    SplitIndex(B, nb, lists, holes, b, size);
    forall x | x in B && B[x].free && x !in holes ensures Rd(m', x + 16) == Rd(m, x + 16) && Rd(m', x + 24) == Rd(m, x + 24) {
      SplitLinks(m, m', B, nb, b, size, x);
    }
    ChainedFrame(m, m', B, nb, heads, lists, holes);
  }

  lemma SplitLinks(m: Mem, m': Mem, B: Blocks, nb: nat, b: nat, size: nat, x: nat)
    requires Phys(B, nb) && b in B && CanSplit(B, b, size) && Next(B, b) in B && x in B && B[x].free && x != b
    requires var r, n := Rest(b, size), Next(B, b);
      forall a :: a != b + 8 && a != r + 8 && a != n && a != n + 8 && (!B[b].free || a != r) ==> Rd(m', a) == Rd(m, a)
    ensures Rd(m', x + 16) == Rd(m, x + 16) && Rd(m', x + 24) == Rd(m, x + 24)
  {
    LinkApart(B, nb, x, b);
    LinkApart(B, nb, x, Next(B, b));
    Apart(B, nb, b, x);
    assert Good(B, x);
    Apart(B, nb, x, b);
  }

  lemma SplitIndex(B: Blocks, nb: nat, lists: Lists, holes: set<nat>, b: nat, size: nat)
    requires Phys(B, nb) && Indexed(B, lists, holes) && b in B && CanSplit(B, b, size) && Next(B, b) in B
    requires Rest(b, size) !in B && (B[b].free <==> b in holes)
    ensures Indexed(Split(B, b, size), lists, holes + {Rest(b, size)})
  {
    Reindex(B, Split(B, b, size), lists, holes, holes + {Rest(b, size)});
  }

  lemma SplitWords(m: Mem, B: Blocks, nb: nat, b: nat, size: nat)
    requires Phys(B, nb) && MemOk(m, B) && b in B && CanSplit(B, b, size) && Next(B, b) in B && Rest(b, size) !in B
    ensures var m' := if B[b].free then TrimFreeMem(m, b, size, B[b].size) else TrimUsedMem(m, b, size, B[b].size);
      SplitWritten(m, m', B, b, size)
  {
    var n := Next(B, b);
    assert Good(B, b) && Good(B, n) && Header(m, B, b) && Header(m, B, n);
    assert WithSize(Rd(m, b + 8), size) == Word(B[b].(size := size)) by { WordFields(B[b], size, true); }
    assert WithPrevFree(Rd(m, n + 8), true) == Word(B[n].(pfree := true)) by { WordFields(B[n], 0, true); }
    TrimReads(m, b, size, B[b].size, B[b].free, Word(B[b].(size := size)), Word(B[n].(pfree := true)));
  }

  lemma TrimReads(m: Mem, b: nat, size: nat, total: nat, free: bool, wb: nat, wn: nat)
    requires total >= size + 32 && size % 8 == 0 && total % 8 == 0 && (free ==> size > 0)
    requires wb == WithSize(Rd(m, b + 8), size) && wn == WithPrevFree(Rd(m, b + 16 + total), true)
    ensures var r, n := Rest(b, size), b + 8 + total;
      var m' := if free then TrimFreeMem(m, b, size, total) else TrimUsedMem(m, b, size, total);
      && Rd(m', b + 8) == wb && Rd(m', r + 8) == total - size - 8 + 1 + (if free then 2 else 0) && Rd(m', n + 8) == wn
      && Rd(m', n) == r && (free ==> Rd(m', r) == b)
      && (forall a :: a != b + 8 && a != r + 8 && a != n && a != n + 8 && (!free || a != r) ==> Rd(m', a) == Rd(m, a))
  {
    var r, rem := Rest(b, size), total - size - 8;
    var wr := WithFree(WithSize(Rd(m, r + 8), rem), true);
    var w := rem + 1 + (if free then 2 else 0);
    SplitReads(m, b, size, total, wb, wn, wr);
    assert WithPrevFree(wr, free) == w by { Remainder(size, total); RawFlags(Rd(m, r + 8), rem, free); }
    if free {
      LastWrites(SplitMemOf(m, b, size, total), r, b, wr, w, true);
    } else {
      LastWrites(SplitMemOf(m, b, size, total), r, b, wr, w, false);
    }
  }

  lemma Remainder(size: nat, total: nat)
    requires total >= size + 8 && size % 8 == 0 && total % 8 == 0
    ensures (total - size - 8) % 8 == 0
  {
  }

  lemma LastWrites(m: Mem, r: nat, b: nat, wr: nat, w: nat, free: bool)
    requires Rd(m, r + 8) == wr && WithPrevFree(wr, free) == w
    ensures var m1: Mem := if free then m[r := b] else m;
      var m' := m1[r + 8 := WithPrevFree(Rd(m1, r + 8), free)];
      && Rd(m', r + 8) == w && (free ==> Rd(m', r) == b)
      && (forall a :: a != r + 8 && (!free || a != r) ==> Rd(m', a) == Rd(m, a))
  {
  }

  /** What the words of block_split read back as. */
  lemma SplitReads(m: Mem, b: nat, size: nat, total: nat, wb: nat, wn: nat, wr: nat)
    requires total >= size + 32
    requires wb == WithSize(Rd(m, b + 8), size) && wn == WithPrevFree(Rd(m, b + 16 + total), true)
    requires wr == WithFree(WithSize(Rd(m, b + 16 + size), total - size - 8), true)
    ensures var r, n, m' := Rest(b, size), b + 8 + total, SplitMemOf(m, b, size, total);
      && Rd(m', b + 8) == wb && Rd(m', r + 8) == wr && Rd(m', n + 8) == wn && Rd(m', n) == r
      && (forall a :: a != b + 8 && a != r + 8 && a != n && a != n + 8 ==> Rd(m', a) == Rd(m, a))
  {
    var r, n := Rest(b, size), b + 8 + total;
    var m1: Mem := m[r + 8 := WithSize(Rd(m, r + 8), total - size - 8)];
    assert Rd(m1, b + 8) == Rd(m, b + 8);
    var m2: Mem := m1[b + 8 := wb];
    assert Rd(m2, n + 8) == Rd(m, n + 8) && Rd(m2, r + 8) == WithSize(Rd(m, r + 8), total - size - 8);
    var m3: Mem := m2[n := r];
    var m4: Mem := m3[n + 8 := wn];
    assert SplitMemOf(m, b, size, total) == m4[r + 8 := wr];
  }

  // ---- block_absorb ----------------------------------------------------------------

  /** block_absorb: the flag bits of `p` stay; `n` is the header after the absorbed block. */
  function AbsorbMemOf(m: Mem, p: nat, size: nat, n: nat): Mem {
    m[p + 8 := Rd(m, p + 8) + size + 8][n := p]
  }

  lemma AbsorbStep(m: Mem, B: Blocks, nb: nat, heads: seq<nat>, lists: Lists, holes: set<nat>, p: nat)
    requires State(m, B, nb, heads, lists, holes) && p in B && B[p].free && p in holes
    requires Next(B, p) in B && B[Next(B, p)].free && Next(B, p) in holes
    ensures Next(B, Next(B, p)) in B
    ensures var b := Next(B, p);
      var m', B' := AbsorbMemOf(m, p, B[b].size, Next(B, b)), Absorb(B, p);
      State(m', B', nb, heads, lists, holes - {b}) && Keeps(m, m', B)
  {
    var b := Next(B, p);
    assert Good(B, p) && Good(B, b);
    var n := Next(B, b);
    AbsorbPhys(B, nb, p);
    assert Good(B, n) && Header(m, B, p) && Header(m, B, n);
    var m', B' := AbsorbMemOf(m, p, B[b].size, n), Absorb(B, p);
    AbsorbMem(m, m', B, nb, p);
    AbsorbLists(m, m', B, nb, heads, lists, holes, p);
  }

  lemma AbsorbLists(m: Mem, m': Mem, B: Blocks, nb: nat, heads: seq<nat>, lists: Lists, holes: set<nat>, p: nat)
    requires State(m, B, nb, heads, lists, holes) && p in B && B[p].size > 0 && (B[p].free <==> p in holes)
    requires Next(B, p) in B && B[Next(B, p)].free && Next(B, p) in holes && Next(B, Next(B, p)) in B
    requires forall a :: a != p + 8 && a != Next(B, Next(B, p)) && a != Next(B, Next(B, p)) + 8 ==> Rd(m', a) == Rd(m, a)
    ensures Indexed(Absorb(B, p), lists, holes - {Next(B, p)}) && Chained(m', nb, heads, lists)
  {
    var b := Next(B, p);
    var n := Next(B, b);
    Reindex(B, Absorb(B, p), lists, holes, holes - {b});
    forall x | x in B && B[x].free && x !in holes ensures Rd(m', x + 16) == Rd(m, x + 16) && Rd(m', x + 24) == Rd(m, x + 24) {
      LinkApart(B, nb, x, p);
      LinkApart(B, nb, x, n);
    }
    ChainedFrame(m, m', B, nb, heads, lists, holes);
  }

  /** block_absorb into a block in use, followed by block_mark_as_used. */
  function GrowMem(m: Mem, p: nat, size: nat, n: nat): Mem { MarkUsedMem(AbsorbMemOf(m, p, size, n), p, n) }

  lemma GrowStep(m: Mem, B: Blocks, nb: nat, heads: seq<nat>, lists: Lists, holes: set<nat>, p: nat)
    requires State(m, B, nb, heads, lists, holes) && p in B && !B[p].free && B[p].size > 0 && p !in holes
    requires Next(B, p) in B && B[Next(B, p)].free && Next(B, p) in holes
    ensures Next(B, Next(B, p)) in B
    ensures var b := Next(B, p);
      var m', B' := GrowMem(m, p, B[b].size, Next(B, b)), Absorb(B, p);
      State(m', B', nb, heads, lists, holes - {b}) && Keeps(m, m', B)
  {
    var b := Next(B, p);
    assert Good(B, p) && Good(B, b);
    var n := Next(B, b);
    AbsorbPhys(B, nb, p);
    assert Good(B, n) && Header(m, B, p) && Header(m, B, n);
    var k := B[p].(size := B[p].size + B[b].size + 8);
    WordFields(k, 0, false);
    WordFields(B[n], 0, false);
    GrowReads(m, p, B[b].size, n, Word(k), Word(B[n].(pfree := false)));
    var m' := GrowMem(m, p, B[b].size, n);
    AbsorbMem(m, m', B, nb, p);
    AbsorbLists(m, m', B, nb, heads, lists, holes, p);
  }

  lemma GrowReads(m: Mem, p: nat, size: nat, n: nat, wp: nat, wn: nat)
    requires n > p + 8 && Rd(m, p + 8) + size + 8 == wp && WithFree(wp, false) == wp
    requires WithPrevFree(Rd(m, n + 8), false) == wn
    ensures var m' := GrowMem(m, p, size, n);
      && Rd(m', p + 8) == wp && Rd(m', n + 8) == wn
      && (forall a :: a != p + 8 && a != n && a != n + 8 ==> Rd(m', a) == Rd(m, a))
  {
    var m1: Mem := m[p + 8 := wp][n := p];
    assert Rd(m1, n + 8) == Rd(m, n + 8) && Rd(m1, p + 8) == wp;
    var m2: Mem := m1[n + 8 := wn];
    assert Rd(m2, p + 8) == wp;
    assert GrowMem(m, p, size, n) == m2[p + 8 := wp];
  }

  // ---- the first writes of tlsf_add_pool -------------------------------------------

  /** The words of a new pool: one free block of `bytes` at `b` and a sentinel. */
  function PoolMem(m: Mem, b: nat, bytes: nat): Mem {
    var e := b + 8 + bytes;
    var m1 := m[b + 8 := WithPrevFree(WithFree(WithSize(Rd(m, b + 8), bytes), true), false)][e := b];
    m1[e + 8 := WithPrevFree(WithFree(WithSize(Rd(m1, e + 8), 0), false), true)]
  }

  lemma PoolFlags(w: nat)
    ensures WithPrevFree(WithFree(WithSize(w, 0), false), true) == 2
  {
    var v := w % 4;
    assert 0 <= v < 4;
    assert v / 2 * 2 == if v < 2 then 0 else 2;
  }

  lemma PoolStep(m: Mem, B: Blocks, nb: nat, heads: seq<nat>, lists: Lists, b: nat, bytes: nat)
    requires State(m, B, nb, heads, lists, {}) && Outside(B, nb, b, bytes) && b % 8 == 0 && bytes % 8 == 0
    requires BLOCK_SIZE_MIN <= bytes < BLOCK_SIZE_MAX
    ensures var m', B' := PoolMem(m, b, bytes), AddPool(B, b, bytes);
      State(m', B', nb, heads, lists, {b}) && Keeps(m, m', B)
    ensures b !in B && b + 8 + bytes !in B
  {
    var e := b + 8 + bytes;
    AddPoolPhys(B, nb, b, bytes);
    var m', B' := PoolMem(m, b, bytes), AddPool(B, b, bytes);
    PoolReads(m, b, bytes);
    AddPoolMem(m, m', B, nb, b, bytes);
    Reindex(B, B', lists, {}, {b});
    forall x | x in B && B[x].free && x !in {} ensures Rd(m', x + 16) == Rd(m, x + 16) && Rd(m', x + 24) == Rd(m, x + 24) {
      assert Good(B, x);
    }
    ChainedFrame(m, m', B, nb, heads, lists, {});
  }

  lemma PoolReads(m: Mem, b: nat, bytes: nat)
    requires bytes % 8 == 0 && bytes >= BLOCK_SIZE_MIN
    ensures var e, m' := b + 8 + bytes, PoolMem(m, b, bytes);
      && Rd(m', b + 8) == bytes + 1 && Rd(m', e + 8) == 2 && Rd(m', e) == b
      && (forall a :: a != b + 8 && a != e && a != e + 8 ==> Rd(m', a) == Rd(m, a))
  {
    var e := b + 8 + bytes;
    RawFlags(Rd(m, b + 8), bytes, false);
    var m1: Mem := m[b + 8 := bytes + 1][e := b];
    PoolFlags(Rd(m1, e + 8));
    assert PoolMem(m, b, bytes) == m1[e + 8 := 2];
  }

  // ---- the caller writing to its own block -----------------------------------------

  /** A word of a payload in use is nobody's header and nobody's link. */
  lemma PayloadWrite(m: Mem, B: Blocks, nb: nat, heads: seq<nat>, lists: Lists, q: nat, a: nat, v: nat)
    requires State(m, B, nb, heads, lists, {}) && q in B && !B[q].free && InPayload(B, q, a)
    ensures State(m[a := v], B, nb, heads, lists, {})
    ensures forall b, x :: b in B && b != q && !B[b].free && InPayload(B, b, x) ==> x != a
  {
    var m' := m[a := v];
    assert Good(B, q);
    forall b | b in B ensures Header(m', B, b) {
      assert Header(m, B, b) && Good(B, b);
      Apart(B, nb, q, b);
      if B[b].pfree { SlotApart(B, nb, Rd(m, b), b, q); }
    }
    forall x | x in B && B[x].free && x !in {} ensures Rd(m', x + 16) == Rd(m, x + 16) && Rd(m', x + 24) == Rd(m, x + 24) {
      assert Good(B, x);
      Apart(B, nb, q, x);
      Apart(B, nb, x, q);
    }
    ChainedFrame(m, m', B, nb, heads, lists, {});
    forall b, x | b in B && b != q && !B[b].free && InPayload(B, b, x) ensures x != a {
      Apart(B, nb, q, b);
      Apart(B, nb, b, q);
    }
  }

  // ---- no two free neighbours ------------------------------------------------------

  lemma CoMarkFree(B: Blocks, nb: nat, b: nat)
    requires Phys(B, nb) && Coalesced(B, {}) && b in B && B[b].size > 0 && Next(B, b) in B
    ensures Coalesced(Mark(B, b, true), {b})
  {
    var B' := Mark(B, b, true);
    forall x | x in B' && x !in {b} && Next(B', x) !in {b} ensures Alone(B', x) { assert Alone(B, x); }
  }

  lemma CoMarkUsed(B: Blocks, nb: nat, b: nat)
    requires Phys(B, nb) && Coalesced(B, {b}) && b in B && B[b].size > 0 && Next(B, b) in B
    ensures Coalesced(Mark(B, b, false), {})
  {
    var B' := Mark(B, b, false);
    forall x | x in B' && x !in {} && Next(B', x) !in {} ensures Alone(B', x) {
      assert x !in {b} && Next(B, x) !in {b} ==> Alone(B, x);
    }
  }

  /** A split leaves its block exempt if that was free, and its remainder exempt if it was used. */
  lemma CoSplit(B: Blocks, nb: nat, b: nat, size: nat)
    requires Phys(B, nb) && Coalesced(B, {}) && b in B && CanSplit(B, b, size) && Next(B, b) in B && Rest(b, size) !in B
    ensures Coalesced(Split(B, b, size), {if B[b].free then b else Rest(b, size)})
  {
    var B', r, n := Split(B, b, size), Rest(b, size), Next(B, b);
    var h := if B[b].free then b else r;
    assert Good(B, b) && Alone(B, b);
    forall x | x in B' && x !in {h} && Next(B', x) !in {h} ensures Alone(B', x) {
      if x != r && x != b {
        assert Good(B, x) && Alone(B, x);
        if Next(B, x) == r { SplitNext(B, nb, b, size, x); }
      }
    }
  }

  lemma SplitNext(B: Blocks, nb: nat, b: nat, size: nat, x: nat)
    requires Phys(B, nb) && b in B && CanSplit(B, b, size) && x in B && Rest(b, size) !in B
    ensures Next(B, x) == Rest(b, size) ==> B[x].size == 0
  {
    assert Good(B, x);
  }

  lemma CoAbsorb(B: Blocks, nb: nat, p: nat, h: nat)
    requires Phys(B, nb) && p in B && B[p].size > 0 && Next(B, p) in B && B[Next(B, p)].size > 0 && Next(B, Next(B, p)) in B
    requires Coalesced(B, {h}) && (h == p || h == Next(B, p))
    ensures Coalesced(Absorb(B, p), {p})
  {
    var b := Next(B, p);
    var B' := Absorb(B, p);
    forall x | x in B' && x !in {p} && Next(B', x) !in {p} ensures Alone(B', x) {
      assert Good(B, x);
      if B[x].size > 0 && Next(B, x) == b { PrevUnique(B, nb, x, p); }
      assert x !in {h} && Next(B, x) !in {h} ==> Alone(B, x);
    }
  }

  /** Growing a block in use over a free one leaves no free neighbours. */
  lemma CoGrow(B: Blocks, nb: nat, p: nat)
    requires Phys(B, nb) && Coalesced(B, {}) && p in B && !B[p].free && B[p].size > 0
    requires Next(B, p) in B && B[Next(B, p)].free && Next(B, Next(B, p)) in B
    ensures Coalesced(Absorb(B, p), {})
  {
    var b := Next(B, p);
    var B' := Absorb(B, p);
    assert Good(B, p) && Good(B, b);
    forall x | x in B' && x !in {} && Next(B', x) !in {} ensures Alone(B', x) {
      assert Good(B, x) && Alone(B, x);
      if B[x].size > 0 && Next(B, x) == b { PrevUnique(B, nb, x, p); }
    }
  }

  lemma CoAddPool(B: Blocks, nb: nat, b: nat, bytes: nat)
    requires Phys(B, nb) && Coalesced(B, {}) && Outside(B, nb, b, bytes)
    ensures Coalesced(AddPool(B, b, bytes), {})
  {
    var B' := AddPool(B, b, bytes);
    forall x | x in B' && x !in {} && Next(B', x) !in {} ensures Alone(B', x) {
      if x in B { assert Good(B, x) && Alone(B, x); }
    }
  }

  /** A block whose neighbours are both in use needs no exemption. */
  lemma CoSettled(B: Blocks, nb: nat, b: nat)
    requires Phys(B, nb) && Coalesced(B, {b}) && b in B && !B[b].pfree
    requires B[b].free ==> Next(B, b) in B && !B[Next(B, b)].free
    ensures Coalesced(B, {})
  {
    forall x | x in B && x !in {} && Next(B, x) !in {} ensures Alone(B, x) {
      assert Good(B, x);
      assert x !in {b} && Next(B, x) !in {b} ==> Alone(B, x);
    }
  }

  /** The free block before a freed one has itself no free block before it. */
  lemma CoPrev(m: Mem, B: Blocks, nb: nat, b: nat, p: nat)
    requires Phys(B, nb) && MemOk(m, B) && Coalesced(B, {b}) && b in B && IsPrev(B, p, b)
    ensures !B[p].pfree
  {
    assert Header(m, B, p) && Good(B, p);
    var q := if B[p].pfree then Rd(m, p) else p;
    assert Good(B, q);
    assert q != p ==> Alone(B, q);
  }

  // ---- what is in use --------------------------------------------------------------

  /** The blocks in use, with their sizes. */
  ghost function Live(B: Blocks): map<nat, nat> {
    map b | b in B && !B[b].free && B[b].size > 0 :: B[b].size
  }

  lemma LiveMark(B: Blocks, b: nat, f: bool)
    requires b in B && B[b].size > 0 && Next(B, b) in B
    ensures Live(Mark(B, b, f)) == if f then Live(B) - {b} else Live(B)[b := B[b].size]
    ensures LiveIn(Mark(B, b, true), B)
    ensures B[b].free ==> LiveIn(B, Mark(B, b, f))
  {
  }

  lemma LiveSplit(B: Blocks, b: nat, size: nat)
    requires b in B && CanSplit(B, b, size) && Next(B, b) in B && Rest(b, size) !in B
    ensures Live(Split(B, b, size)) == if B[b].free then Live(B) else Live(B)[b := size]
    ensures B[b].free ==> LiveIn(B, Split(B, b, size))
  {
  }

  lemma LiveAbsorb(B: Blocks, p: nat)
    requires p in B && Next(B, p) in B && B[Next(B, p)].free && Next(B, Next(B, p)) in B && B[p].size > 0
    ensures Live(Absorb(B, p)) == if B[p].free then Live(B) else Live(B)[p := B[p].size + B[Next(B, p)].size + 8]
    ensures B[p].free ==> LiveIn(B, Absorb(B, p))
  {
  }

  // ---- the pools -------------------------------------------------------------------

  /** The pools that the blocks tile. */
  ghost function Pools(B: Blocks): set<(nat, nat)> { set b | b in B :: (B[b].base, B[b].end) }

  lemma PoolsMark(B: Blocks, b: nat, f: bool)
    requires b in B && Next(B, b) in B
    ensures Pools(Mark(B, b, f)) == Pools(B)
  {
    var B' := Mark(B, b, f);
    assert forall x :: x in B <==> x in B';
    assert forall x :: x in B ==> (B[x].base, B[x].end) == (B'[x].base, B'[x].end);
  }

  lemma PoolsSplit(B: Blocks, b: nat, size: nat)
    requires b in B && CanSplit(B, b, size) && Next(B, b) in B && Rest(b, size) !in B
    ensures Pools(Split(B, b, size)) == Pools(B)
  {
    var B' := Split(B, b, size);
    assert forall x :: x in B ==> x in B' && (B[x].base, B[x].end) == (B'[x].base, B'[x].end);
    assert (B'[Rest(b, size)].base, B'[Rest(b, size)].end) == (B[b].base, B[b].end);
  }

  lemma PoolsAdd(B: Blocks, b: nat, bytes: nat)
    requires b !in B && b + 8 + bytes !in B
    ensures Pools(AddPool(B, b, bytes)) == Pools(B) + {(b, b + 8 + bytes)}
    ensures bytes > 0 ==> Live(AddPool(B, b, bytes)) == Live(B)
  {
    var B' := AddPool(B, b, bytes);
    assert forall x :: x in B ==> x in B' && B'[x] == B[x];
    assert b in B' && (B'[b].base, B'[b].end) == (b, b + 8 + bytes);
  }

  lemma PoolsAbsorb(B: Blocks, nb: nat, p: nat)
    requires Phys(B, nb) && p in B && B[p].size > 0 && Next(B, p) in B && Next(B, Next(B, p)) in B && B[Next(B, p)].size > 0
    ensures Pools(Absorb(B, p)) == Pools(B)
  {
    var b, B' := Next(B, p), Absorb(B, p);
    assert Good(B, p);
    assert forall x :: x in B && x != b ==> x in B' && (B[x].base, B[x].end) == (B'[x].base, B'[x].end);
    assert (B[b].base, B[b].end) == (B[p].base, B[p].end);
  }
}
