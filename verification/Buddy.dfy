/**
  The buddy allocator of `kernel/mm/pmm.c`, on page frame numbers.

  `Pmm` is `g_pmm`: the free list of each order, its counter, the set of pages whose
  `is_free` flag is set and the page counter.  The source keeps no record of the order of a
  block; the invariant states it over a map from the first page of every block, free or
  handed out, to its order.
 */
module Buddy {
  import opened Powers

  const MAX_BUDDY_ORDER: nat := 11

  type Pfn = nat
  type Blocks = map<Pfn, nat>

  datatype Pmm = Pmm(lists: seq<seq<Pfn>>, counts: seq<int>, isFree: set<Pfn>, freePages: int)

  /** pfn ^ (1 << k): flips bit k. */
  function Flip(p: Pfn, k: nat): (b: Pfn)
    ensures k < MAX_BUDDY_ORDER ==> b != p
  {
    if p / Pow2(k) % 2 == 0 then p + Pow2(k) else LowBit(p, k); p - Pow2(k)
  }

  lemma LowBit(p: nat, k: nat)
    requires p / Pow2(k) % 2 != 0
    ensures p >= Pow2(k)
  {
    if p < Pow2(k) { DivBounds(p, Pow2(k), 0, 1); }
  }

  function Min(a: nat, b: nat): nat { if a <= b then a else b }

  /** list_del: takes the page off the list that holds it. */
  function Del(l: seq<Pfn>, p: Pfn): (r: seq<Pfn>)
    ensures forall x :: x in r ==> x in l
    ensures |r| <= |l| && (p !in l ==> r == l)
  {
    if l == [] then [] else if l[0] == p then l[1..] else [l[0]] + Del(l[1..], p)
  }

  function DelAll(lists: seq<seq<Pfn>>, p: Pfn): (r: seq<seq<Pfn>>)
    ensures |r| == |lists|
    ensures forall k :: 0 <= k < |r| ==> r[k] == Del(lists[k], p)
  {
    seq(|lists|, k requires 0 <= k < |lists| => Del(lists[k], p))
  }

  ghost predicate NoDup(l: seq<Pfn>) { forall i, j :: 0 <= i < j < |l| ==> l[i] != l[j] }

  lemma {:induction false} DelOne(l: seq<Pfn>, p: Pfn)
    requires NoDup(l) && p in l
    ensures NoDup(Del(l, p)) && |Del(l, p)| == |l| - 1
    ensures forall x :: x in Del(l, p) <==> x in l && x != p
  {
    var t := l[1..];
    assert l == [l[0]] + t;
    assert forall i :: 0 <= i < |t| ==> t[i] == l[i + 1];
    if l[0] != p {
      DelOne(t, p);
      assert Del(l, p) == [l[0]] + Del(t, p);
      assert l[0] !in Del(t, p);
    }
  }

  // ---- the partition ---------------------------------------------------------------

  predicate Covers(B: Blocks, p: Pfn, x: Pfn) { p in B && p <= x < p + Pow2(B[p]) }

  predicate Aligned(B: Blocks, p: Pfn)
    requires p in B
  {
    B[p] < MAX_BUDDY_ORDER && p % Pow2(B[p]) == 0
  }

  /** The blocks are aligned to their size, disjoint and cover exactly `pages`. */
  ghost predicate Tiles(B: Blocks, pages: set<Pfn>) {
    && (forall p {:trigger Aligned(B, p)} :: p in B ==> Aligned(B, p))
    && (forall p, q, x {:trigger Covers(B, p, x), Covers(B, q, x)} :: Covers(B, p, x) && Covers(B, q, x) ==> p == q)
    && (forall x {:trigger x in pages} :: x in pages <==> exists p :: Covers(B, p, x))
  }

  function ListSum(lists: seq<seq<Pfn>>): nat {
    if lists == [] then 0
    else ListSum(lists[..|lists| - 1]) + |lists[|lists| - 1]| * Pow2(|lists| - 1)
  }

  ghost predicate Listed(s: Pmm, B: Blocks, k: nat, p: Pfn)
    requires k < |s.lists|
  {
    p in s.lists[k] <==> p in s.isFree && p in B && B[p] == k
  }

  ghost predicate CountsOk(s: Pmm) {
    && |s.lists| == |s.counts|
    && forall k :: 0 <= k < |s.lists| ==> s.counts[k] == |s.lists[k]|
  }

  ghost predicate ListsOk(s: Pmm, B: Blocks) {
    && |s.lists| == MAX_BUDDY_ORDER
    && (forall p :: p in s.isFree ==> p in B)
    && (forall k, p {:trigger Listed(s, B, k, p)} :: 0 <= k < MAX_BUDDY_ORDER ==> Listed(s, B, k, p))
    && (forall k :: 0 <= k < MAX_BUDDY_ORDER ==> NoDup(s.lists[k]))
  }

  /** Free and handed-out blocks partition `pages`; lists, flags and counters agree. */
  ghost predicate Inv(s: Pmm, B: Blocks, pages: set<Pfn>) {
    ListsOk(s, B) && CountsOk(s) && s.freePages == ListSum(s.lists) && Tiles(B, pages)
  }

  /** A handed-out block. */
  predicate Held(s: Pmm, B: Blocks, p: Pfn, k: nat) { p in B && B[p] == k && p !in s.isFree }

  // ---- taking a block off its list and putting one on -------------------------------

  function Take(s: Pmm, k: nat, p: Pfn): Pmm
    requires k < |s.counts|
  {
    Pmm(DelAll(s.lists, p), s.counts[k := s.counts[k] - 1], s.isFree - {p}, s.freePages - Pow2(k))
  }

  function Put(s: Pmm, k: nat, p: Pfn, front: bool): Pmm
    requires k < |s.counts| && k < |s.lists|
  {
    Pmm(s.lists[k := if front then [p] + s.lists[k] else s.lists[k] + [p]],
        s.counts[k := s.counts[k] + 1], s.isFree + {p}, s.freePages + Pow2(k))
  }

  lemma {:induction false} ListSumAt(lists: seq<seq<Pfn>>, k: nat, l: seq<Pfn>)
    requires k < |lists|
    ensures ListSum(lists[k := l]) + |lists[k]| * Pow2(k) == ListSum(lists) + |l| * Pow2(k)
  {
    var n := |lists| - 1;
    var r := lists[k := l];
    if k == n {
      assert r[..n] == lists[..n];
    } else {
      ListSumAt(lists[..n], k, l);
      assert r[..n] == lists[..n][k := l];
    }
  }

  /** Changing one list together with the flag of a page of that order. */
  lemma Relist(s: Pmm, B: Blocks, s': Pmm, k: nat, p: Pfn)
    requires ListsOk(s, B) && k < MAX_BUDDY_ORDER && p in B && B[p] == k
    requires |s'.lists| == MAX_BUDDY_ORDER && s'.lists == s.lists[k := s'.lists[k]] && NoDup(s'.lists[k])
    requires s'.isFree == s.isFree + {p} || s'.isFree == s.isFree - {p}
    requires forall x :: x in s'.lists[k] <==> if x == p then p in s'.isFree else x in s.lists[k]
    ensures ListsOk(s', B)
  {
    forall j, q: Pfn | 0 <= j < MAX_BUDDY_ORDER ensures Listed(s', B, j, q) {
      assert Listed(s, B, j, q);
    }
  }

  lemma TakeOk(s: Pmm, B: Blocks, pages: set<Pfn>, k: nat, p: Pfn)
    requires Inv(s, B, pages) && p in s.isFree && k < MAX_BUDDY_ORDER && B[p] == k
    ensures Inv(Take(s, k, p), B, pages) && Held(Take(s, k, p), B, p, k)
    ensures Take(s, k, p).lists == s.lists[k := Del(s.lists[k], p)]
  {
    var s', l := Take(s, k, p), Del(s.lists[k], p);
    assert Listed(s, B, k, p);
    DelOne(s.lists[k], p);
    assert s'.lists == s.lists[k := l] by {
      forall j | 0 <= j < MAX_BUDDY_ORDER && j != k ensures s'.lists[j] == s.lists[j] {
        assert Listed(s, B, j, p);
      }
    }
    SumDown(s.lists, k, l);
    Relist(s, B, s', k, p);
  }

  lemma SumDown(lists: seq<seq<Pfn>>, k: nat, l: seq<Pfn>)
    requires k < |lists| && |l| == |lists[k]| - 1
    ensures ListSum(lists[k := l]) + Pow2(k) == ListSum(lists)
  {
    ListSumAt(lists, k, l);
    MulSucc(|l|, Pow2(k));
  }

  lemma SumUp(lists: seq<seq<Pfn>>, k: nat, l: seq<Pfn>)
    requires k < |lists| && |l| == |lists[k]| + 1
    ensures ListSum(lists[k := l]) == ListSum(lists) + Pow2(k)
  {
    ListSumAt(lists, k, l);
    MulSucc(|lists[k]|, Pow2(k));
  }

  lemma PutOk(s: Pmm, B: Blocks, pages: set<Pfn>, k: nat, p: Pfn, front: bool)
    requires Inv(s, B, pages) && k < MAX_BUDDY_ORDER && Held(s, B, p, k)
    ensures Inv(Put(s, k, p, front), B, pages)
  {
    var s' := Put(s, k, p, front);
    SumUp(s.lists, k, s'.lists[k]);
    assert Listed(s, B, k, p);
    assert NoDup(s'.lists[k]);
    Relist(s, B, s', k, p);
  }

  // ---- splitting and joining handed-out blocks --------------------------------------

  function Split(B: Blocks, p: Pfn, k: nat): Blocks { B[p := k][p + Pow2(k) := k] }

  /** Halving a block of order k + 1 keeps the partition. */
  lemma SplitTiles(B: Blocks, pages: set<Pfn>, p: Pfn, k: nat)
    requires Tiles(B, pages) && p in B && B[p] == k + 1
    ensures p + Pow2(k) !in B && p / Pow2(k) % 2 == 0
    ensures Tiles(Split(B, p, k), pages)
  {
    var B', h := Split(B, p, k), p + Pow2(k);
    assert Aligned(B, p);
    Halves(p, k);
    assert Covers(B, p, h);
    assert h in B ==> Covers(B, h, h);
    forall q | q in B' ensures Aligned(B', q) { assert q in B ==> Aligned(B, q); }
    forall q: Pfn, x: Pfn ensures Covers(B', q, x) ==> Covers(B, if q == h then p else q, x) {}
    forall q: Pfn, r: Pfn, x: Pfn | Covers(B', q, x) && Covers(B', r, x) ensures q == r {
      var q0, r0 := if q == h then p else q, if r == h then p else r;
      assert Covers(B, q0, x) && Covers(B, r0, x);
    }
    forall x: Pfn ensures x in pages <==> exists q :: Covers(B', q, x) {
      if q: Pfn :| Covers(B, q, x) {
        assert Covers(B', if q == p && x >= h then h else q, x);
      }
      if q: Pfn :| Covers(B', q, x) {
        assert Covers(B, if q == h then p else q, x);
      }
    }
  }

  lemma Halves(p: nat, k: nat)
    requires p % Pow2(k + 1) == 0
    ensures p % Pow2(k) == 0 && (p + Pow2(k)) % Pow2(k) == 0 && p / Pow2(k) % 2 == 0
  {
    var g := Pow2(k);
    assert Pow2(k + 1) == 2 * g;
    var q := Multiple(p, 2 * g);
    MulDouble(q, g);
    DivMod(p, g, 2 * q, 0);
    MulSucc(2 * q, g);
    DivMod(p + g, g, 2 * q + 1, 0);
  }

  function Join(B: Blocks, p: Pfn, b: Pfn, k: nat): Blocks { (B - {p, b})[Min(p, b) := k + 1] }

  /** Two buddies of order k make one block of order k + 1. */
  lemma JoinTiles(B: Blocks, pages: set<Pfn>, p: Pfn, k: nat)
    requires Tiles(B, pages) && p in B && B[p] == k && k + 1 < MAX_BUDDY_ORDER
    requires Flip(p, k) in B && B[Flip(p, k)] == k
    ensures Tiles(Join(B, p, Flip(p, k), k), pages)
  {
    var b := Flip(p, k);
    var m, B' := Min(p, b), Join(B, p, b, k);
    assert Aligned(B, p);
    JoinAligned(p, k);
    var h := m + Pow2(k);
    assert {p, b} == {m, h};
    forall q | q in B' ensures Aligned(B', q) { assert q != m ==> Aligned(B, q); }
    forall q: Pfn, x: Pfn | Covers(B', q, x) ensures Covers(B, if q == m && x >= h then h else q, x) {}
    forall q: Pfn, r: Pfn, x: Pfn | Covers(B', q, x) && Covers(B', r, x) ensures q == r {
      assert Covers(B, if q == m && x >= h then h else q, x) && Covers(B, if r == m && x >= h then h else r, x);
    }
    forall x: Pfn ensures x in pages <==> exists q :: Covers(B', q, x) {
      if q: Pfn :| Covers(B, q, x) {
        assert Covers(B', if q == h then m else q, x);
      }
      if q: Pfn :| Covers(B', q, x) {
        assert Covers(B, if q == m && x >= h then h else q, x);
      }
    }
  }

  lemma JoinAligned(p: nat, k: nat)
    requires p % Pow2(k) == 0
    ensures var m := Min(p, Flip(p, k));
      m % Pow2(k + 1) == 0 && (p == m || p == m + Pow2(k)) && (Flip(p, k) == m || Flip(p, k) == m + Pow2(k))
  {
    var g, m := Pow2(k), Min(p, Flip(p, k));
    assert Pow2(k + 1) == 2 * g;
    var q := Multiple(p, g);
    var h := q / 2;
    MulDouble(h, g);
    MulSucc(2 * h, g);
    assert q == 2 * h + q % 2;
    assert m == h * (2 * g);
    DivMod(m, 2 * g, h, 0);
  }

  // ---- pmm_free_pages as a function of the state -------------------------------------

  datatype Merged = Merged(s: Pmm, p: Pfn, k: nat)

  predicate Sized(s: Pmm) { |s.lists| == |s.counts| == MAX_BUDDY_ORDER }

  /** The merge loop.  `freePages` counts what is on the lists, so each block taken off
      lowers it here; the source adds the difference in one step at the end. */
  function Merge(s: Pmm, p: Pfn, k: nat): (r: Merged)
    requires Sized(s) && k < MAX_BUDDY_ORDER
    ensures Sized(r.s) && k <= r.k < MAX_BUDDY_ORDER
    ensures r.s.freePages == s.freePages - Pow2(r.k) + Pow2(k)
    decreases MAX_BUDDY_ORDER - k
  {
    var b := Flip(p, k);
    if k < MAX_BUDDY_ORDER - 1 && b in s.isFree then Merge(Take(s, k, b), Min(p, b), k + 1) else Merged(s, p, k)
  }

  function Freed(s: Pmm, p: Pfn, order: nat): (r: Pmm)
    requires Sized(s) && order < MAX_BUDDY_ORDER
    ensures r.freePages == s.freePages + Pow2(order)
  {
    var m := Merge(s, p, order);
    Put(m.s, m.k, m.p, false)
  }

  /** Every free buddy the loop merges heads a block of the order being merged. */
  ghost predicate MergesOk(s: Pmm, B: Blocks, p: Pfn, k: nat)
    requires Sized(s) && k < MAX_BUDDY_ORDER
    decreases MAX_BUDDY_ORDER - k
  {
    var b := Flip(p, k);
    k < MAX_BUDDY_ORDER - 1 && b in s.isFree ==>
      b in B && B[b] == k && MergesOk(Take(s, k, b), Join(B, p, b, k), Min(p, b), k + 1)
  }

  /** The blocks after the merges. */
  ghost function Joined(s: Pmm, B: Blocks, p: Pfn, k: nat): Blocks
    requires Sized(s) && k < MAX_BUDDY_ORDER
    decreases MAX_BUDDY_ORDER - k
  {
    var b := Flip(p, k);
    if k < MAX_BUDDY_ORDER - 1 && b in s.isFree then Joined(Take(s, k, b), Join(B, p, b, k), Min(p, b), k + 1) else B
  }

  /** The handed-out blocks of (s', B') are those of (s, B) without `p`. */
  ghost predicate Releases(s: Pmm, B: Blocks, p: Pfn, s': Pmm, B': Blocks) {
    forall q, k {:trigger Held(s', B', q, k)} :: Held(s', B', q, k) <==> Held(s, B, q, k) && q != p
  }

  lemma {:induction false} FreeKeeps(s: Pmm, B: Blocks, pages: set<Pfn>, p: Pfn, k: nat)
    requires Inv(s, B, pages) && k < MAX_BUDDY_ORDER && Held(s, B, p, k) && MergesOk(s, B, p, k)
    ensures Inv(Freed(s, p, k), Joined(s, B, p, k), pages)
    ensures Releases(s, B, p, Freed(s, p, k), Joined(s, B, p, k))
    decreases MAX_BUDDY_ORDER - k
  {
    var b := Flip(p, k);
    if k < MAX_BUDDY_ORDER - 1 && b in s.isFree {
      var m := Min(p, b);
      var s1, B1 := Take(s, k, b), Join(B, p, b, k);
      TakeOk(s, B, pages, k, b);
      JoinTiles(B, pages, p, k);
      JoinLists(s1, B, p, b, k);
      FreeKeeps(s1, B1, pages, m, k + 1);
      var s2, B2 := Freed(s1, m, k + 1), Joined(s1, B1, m, k + 1);
      forall q: Pfn, j: nat ensures Held(s2, B2, q, j) <==> Held(s, B, q, j) && q != p {
        assert Held(s2, B2, q, j) <==> Held(s1, B1, q, j) && q != m;
      }
    } else {
      PutOk(s, B, pages, k, p, false);
    }
  }

  lemma JoinLists(s: Pmm, B: Blocks, p: Pfn, b: Pfn, k: nat)
    requires ListsOk(s, B) && Held(s, B, p, k) && Held(s, B, b, k)
    ensures ListsOk(s, Join(B, p, b, k))
  {
    var B' := Join(B, p, b, k);
    forall j, q: Pfn | 0 <= j < MAX_BUDDY_ORDER ensures Listed(s, B', j, q) {
      assert Listed(s, B, j, q);
    }
  }

  // ---- when the condition fails ------------------------------------------------------

  /** A free buddy of another order is smaller than the block being merged. */
  lemma SmallerBuddy(B: Blocks, pages: set<Pfn>, p: Pfn, k: nat)
    requires Tiles(B, pages) && p in B && B[p] == k
    requires Flip(p, k) in B && B[Flip(p, k)] != k
    ensures B[Flip(p, k)] < k
  {
    var b := Flip(p, k);
    assert Aligned(B, p) && Aligned(B, b);
    JoinAligned(p, k);
    var j, m := B[b], Min(p, b);
    if j > k {
      Pow2Mono(k + 1, j);
      if b == m {
        assert Covers(B, b, p) && Covers(B, p, p);
        assert false;
      } else {
        CoarserAligned(b, k + 1, j);
        NotBoth(m, k);
        assert false;
      }
    }
  }

  lemma {:induction false} CoarserAligned(x: nat, a: nat, b: nat)
    requires a <= b && x % Pow2(b) == 0
    ensures x % Pow2(a) == 0
  {
    if a < b {
      Halves(x, b - 1);
      CoarserAligned(x, a, b - 1);
    }
  }

  lemma NotBoth(m: nat, k: nat)
    requires m % Pow2(k + 1) == 0
    ensures (m + Pow2(k)) % Pow2(k + 1) != 0
  {
    var g := Pow2(k);
    assert Pow2(k + 1) == 2 * g;
    var q := Multiple(m, 2 * g);
    DivMod(m + g, 2 * g, q, g);
  }

  /** A counter above the length of its list. */
  predicate Over(s: Pmm, j: nat)
    requires Sized(s) && j < MAX_BUDDY_ORDER
  {
    s.counts[j] > |s.lists[j]|
  }

  lemma {:induction false} StaysOver(s: Pmm, p: Pfn, k: nat, j: nat)
    requires Sized(s) && j < k < MAX_BUDDY_ORDER && Over(s, j)
    ensures Over(Freed(s, p, k), j)
    decreases MAX_BUDDY_ORDER - k
  {
    var b := Flip(p, k);
    if k < MAX_BUDDY_ORDER - 1 && b in s.isFree {
      StaysOver(Take(s, k, b), Min(p, b), k + 1, j);
    }
  }

  lemma {:induction false} FreeBreaks(s: Pmm, B: Blocks, pages: set<Pfn>, p: Pfn, k: nat)
    requires Inv(s, B, pages) && k < MAX_BUDDY_ORDER && Held(s, B, p, k) && !MergesOk(s, B, p, k)
    ensures !CountsOk(Freed(s, p, k))
    decreases MAX_BUDDY_ORDER - k
  {
    var b := Flip(p, k);
    var s1 := Take(s, k, b);
    if B[b] == k {
      TakeOk(s, B, pages, k, b);
      JoinTiles(B, pages, p, k);
      JoinLists(s1, B, p, b, k);
      FreeBreaks(s1, Join(B, p, b, k), pages, Min(p, b), k + 1);
    } else {
      var j := B[b];
      SmallerBuddy(B, pages, p, k);
      assert Listed(s, B, j, b);
      DelOne(s.lists[j], b);
      StaysOver(s1, Min(p, b), k + 1, j);
    }
  }

  /** Freeing a handed-out block keeps the partition, for some assignment of orders, exactly
      when each free buddy it merges heads a block of the order being merged. */
  lemma FreeExact(s: Pmm, B: Blocks, pages: set<Pfn>, p: Pfn, k: nat)
    requires Inv(s, B, pages) && k < MAX_BUDDY_ORDER && Held(s, B, p, k)
    ensures (exists B' :: Inv(Freed(s, p, k), B', pages)) <==> MergesOk(s, B, p, k)
  {
    if MergesOk(s, B, p, k) {
      FreeKeeps(s, B, pages, p, k);
    } else {
      FreeBreaks(s, B, pages, p, k);
    }
  }

  // ---- free buddies are merged -------------------------------------------------------

  /** The block at `p` has no free buddy of its own order. */
  predicate NoBuddy(s: Pmm, B: Blocks, p: Pfn)
    requires p in B
  {
    var b := Flip(p, B[p]);
    B[p] < MAX_BUDDY_ORDER - 1 ==> !(b in s.isFree && b in B && B[b] == B[p])
  }

  /** No two free blocks are buddies of one order. */
  ghost predicate Coalesced(s: Pmm, B: Blocks) {
    forall p {:trigger NoBuddy(s, B, p)} :: p in s.isFree && p in B ==> NoBuddy(s, B, p)
  }

  lemma FlipBack(p: Pfn, k: nat)
    requires p % Pow2(k) == 0
    ensures Flip(p, k) != p && Flip(Flip(p, k), k) == p
  {
    if p / Pow2(k) % 2 == 0 {
      NextQuotient(p, Pow2(k));
    } else {
      LowBit(p, k);
      PrevQuotient(p, Pow2(k));
    }
  }

  lemma PrevQuotient(p: nat, g: nat)
    requires g > 0 && p % g == 0 && p >= g
    ensures (p - g) / g == p / g - 1
  {
    var q := Multiple(p, g);
    if q == 0 { assert false; }
    MulSucc(q - 1, g);
    DivMod(p - g, g, q - 1, 0);
  }

  lemma NextQuotient(p: nat, g: nat)
    requires g > 0 && p % g == 0
    ensures (p + g) / g == p / g + 1
  {
    var q := Multiple(p, g);
    MulSucc(q, g);
    DivMod(p + g, g, q + 1, 0);
  }

  lemma {:induction false} FreeCoalesces(s: Pmm, B: Blocks, pages: set<Pfn>, p: Pfn, k: nat)
    requires Inv(s, B, pages) && k < MAX_BUDDY_ORDER && Held(s, B, p, k) && MergesOk(s, B, p, k) && Coalesced(s, B)
    ensures Coalesced(Freed(s, p, k), Joined(s, B, p, k))
    decreases MAX_BUDDY_ORDER - k
  {
    var b := Flip(p, k);
    if k < MAX_BUDDY_ORDER - 1 && b in s.isFree {
      var s1, B1 := Take(s, k, b), Join(B, p, b, k);
      TakeOk(s, B, pages, k, b);
      JoinTiles(B, pages, p, k);
      JoinLists(s1, B, p, b, k);
      forall q | q in s1.isFree && q in B1 ensures NoBuddy(s1, B1, q) { assert NoBuddy(s, B, q); }
      FreeCoalesces(s1, B1, pages, Min(p, b), k + 1);
    } else {
      PutCoalesced(s, B, pages, p, k, false);
    }
  }

  /** A block whose buddy is not free may be put on its list. */
  lemma PutCoalesced(s: Pmm, B: Blocks, pages: set<Pfn>, p: Pfn, k: nat, front: bool)
    requires Inv(s, B, pages) && Coalesced(s, B) && k < MAX_BUDDY_ORDER && Held(s, B, p, k)
    requires k == MAX_BUDDY_ORDER - 1 || Flip(p, k) !in s.isFree
    ensures Coalesced(Put(s, k, p, front), B)
  {
    var s' := Put(s, k, p, front);
    forall q | q in s'.isFree && q in B ensures NoBuddy(s', B, q) {
      assert Aligned(B, q);
      FlipBack(q, B[q]);
      if q != p { assert NoBuddy(s, B, q); }
    }
  }

  /** The block that holds the freed pages in the end. */
  lemma FreedBlock(s: Pmm, B: Blocks, pages: set<Pfn>, p: Pfn, k: nat)
    requires Inv(s, B, pages) && k < MAX_BUDDY_ORDER && Held(s, B, p, k) && MergesOk(s, B, p, k)
    ensures var m, s', B' := Merge(s, p, k), Freed(s, p, k), Joined(s, B, p, k);
      && m.p in s'.isFree && m.p in B' && B'[m.p] == m.k && m.p <= p && p + Pow2(k) <= m.p + Pow2(m.k)
      && (m.k == MAX_BUDDY_ORDER - 1 || Flip(m.p, m.k) !in s'.isFree)
  {
    assert Aligned(B, p);
    MergeSpan(s, p, k);
    MergeStops(s, p, k);
    FreeKeeps(s, B, pages, p, k);
    var m, s' := Merge(s, p, k), Freed(s, p, k);
    var l := m.s.lists[m.k] + [m.p];
    assert s'.lists[m.k] == l && l[|l| - 1] == m.p;
    assert Listed(s', Joined(s, B, p, k), m.k, m.p);
    assert m.k < MAX_BUDDY_ORDER - 1 ==> Flip(m.p, m.k) != m.p;
  }

  /** Merging goes on as long as there is a free buddy. */
  lemma {:induction false} MergeStops(s: Pmm, p: Pfn, k: nat)
    requires Sized(s) && k < MAX_BUDDY_ORDER
    ensures var m := Merge(s, p, k); m.k == MAX_BUDDY_ORDER - 1 || Flip(m.p, m.k) !in m.s.isFree
    decreases MAX_BUDDY_ORDER - k
  {
    var b := Flip(p, k);
    if k < MAX_BUDDY_ORDER - 1 && b in s.isFree { MergeStops(Take(s, k, b), Min(p, b), k + 1); }
  }

  // ---- buddies beyond mem_map --------------------------------------------------------

  /** What the merge loop sees when mem_map has `total` entries and the memory after it reads
      as a set flag for the page numbers `junk`. */
  function Reads(s: Pmm, junk: set<Pfn>): Pmm { s.(isFree := s.isFree + junk) }

  ghost predicate Beyond(junk: set<Pfn>, total: nat) { forall x :: x in junk ==> x >= total }

  function Below(s: Pmm, total: nat): Pmm { s.(isFree := set x | x in s.isFree && x < total) }

  /** Every buddy the loop looks at has an entry in mem_map. */
  predicate InMap(s: Pmm, p: Pfn, k: nat, total: nat)
    requires Sized(s) && k < MAX_BUDDY_ORDER
    decreases MAX_BUDDY_ORDER - k
  {
    var b := Flip(p, k);
    k < MAX_BUDDY_ORDER - 1 ==> b < total && (b in s.isFree ==> InMap(Take(s, k, b), Min(p, b), k + 1, total))
  }

  /** The memory after mem_map plays no part in such a call. */
  lemma {:induction false} JunkUnread(s: Pmm, junk: set<Pfn>, p: Pfn, k: nat, total: nat)
    requires Sized(s) && k < MAX_BUDDY_ORDER && Beyond(junk, total) && InMap(s, p, k, total)
    ensures var m := Merge(s, p, k); Merge(Reads(s, junk), p, k) == Merged(Reads(m.s, junk), m.p, m.k)
    decreases MAX_BUDDY_ORDER - k
  {
    var b := Flip(p, k);
    if k < MAX_BUDDY_ORDER - 1 && b in s.isFree {
      JunkUnread(Take(s, k, b), junk, Min(p, b), k + 1, total);
      assert Take(Reads(s, junk), k, b) == Reads(Take(s, k, b), junk);
    }
  }

  /** Merging takes flags away and moves down. */
  lemma {:induction false} MergeShrinks(s: Pmm, p: Pfn, k: nat)
    requires Sized(s) && k < MAX_BUDDY_ORDER
    ensures var m := Merge(s, p, k); m.p <= p && m.s.isFree <= s.isFree
    decreases MAX_BUDDY_ORDER - k
  {
    var b := Flip(p, k);
    if k < MAX_BUDDY_ORDER - 1 && b in s.isFree { MergeShrinks(Take(s, k, b), Min(p, b), k + 1); }
  }

  lemma FreedBelow(s: Pmm, junk: set<Pfn>, p: Pfn, k: nat, total: nat)
    requires Sized(s) && k < MAX_BUDDY_ORDER && Beyond(junk, total) && InMap(s, p, k, total) && p < total
    requires forall x :: x in s.isFree ==> x < total
    ensures Below(Freed(Reads(s, junk), p, k), total) == Freed(s, p, k)
  {
    JunkUnread(s, junk, p, k, total);
    MergeShrinks(s, p, k);
  }

  /** The merged block holds the block the loop began with. */
  lemma {:induction false} MergeSpan(s: Pmm, p: Pfn, k: nat)
    requires Sized(s) && k < MAX_BUDDY_ORDER && p % Pow2(k) == 0
    ensures var m := Merge(s, p, k); m.p <= p && p + Pow2(k) <= m.p + Pow2(m.k)
    decreases MAX_BUDDY_ORDER - k
  {
    var b := Flip(p, k);
    if k < MAX_BUDDY_ORDER - 1 && b in s.isFree {
      JoinAligned(p, k);
      MergeSpan(Take(s, k, b), Min(p, b), k + 1);
    }
  }

  /** A loop that looks beyond mem_map merges a page that is not there, if the memory it
      finds says so. */
  lemma {:induction false} OutsideMerge(s: Pmm, p: Pfn, k: nat, total: nat) returns (junk: set<Pfn>)
    requires Sized(s) && k < MAX_BUDDY_ORDER && p % Pow2(k) == 0 && !InMap(s, p, k, total)
    ensures Beyond(junk, total)
    ensures var m := Merge(Reads(s, junk), p, k); m.p <= p && m.p + Pow2(m.k) > total
    decreases MAX_BUDDY_ORDER - k
  {
    var b := Flip(p, k);
    JoinAligned(p, k);
    if b >= total {
      junk := {b};
      MergeSpan(Take(Reads(s, junk), k, b), Min(p, b), k + 1);
    } else {
      junk := OutsideMerge(Take(s, k, b), Min(p, b), k + 1, total);
      assert Take(Reads(s, junk), k, b) == Reads(Take(s, k, b), junk);
    }
  }

  /** After the call the flags in mem_map, the lists and the counters describe a partition of
      the same pages. */
  ghost predicate FreesWell(s: Pmm, p: Pfn, k: nat, pages: set<Pfn>, junk: set<Pfn>, total: nat)
    requires Sized(s) && k < MAX_BUDDY_ORDER
  {
    exists B' :: Inv(Below(Freed(Reads(s, junk), p, k), total), B', pages)
  }

  /** Freeing a handed-out block keeps the partition, whatever the memory after mem_map
      holds, exactly when the free buddies merged head blocks of the order being merged and
      no buddy lies beyond mem_map. */
  lemma FreeExactInMap(s: Pmm, B: Blocks, pages: set<Pfn>, p: Pfn, k: nat, total: nat)
    requires Inv(s, B, pages) && k < MAX_BUDDY_ORDER && Held(s, B, p, k) && forall x :: x in pages ==> x < total
    ensures (forall junk :: Beyond(junk, total) ==> FreesWell(s, p, k, pages, junk, total))
       <==> MergesOk(s, B, p, k) && InMap(s, p, k, total)
  {
    assert Aligned(B, p);
    BlocksMapped(s, B, pages, total);
    if !InMap(s, p, k, total) {
      var junk := OutsideMerge(s, p, k, total);
      Overhang(s, p, k, pages, junk, total);
    } else if !MergesOk(s, B, p, k) {
      FreedBelow(s, {}, p, k, total);
      FreeBreaks(s, B, pages, p, k);
      assert Beyond({}, total) && !FreesWell(s, p, k, pages, {}, total);
    } else {
      FreeKeeps(s, B, pages, p, k);
      forall junk | Beyond(junk, total) ensures FreesWell(s, p, k, pages, junk, total) {
        FreedBelow(s, junk, p, k, total);
      }
    }
  }

  lemma BlocksMapped(s: Pmm, B: Blocks, pages: set<Pfn>, total: nat)
    requires Inv(s, B, pages) && forall x :: x in pages ==> x < total
    ensures forall p :: p in B ==> p < total
    ensures forall p :: p in s.isFree ==> p < total
  {
    forall p | p in B ensures p < total {
      assert Covers(B, p, p);
      assert p in pages;
    }
  }

  /** A free block that reaches beyond mem_map is in no partition of pages inside it. */
  lemma Overhang(s: Pmm, p: Pfn, k: nat, pages: set<Pfn>, junk: set<Pfn>, total: nat)
    requires Sized(s) && k < MAX_BUDDY_ORDER && p < total && forall x :: x in pages ==> x < total
    requires var m := Merge(Reads(s, junk), p, k); m.p <= p && m.p + Pow2(m.k) > total
    ensures !FreesWell(s, p, k, pages, junk, total)
  {
    var m, s' := Merge(Reads(s, junk), p, k), Below(Freed(Reads(s, junk), p, k), total);
    var l := m.s.lists[m.k] + [m.p];
    assert s'.lists[m.k] == l && l[|l| - 1] == m.p;
    forall B' ensures !Inv(s', B', pages) {
      if Inv(s', B', pages) {
        assert Listed(s', B', m.k, m.p);
        Reaches(B', pages, m.p, total);
      }
    }
  }

  lemma Reaches(B: Blocks, pages: set<Pfn>, p: Pfn, x: Pfn)
    requires Tiles(B, pages) && Covers(B, p, x)
    ensures x in pages
  {
  }
}
