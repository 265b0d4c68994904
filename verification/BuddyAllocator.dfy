/** `pmm_alloc_pages` and `pmm_free_pages` of `kernel/mm/pmm.c` on the state of module Buddy. */
module BuddyAllocator {
  import opened Powers
  import opened Buddy
  import opened Options

  class Allocator {
    var lists: seq<seq<Pfn>>
    var counts: seq<int>
    var isFree: set<Pfn>
    var freePages: int
    const entries: nat // of mem_map
    ghost var blocks: Blocks
    ghost var pages: set<Pfn>

    function State(): Pmm
      reads this
    {
      Pmm(lists, counts, isFree, freePages)
    }

    ghost predicate Valid()
      reads this
    {
      Inv(State(), blocks, pages) && forall x :: x in pages ==> x < entries
    }

    /** The allocator that `pmm_init` starts from: it owns no page. */
    constructor (total: nat)
      ensures Valid() && pages == {} && freePages == 0 && isFree == {} && blocks == map[] && entries == total && Coalesced(State(), blocks)
    {
      entries := total;
      lists, counts := seq(MAX_BUDDY_ORDER, _ => []), seq(MAX_BUDDY_ORDER, _ => 0);
      isFree, freePages := {}, 0;
      blocks, pages := map[], {};
      new;
      EmptySum(lists);
    }

    /** Hands out the first block of the smallest list that serves, its upper halves put
        back; NULL exactly when no list serves.  `k` is the order of that list. */
    method AllocPages(order: int) returns (r: Option<Pfn>, ghost k: nat)
      requires Valid()
      modifies this
      ensures Valid() && pages == old(pages)
      ensures r.None? <==> (order < 0 || forall j :: order <= j < MAX_BUDDY_ORDER ==> old(lists)[j] == [])
      ensures r.None? ==> State() == old(State()) && blocks == old(blocks)
      ensures r.Some? ==>
        && 0 <= order <= k < MAX_BUDDY_ORDER && old(lists)[k] != [] && r.value == old(lists)[k][0]
        && (forall j :: order <= j < k ==> old(lists)[j] == [])
        && freePages == old(freePages) - Pow2(order)
        && Granted(old(State()), old(blocks), State(), blocks, r.value, order)
      ensures old(Coalesced(State(), blocks)) ==> Coalesced(State(), blocks)
    {
      k := 0;
      if order < 0 || order >= MAX_BUDDY_ORDER { return None, k; }
      var curr := order;
      while curr < MAX_BUDDY_ORDER && lists[curr] == []
        invariant order <= curr <= MAX_BUDDY_ORDER
        invariant forall j :: order <= j < curr ==> lists[j] == []
      {
        curr := curr + 1;
      }
      if curr == MAX_BUDDY_ORDER { return None, k; }
      k := curr;
      var p := Split(order, curr);
      return Some(p), k;
    }

    /** Takes the first block of list `from` and halves it down to `order`. */
    method Split(order: nat, from: nat) returns (p: Pfn)
      requires Valid() && order <= from < MAX_BUDDY_ORDER && lists[from] != []
      modifies this
      ensures Valid() && pages == old(pages)
      ensures p == old(lists)[from][0] && freePages == old(freePages) - Pow2(order)
      ensures Granted(old(State()), old(blocks), State(), blocks, p, order)
      ensures old(Coalesced(State(), blocks)) ==> Coalesced(State(), blocks)
    {
      p := lists[from][0];
      ghost var s0, B0 := State(), blocks;
      TakeFirst(s0, B0, pages, from);
      lists := lists[from := lists[from][1..]];
      counts := counts[from := counts[from] - 1];
      var curr := from;
      while curr > order
        invariant order <= curr <= from && p in isFree && pages == old(pages) && freePages == old(freePages)
        invariant Inv(Without(State(), p, curr), blocks, pages)
        invariant Granted(s0, B0, Without(State(), p, curr), blocks, p, curr)
        invariant Coalesced(s0, B0) ==> Coalesced(Without(State(), p, curr), blocks)
      {
        curr := curr - 1;
        Halve(s0, B0, p, curr);
      }
      isFree := isFree - {p};
      freePages := freePages - Pow2(order);
      assert State() == Without(s0.(lists := lists, counts := counts, isFree := isFree + {p}), p, order);
    }

    /** One round of the splitting loop: the upper half goes on list `k`. */
    method Halve(ghost s0: Pmm, ghost B0: Blocks, p: Pfn, k: nat)
      requires k + 1 < MAX_BUDDY_ORDER && p in isFree && Inv(Without(State(), p, k + 1), blocks, pages)
      requires Granted(s0, B0, Without(State(), p, k + 1), blocks, p, k + 1)
      modifies this`isFree, this`lists, this`counts, this`blocks
      ensures p in isFree && Inv(Without(State(), p, k), blocks, pages)
      ensures Granted(s0, B0, Without(State(), p, k), blocks, p, k)
      ensures old(Coalesced(Without(State(), p, k + 1), blocks)) ==> Coalesced(Without(State(), p, k), blocks)
    {
      ghost var s := Without(State(), p, k + 1);
      var buddy := Flip(p, k);
      HalveStep(s0, B0, s, blocks, pages, p, k);
      isFree := isFree + {buddy};
      lists := lists[k := [buddy] + lists[k]];
      counts := counts[k := counts[k] + 1];
      blocks := Halved(blocks, p, k);
      assert Pow2(k + 1) == Pow2(k) + Pow2(k);
      assert Without(State(), p, k) == Put(s, k, buddy, true);
    }

    /** Frees a block; `junk` are the page numbers beyond mem_map for which the memory there
        reads as a set flag.  When no buddy lies beyond mem_map, a block that is handed out
        leaves the partition whole exactly when every free buddy merged heads a block of the
        order being merged. */
    method FreePages(p: Pfn, order: int, junk: set<Pfn>) returns (ghost rest: set<Pfn>)
      requires Sized(State()) && Beyond(junk, entries)
      modifies this
      ensures pages == old(pages) && rest <= junk
      ensures if p == 0 || order < 0 || order >= MAX_BUDDY_ORDER then State() == old(State())
              else Reads(State(), rest) == Freed(Reads(old(State()), junk), p, order)
      ensures p != 0 && 0 <= order < MAX_BUDDY_ORDER && old(Valid() && Held(State(), blocks, p, order) && InMap(State(), p, order, entries)) ==>
        && State() == Freed(old(State()), p, order)
        && (Valid() <==> old(MergesOk(State(), blocks, p, order)))
        && (Valid() ==> Releases(old(State()), old(blocks), p, State(), blocks) && Settled(State(), blocks, p, order))
        && (Valid() && old(Coalesced(State(), blocks)) ==> Coalesced(State(), blocks))
    {
      rest := junk;
      if p == 0 || order < 0 || order >= MAX_BUDDY_ORDER { return; }
      ghost var s0, B0 := State(), blocks;
      var q, curr;
      q, curr, rest := MergeUp(p, order, junk);
      isFree := isFree + {q};
      lists := lists[curr := lists[curr] + [q]];
      counts := counts[curr := counts[curr] + 1];
      freePages := freePages + Pow2(order);
      assert Reads(State(), rest) == Freed(Reads(s0, junk), p, order);
      if old(Valid()) && Held(s0, B0, p, order) && InMap(s0, p, order, entries) {
        FreedInMap(s0, B0, pages, p, order, entries, junk, State(), rest);
        blocks := FreeOutcome(s0, B0, pages, p, order);
      }
    }

    /** The merge loop of `pmm_free_pages`. */
    method MergeUp(p: Pfn, order: nat, junk: set<Pfn>) returns (q: Pfn, curr: nat, rest: set<Pfn>)
      requires Sized(State()) && order < MAX_BUDDY_ORDER
      modifies this`lists, this`counts, this`isFree
      ensures rest <= junk && isFree <= old(isFree) && q <= p
      ensures Merge(Reads(old(State()), junk), p, order)
           == Merged(Reads(State(), rest).(freePages := freePages - Pow2(curr) + Pow2(order)), q, curr)
    {
      q, curr, rest := p, order, junk;
      ghost var u := State();
      while curr < MAX_BUDDY_ORDER - 1 && (Flip(q, curr) in isFree || Flip(q, curr) in rest)
        invariant order <= curr < MAX_BUDDY_ORDER && rest <= junk && isFree <= old(isFree) && q <= p
        invariant u == State().(freePages := freePages - Pow2(curr) + Pow2(order))
        invariant SameMerge(Reads(old(State()), junk), p, order, u, rest, q, curr)
        decreases MAX_BUDDY_ORDER - curr
      {
        var buddy := Flip(q, curr);
        SameMergeNext(Reads(old(State()), junk), p, order, u, rest, q, curr);
        u := Take(u, curr, buddy);
        TakeOff(curr, buddy);
        rest := rest - {buddy};
        q := Min(q, buddy);
        curr := curr + 1;
      }
      SameMergeEnd(Reads(old(State()), junk), p, order, u, rest, q, curr);
    }

    /** list_del, the flag and the counter of one merged buddy. */
    method TakeOff(k: nat, buddy: Pfn)
      requires k < |counts|
      modifies this`lists, this`counts, this`isFree
      ensures State() == Take(old(State()), k, buddy).(freePages := freePages) && isFree <= old(isFree)
    {
      lists := DelAll(lists, buddy);
      isFree := isFree - {buddy};
      counts := counts[k := counts[k] - 1];
    }
  }

  /** The merge of `s` from `p` goes on as that of `u` from `q`. */
  ghost predicate SameMerge(s: Pmm, p: Pfn, order: nat, u: Pmm, rest: set<Pfn>, q: Pfn, k: nat) {
    Sized(s) && order < MAX_BUDDY_ORDER && Sized(u) && k < MAX_BUDDY_ORDER && Merge(s, p, order) == Merge(Reads(u, rest), q, k)
  }

  lemma SameMergeNext(s: Pmm, p: Pfn, order: nat, u: Pmm, rest: set<Pfn>, q: Pfn, k: nat)
    requires SameMerge(s, p, order, u, rest, q, k) && k < MAX_BUDDY_ORDER - 1
    requires Flip(q, k) in u.isFree || Flip(q, k) in rest
    ensures var b := Flip(q, k); SameMerge(s, p, order, Take(u, k, b), rest - {b}, Min(q, b), k + 1)
  {
    MergeStep(Reads(u, rest), q, k);
    TakeReads(u, rest, k, Flip(q, k));
  }

  lemma SameMergeEnd(s: Pmm, p: Pfn, order: nat, u: Pmm, rest: set<Pfn>, q: Pfn, k: nat)
    requires SameMerge(s, p, order, u, rest, q, k)
    requires k == MAX_BUDDY_ORDER - 1 || (Flip(q, k) !in u.isFree && Flip(q, k) !in rest)
    ensures Merge(s, p, order) == Merged(Reads(u, rest), q, k)
  {
  }

  lemma TakeReads(s: Pmm, junk: set<Pfn>, k: nat, b: Pfn)
    requires k < |s.counts|
    ensures Take(Reads(s, junk), k, b) == Reads(Take(s, k, b), junk - {b})
  {
    assert s.isFree + junk - {b} == s.isFree - {b} + (junk - {b});
  }

  /** What a free that looks only at mem_map leaves. */
  lemma FreeOutcome(s: Pmm, B: Blocks, pages: set<Pfn>, p: Pfn, k: nat) returns (B': Blocks)
    requires Inv(s, B, pages) && k < MAX_BUDDY_ORDER && Held(s, B, p, k)
    ensures Inv(Freed(s, p, k), B', pages) <==> MergesOk(s, B, p, k)
    ensures MergesOk(s, B, p, k) ==> Releases(s, B, p, Freed(s, p, k), B') && Settled(Freed(s, p, k), B', p, k)
    ensures MergesOk(s, B, p, k) && Coalesced(s, B) ==> Coalesced(Freed(s, p, k), B')
  {
    B' := B;
    if MergesOk(s, B, p, k) {
      FreeKeeps(s, B, pages, p, k);
      FreedBlock(s, B, pages, p, k);
      if Coalesced(s, B) { FreeCoalesces(s, B, pages, p, k); }
      B' := Joined(s, B, p, k);
    } else {
      FreeBreaks(s, B, pages, p, k);
    }
  }

  /** A state whose flags in mem_map come from a free that looked only there. */
  lemma FreedInMap(s: Pmm, B: Blocks, pages: set<Pfn>, p: Pfn, k: nat, total: nat, junk: set<Pfn>, s': Pmm, rest: set<Pfn>)
    requires Inv(s, B, pages) && (forall x :: x in pages ==> x < total) && Beyond(junk, total)
    requires k < MAX_BUDDY_ORDER && Held(s, B, p, k) && InMap(s, p, k, total)
    requires Reads(s', rest) == Freed(Reads(s, junk), p, k) && rest <= junk
    requires forall x :: x in s'.isFree ==> x in s.isFree || x <= p
    ensures s' == Freed(s, p, k)
  {
    BlocksMapped(s, B, pages, total);
    FreedBelow(s, junk, p, k, total);
    assert s'.isFree == Below(Reads(s', rest), total).isFree;
  }

  /** The pages of the block at `p` are in a free block that is merged as far as it goes: it is
      of the largest order, or its buddy is not free. */
  ghost predicate Settled(s: Pmm, B: Blocks, p: Pfn, order: nat) {
    exists q :: q in s.isFree && q in B && q <= p && p + Pow2(order) <= q + Pow2(B[q])
                && (B[q] == MAX_BUDDY_ORDER - 1 || Flip(q, B[q]) !in s.isFree)
  }

  lemma MergeStep(s: Pmm, p: Pfn, k: nat)
    requires Sized(s) && k < MAX_BUDDY_ORDER - 1 && Flip(p, k) in s.isFree
    ensures Sized(Take(s, k, Flip(p, k))) && Take(s, k, Flip(p, k)).freePages == s.freePages - Pow2(k + 1) + Pow2(k)
    ensures Merge(s, p, k) == Merge(Take(s, k, Flip(p, k)), Min(p, Flip(p, k)), k + 1)
  {
  }

  // ---- lemmas for AllocPages ---------------------------------------------------------

  /** The handed-out blocks grew by one block of `order` at `p`, which was not handed out. */
  ghost predicate Granted(s: Pmm, B: Blocks, s': Pmm, B': Blocks, p: Pfn, order: nat) {
    && (forall q, k {:trigger Held(s', B', q, k)} :: Held(s', B', q, k) <==> Held(s, B, q, k) || (q == p && k == order))
    && forall k {:trigger Held(s, B, p, k)} :: !Held(s, B, p, k)
  }

  /** The state with `p`, of order k, off the free lists in every respect. */
  function Without(s: Pmm, p: Pfn, k: nat): Pmm {
    s.(isFree := s.isFree - {p}, freePages := s.freePages - Pow2(k))
  }

  ghost function Halved(B: Blocks, p: Pfn, k: nat): Blocks { Split(B, p, k) }

  lemma {:induction false} EmptySum(lists: seq<seq<Pfn>>)
    requires forall k :: 0 <= k < |lists| ==> lists[k] == []
    ensures ListSum(lists) == 0
  {
    if lists != [] { EmptySum(lists[..|lists| - 1]); }
  }

  lemma TakeFirst(s: Pmm, B: Blocks, pages: set<Pfn>, k: nat)
    requires Inv(s, B, pages) && k < MAX_BUDDY_ORDER && s.lists[k] != []
    ensures var p := s.lists[k][0];
      var s' := s.(lists := s.lists[k := s.lists[k][1..]], counts := s.counts[k := s.counts[k] - 1]);
      && p in s.isFree && Inv(Without(s', p, k), B, pages) && Granted(s, B, Without(s', p, k), B, p, k)
      && (Coalesced(s, B) ==> Coalesced(Without(s', p, k), B))
  {
    var p := s.lists[k][0];
    assert Listed(s, B, k, p);
    TakeOk(s, B, pages, k, p);
    var s' := s.(lists := s.lists[k := s.lists[k][1..]], counts := s.counts[k := s.counts[k] - 1]);
    assert Without(s', p, k) == Take(s, k, p);
    if Coalesced(s, B) {
      forall q | q in Take(s, k, p).isFree && q in B ensures NoBuddy(Take(s, k, p), B, q) { assert NoBuddy(s, B, q); }
    }
  }

  /** One round of halving: the upper half goes on its list. */
  lemma SplitOnce(s: Pmm, B: Blocks, pages: set<Pfn>, p: Pfn, k: nat)
    requires Inv(s, B, pages) && k + 1 < MAX_BUDDY_ORDER && Held(s, B, p, k + 1)
    ensures Flip(p, k) == p + Pow2(k) && Flip(p, k) !in B
    ensures Inv(Put(s, k, Flip(p, k), true), Split(B, p, k), pages)
  {
    SplitTiles(B, pages, p, k);
    var B' := Split(B, p, k);
    forall j, q: Pfn | 0 <= j < MAX_BUDDY_ORDER ensures Listed(s, B', j, q) {
      assert Listed(s, B, j, q);
    }
    PutOk(s, B', pages, k, Flip(p, k), true);
  }

  lemma HalveStep(s0: Pmm, B0: Blocks, s: Pmm, B: Blocks, pages: set<Pfn>, p: Pfn, k: nat)
    requires Inv(s, B, pages) && k + 1 < MAX_BUDDY_ORDER && Granted(s0, B0, s, B, p, k + 1)
    ensures Inv(Put(s, k, Flip(p, k), true), Split(B, p, k), pages) && Flip(p, k) != p
    ensures Granted(s0, B0, Put(s, k, Flip(p, k), true), Split(B, p, k), p, k)
    ensures Coalesced(s, B) ==> Coalesced(Put(s, k, Flip(p, k), true), Split(B, p, k))
  {
    assert Held(s, B, p, k + 1);
    SplitOnce(s, B, pages, p, k);
    if Coalesced(s, B) { HalfCoalesced(s, B, pages, p, k); }
    GrantHalf(s0, B0, s, B, p, k);
  }

  /** The buddy of an upper half is the lower one, which is handed out. */
  lemma HalfCoalesced(s: Pmm, B: Blocks, pages: set<Pfn>, p: Pfn, k: nat)
    requires Inv(s, B, pages) && k + 1 < MAX_BUDDY_ORDER && Held(s, B, p, k + 1) && Coalesced(s, B)
    ensures Coalesced(Put(s, k, Flip(p, k), true), Split(B, p, k))
  {
    SplitTiles(B, pages, p, k);
    var B', h := Split(B, p, k), Flip(p, k);
    forall j, q: Pfn | 0 <= j < MAX_BUDDY_ORDER ensures Listed(s, B', j, q) {
      assert Listed(s, B, j, q);
    }
    assert Aligned(B', p);
    FlipBack(p, k);
    forall q | q in s.isFree && q in B' ensures NoBuddy(s, B', q) { assert NoBuddy(s, B, q); }
    PutCoalesced(s, B', pages, h, k, true);
  }

  lemma GrantHalf(s0: Pmm, B0: Blocks, s: Pmm, B: Blocks, p: Pfn, k: nat)
    requires Granted(s0, B0, s, B, p, k + 1) && Held(s, B, p, k + 1) && k < |s.lists| && k < |s.counts|
    requires Flip(p, k) == p + Pow2(k) && Flip(p, k) !in B
    ensures Granted(s0, B0, Put(s, k, Flip(p, k), true), Split(B, p, k), p, k)
  {
    var s', B' := Put(s, k, Flip(p, k), true), Split(B, p, k);
    forall q: Pfn, j: nat ensures Held(s', B', q, j) <==> Held(s0, B0, q, j) || (q == p && j == k) {
      assert Held(s, B, q, j) <==> Held(s0, B0, q, j) || (q == p && j == k + 1);
      assert !Held(s0, B0, p, j);
    }
  }

  // ---- the condition of FreePages can fail --------------------------------------------

  const FOUR_PAGES: Blocks := map[4 := 0, 5 := 0, 6 := 0, 7 := 0]

  function FourHeld(): Pmm { Pmm(seq(MAX_BUDDY_ORDER, _ => []), seq(MAX_BUDDY_ORDER, _ => 0), {}, 0) }

  lemma FourHeldOk(pages: set<Pfn>)
    requires pages == {4, 5, 6, 7}
    ensures Inv(FourHeld(), FOUR_PAGES, pages)
  {
    EmptySum(FourHeld().lists);
    assert Pow2(0) == 1;
    forall x: Pfn ensures x in pages <==> exists p :: Covers(FOUR_PAGES, p, x) {
      if x in pages { assert Covers(FOUR_PAGES, x, x); }
    }
  }

  lemma FlipValues()
    ensures Flip(4, 0) == 5 && Flip(5, 0) == 4 && Flip(6, 0) == 7 && Flip(4, 1) == 6 && Flip(4, 2) == 0
  {
    assert Pow2(0) == 1 && Pow2(1) == 2 && Pow2(2) == 4;
  }

  /** A block whose buddy is not free goes on its list as it is. */
  lemma FreedAlone(s: Pmm, p: Pfn)
    requires Sized(s) && Flip(p, 0) !in s.isFree
    ensures Freed(s, p, 0) == Put(s, 0, p, false) && Sized(Freed(s, p, 0))
  {
  }

  /** The free of page 5 when 4 and 6 are free and 7 is not. */
  lemma FreedOverlong(s: Pmm)
    requires Sized(s) && s.isFree == {6, 4} && s.lists[2] == []
    ensures Freed(s, 5, 0).isFree == {4} && Freed(s, 5, 0).lists[2] == [4]
  {
    FlipValues();
    var s3 := Take(s, 0, 4);
    assert s3.isFree == {6};
    var s4 := Take(s3, 1, 6);
    assert s4.isFree == {} && s4.lists[2] == [];
    assert Merge(s4, 4, 2) == Merged(s4, 4, 2);
    assert Merge(s3, 4, 1) == Merged(s4, 4, 2);
    assert Merge(s, 5, 0) == Merged(s4, 4, 2);
  }

  function TwoFreed(): Pmm { Freed(Freed(FourHeld(), 6, 0), 4, 0) }

  /** Pages 6 and 4 on list 0. */
  function TwoListed(): (s: Pmm)
    ensures Sized(s) && s.isFree == {6, 4} && s.lists[2] == []
  {
    Put(Put(FourHeld(), 0, 6, false), 0, 4, false)
  }

  lemma TwoListedOk(pages: set<Pfn>)
    requires pages == {4, 5, 6, 7}
    ensures Inv(TwoListed(), FOUR_PAGES, pages)
  {
    FourHeldOk(pages);
    PutOk(FourHeld(), FOUR_PAGES, pages, 0, 6, false);
    PutOk(Put(FourHeld(), 0, 6, false), FOUR_PAGES, pages, 0, 4, false);
  }

  /** Freeing 6 and then 4 puts them on list 0. */
  lemma FirstTwo()
    ensures TwoFreed() == TwoListed()
  {
    FlipValues();
    FreedAlone(FourHeld(), 6);
    FreedAlone(Put(FourHeld(), 0, 6, false), 4);
  }

  /** Pages 4 to 7 handed out one by one, then 6, 4 (FirstTwo) and 5 freed: the last call merges page 6
      as if it headed pages 6 and 7, and the block put on list 2 covers page 7, which is
      still handed out. */
  lemma MergesTakenPage(pages: set<Pfn>) returns (s: Pmm)
    requires pages == {4, 5, 6, 7}
    ensures s == TwoListed() && Inv(s, FOUR_PAGES, pages) && Held(s, FOUR_PAGES, 5, 0) && Held(s, FOUR_PAGES, 7, 0)
    ensures !MergesOk(s, FOUR_PAGES, 5, 0)
    ensures Freed(s, 5, 0).lists[2] == [4] && Held(Freed(s, 5, 0), FOUR_PAGES, 7, 0)
  {
    s := TwoListed();
    TwoListedOk(pages);
    FreedOverlong(s);
    FreesBadly(s);
  }

  lemma FreesBadly(s: Pmm)
    requires Sized(s) && s.isFree == {6, 4}
    ensures !MergesOk(s, FOUR_PAGES, 5, 0)
  {
    FlipValues();
    assert Take(s, 0, 4).isFree == {6};
    assert Join(FOUR_PAGES, 5, 4, 0)[6] == 0;
  }
}
