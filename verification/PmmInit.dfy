/**
  `pmm_init` and `pmm_frame_in_pool` of `kernel/mm/pmm.c`, in page numbers: an entry of the
  boot memory map usable from byte `start` on holds the whole pages from the first boundary
  at or after `start` to the last at or before its end.
 */
module PmmInit {
  import opened Powers
  import opened Buddy
  import opened BuddyAllocator
  import opened Options

  const PAGE_SIZE: nat := 4096
  const POOL_START: Pfn := 0x8000 // PMM_POOL_START_PFN
  const LOW_PAGES: Pfn := 0x100 // the low 1 MiB

  const PAGE_ENTRY: nat := 24 // sizeof(page_t)

  datatype Region = Region(start: nat, length: nat, usable: bool)

  function CeilPage(a: nat): nat { (a + PAGE_SIZE - 1) / PAGE_SIZE }

  function First(r: Region): Pfn { if CeilPage(r.start) < LOW_PAGES then LOW_PAGES else CeilPage(r.start) }

  function End(r: Region): Pfn { (r.start + r.length) / PAGE_SIZE }

  /** The whole pages that `mem_map` takes when physical memory ends at `maxPhys`, and the
      entries there are in so many pages. */
  function ArrayPages(maxPhys: nat): nat { CeilPage(CeilPage(maxPhys) * PAGE_ENTRY) }

  function Entries(arrayPages: nat): nat { arrayPages * PAGE_SIZE / PAGE_ENTRY }

  /** The fewest whole pages that hold an entry for each page below `maxPhys`. */
  lemma ArrayPagesIs(maxPhys: nat)
    ensures var pages, n := CeilPage(maxPhys), ArrayPages(maxPhys);
      && 4096 * pages < maxPhys + 4096 && maxPhys <= 4096 * pages
      && 4096 * n < 24 * pages + 4096 && 24 * pages <= 4096 * n
  {
  }

  lemma EntriesEnough(maxPhys: nat)
    ensures Entries(ArrayPages(maxPhys)) >= CeilPage(maxPhys)
  {
    var bytes := CeilPage(maxPhys) * PAGE_ENTRY;
    assert CeilPage(bytes) * PAGE_SIZE >= bytes;
  }

  predicate Within(r: Region, x: Pfn) { r.usable && First(r) <= x < End(r) }

  /** A page is in an entry exactly if all its bytes are, above the low 1 MiB. */
  lemma WithinBytes(r: Region, x: Pfn)
    ensures Within(r, x) <==> r.usable && x >= 0x100 && r.start <= 4096 * x && 4096 * x + 4096 <= r.start + r.length
  {
  }

  /** The page lies in one of the first `n` entries. */
  ghost predicate UsableIn(regions: seq<Region>, n: nat, x: Pfn)
    requires n <= |regions|
  {
    exists i :: 0 <= i < n && Within(regions[i], x)
  }

  ghost predicate Usable(regions: seq<Region>, x: Pfn) { UsableIn(regions, |regions|, x) }

  /** No page lies in two usable entries. */
  ghost predicate Disjoint(regions: seq<Region>) {
    forall i, j, x {:trigger Within(regions[i], x), Within(regions[j], x)} ::
      0 <= i < j < |regions| && Within(regions[i], x) ==> !Within(regions[j], x)
  }

  predicate InArray(lo: Pfn, hi: Pfn, x: Pfn) { lo <= x < hi }

  /** The page is one of a run `pmm_init` hands to the buddy lists. */
  predicate Tiled(lo: Pfn, hi: Pfn, x: Pfn) { x < POOL_START && !InArray(lo, hi, x) }

  /** A frame of the user pool. */
  ghost predicate InPool(regions: seq<Region>, lo: Pfn, hi: Pfn, x: Pfn) {
    x >= POOL_START && !InArray(lo, hi, x) && Usable(regions, x)
  }

  // ---- adding one block -------------------------------------------------------------

  predicate InRun(p: Pfn, n: nat, x: Pfn) { p <= x < p + n }

  ghost function Run(p: Pfn, n: nat): set<Pfn> { set x: nat | x < p + n && InRun(p, n, x) }

  lemma AddBlock(s: Pmm, B: Blocks, pages: set<Pfn>, p: Pfn, k: nat)
    requires Inv(s, B, pages) && k < MAX_BUDDY_ORDER && p % Pow2(k) == 0
    requires pages !! Run(p, Pow2(k))
    ensures p !in B && p !in s.isFree && Inv(Put(s, k, p, false), B[p := k], pages + Run(p, Pow2(k)))
  {
    var B', pages' := B[p := k], pages + Run(p, Pow2(k));
    assert p in B ==> Covers(B, p, p);
    forall q | q in B' ensures Aligned(B', q) { assert q in B ==> Aligned(B, q); }
    forall q: Pfn, x: Pfn ensures Covers(B', q, x) <==> if q == p then x in Run(p, Pow2(k)) else Covers(B, q, x) {}
    forall q: Pfn, r: Pfn, x: Pfn | Covers(B', q, x) && Covers(B', r, x) ensures q == r {
      assert Covers(B, q, x) ==> x in pages;
      assert Covers(B, r, x) ==> x in pages;
    }
    forall x: Pfn ensures x in pages' <==> exists q :: Covers(B', q, x) {
      if x in Run(p, Pow2(k)) { assert Covers(B', p, x); }
      if x in pages {
        var q :| Covers(B, q, x);
        assert Covers(B', q, x);
      }
      if q: Pfn :| Covers(B', q, x) { assert q != p ==> Covers(B, q, x); }
    }
    forall j, q: Pfn | 0 <= j < MAX_BUDDY_ORDER ensures Listed(s, B', j, q) { assert Listed(s, B, j, q); }
    PutOk(s, B', pages', k, p, false);
  }

  /** The largest order whose block starts at `curr` and fits in `remain` pages. */
  method TargetOrder(curr: Pfn, remain: nat) returns (k: nat)
    requires remain > 0
    ensures k < MAX_BUDDY_ORDER && curr % Pow2(k) == 0 && Pow2(k) <= remain
    ensures forall j :: k < j < MAX_BUDDY_ORDER ==> curr % Pow2(j) != 0 || Pow2(j) > remain
  {
    k := MAX_BUDDY_ORDER - 1;
    while k > 0 && !(remain >= Pow2(k) && curr % Pow2(k) == 0)
      invariant k < MAX_BUDDY_ORDER
      invariant forall j :: k < j < MAX_BUDDY_ORDER ==> curr % Pow2(j) != 0 || Pow2(j) > remain
    {
      k := k - 1;
    }
    assert Pow2(0) == 1;
  }

  method AddFree(a: Allocator, p: Pfn, k: nat)
    requires a.Valid() && k < MAX_BUDDY_ORDER && p % Pow2(k) == 0 && a.pages !! Run(p, Pow2(k))
    requires p + Pow2(k) <= a.entries
    modifies a
    ensures a.Valid() && a.pages == old(a.pages) + Run(p, Pow2(k))
    ensures a.isFree == old(a.isFree) + {p} && p !in old(a.blocks) && a.blocks == old(a.blocks)[p := k]
  {
    ghost var s := a.State();
    AddBlock(s, a.blocks, a.pages, p, k);
    a.isFree := a.isFree + {p};
    a.lists := a.lists[k := a.lists[k] + [p]];
    a.counts := a.counts[k := a.counts[k] + 1];
    a.freePages := a.freePages + Pow2(k);
    a.blocks := a.blocks[p := k];
    a.pages := a.pages + Run(p, Pow2(k));
    assert a.State() == Put(s, k, p, false);
  }

  /** The pages of one entry below `curr` that are done. */
  ghost predicate Done(first: Pfn, curr: Pfn, end: Pfn, lo: Pfn, hi: Pfn, x: Pfn) {
    first <= x < curr && x < end && Tiled(lo, hi, x)
  }

  /** An aligned run of 2^k pages of one entry, all of which are to be handed to the lists. */
  ghost predicate FreeRun(first: Pfn, end: Pfn, lo: Pfn, hi: Pfn, q: Pfn, k: nat) {
    && k < MAX_BUDDY_ORDER && q % Pow2(k) == 0 && first <= q && q + Pow2(k) <= end
    && forall x :: q <= x < q + Pow2(k) ==> Tiled(lo, hi, x)
  }

  /** The run lies inside one block. */
  ghost predicate InBlock(B: Blocks, q: Pfn, k: nat) {
    exists p :: p in B && p <= q && q + Pow2(k) <= p + Pow2(B[p])
  }

  /** Every run that begins before `curr` ends there and lies inside one block. */
  ghost predicate Whole(B: Blocks, first: Pfn, end: Pfn, lo: Pfn, hi: Pfn, curr: Pfn) {
    forall q: Pfn, k: nat {:trigger FreeRun(first, end, lo, hi, q, k)} ::
      FreeRun(first, end, lo, hi, q, k) && q < curr ==> q + Pow2(k) <= curr && InBlock(B, q, k)
  }

  ghost predicate Grown(B: Blocks, B': Blocks) { forall p :: p in B ==> p in B' && B'[p] == B[p] }

  lemma InBlockGrown(B: Blocks, B': Blocks, q: Pfn, k: nat)
    requires Grown(B, B') && InBlock(B, q, k)
    ensures InBlock(B', q, k)
  {
    var p :| p in B && p <= q && q + Pow2(k) <= p + Pow2(B[p]);
    assert p in B';
  }

  /** A run that begins inside the largest aligned block that fits ends inside it. */
  lemma NoCrossing(curr: Pfn, limit: Pfn, K: nat, q: Pfn, k: nat)
    requires curr % Pow2(K) == 0 && q % Pow2(k) == 0 && k < MAX_BUDDY_ORDER
    requires forall j :: K < j < MAX_BUDDY_ORDER ==> curr % Pow2(j) != 0 || Pow2(j) > limit - curr
    requires curr <= q < curr + Pow2(K) && q + Pow2(k) <= limit
    ensures q + Pow2(k) <= curr + Pow2(K)
  {
    if k <= K {
      CoarserAligned(curr, k, K);
      CoarserAligned(Pow2(K), k, K) by { DivMod(Pow2(K), Pow2(K), 1, 0); }
      StepsApart(q, curr, Pow2(K), Pow2(k));
    } else {
      CoarserAligned(q, K, k);
      OneMultiple(q, curr, Pow2(K));
    }
  }

  lemma StepsApart(q: nat, curr: nat, width: nat, g: nat)
    requires g > 0 && q % g == 0 && curr % g == 0 && width % g == 0 && q < curr + width
    ensures q + g <= curr + width
  {
    var a := Multiple(q, g);
    var b := Multiple(curr, g);
    var c := Multiple(width, g);
    MulApart(a, b + c, g);
    assert (b + c) * g == b * g + c * g;
  }

  lemma MulApart(a: nat, b: nat, g: nat)
    requires a * g < b * g
    ensures a * g + g <= b * g
  {
    if a >= b { MulMono(b, a, g); }
    MulMono(a + 1, b, g);
    MulSucc(a, g);
  }

  lemma OneMultiple(q: nat, curr: nat, g: nat)
    requires g > 0 && q % g == 0 && curr % g == 0 && curr <= q < curr + g
    ensures q == curr
  {
    if q > curr {
      var a := Multiple(curr, g);
      var b := Multiple(q, g);
      MulApart(a, b, g);
    }
  }

  /** One more block, at `curr`, keeps the runs whole. */
  lemma WholeNext(B: Blocks, first: Pfn, end: Pfn, lo: Pfn, hi: Pfn, curr: Pfn, limit: Pfn, K: nat)
    requires Whole(B, first, end, lo, hi, curr) && curr !in B && curr % Pow2(K) == 0 && lo < hi
    requires forall j :: K < j < MAX_BUDDY_ORDER ==> curr % Pow2(j) != 0 || Pow2(j) > limit - curr
    requires curr + Pow2(K) <= limit == Limit(curr, end, lo)
    ensures Whole(B[curr := K], first, end, lo, hi, curr + Pow2(K))
  {
    var B', next := B[curr := K], curr + Pow2(K);
    forall q: Pfn, k: nat | FreeRun(first, end, lo, hi, q, k) && q < next
      ensures q + Pow2(k) <= next && InBlock(B', q, k)
    {
      if q < curr {
        InBlockGrown(B, B', q, k);
      } else {
        RunInLimit(first, end, lo, hi, q, k, curr);
        NoCrossing(curr, limit, K, q, k);
        assert curr in B' && B'[curr] == K;
      }
    }
  }

  /** Where the block at `curr` has to end. */
  function Limit(curr: Pfn, end: Pfn, lo: Pfn): Pfn {
    var l := if curr < lo && end > lo then lo else end;
    if l > POOL_START then POOL_START else l
  }

  lemma RunInLimit(first: Pfn, end: Pfn, lo: Pfn, hi: Pfn, q: Pfn, k: nat, curr: Pfn)
    requires FreeRun(first, end, lo, hi, q, k) && q < Limit(curr, end, lo) && lo < hi
    ensures q + Pow2(k) <= Limit(curr, end, lo)
  {
    var last := q + Pow2(k) - 1;
    assert Tiled(lo, hi, last) && !Tiled(lo, hi, lo);
  }

  /** Stepping over `mem_map` crosses no run. */
  lemma WholeSkip(B: Blocks, first: Pfn, end: Pfn, lo: Pfn, hi: Pfn, curr: Pfn)
    requires Whole(B, first, end, lo, hi, curr) && lo <= curr < hi
    ensures Whole(B, first, end, lo, hi, hi)
  {
    forall q: Pfn, k: nat | FreeRun(first, end, lo, hi, q, k) && q < hi
      ensures q + Pow2(k) <= hi && InBlock(B, q, k)
    {
      assert Tiled(lo, hi, q);
    }
  }

  lemma WholePool(B: Blocks, first: Pfn, end: Pfn, lo: Pfn, hi: Pfn, curr: Pfn)
    requires Whole(B, first, end, lo, hi, curr) && (curr >= POOL_START || curr >= end)
    ensures AllWhole(B, first, end, lo, hi)
  {
    forall q: Pfn, k: nat | FreeRun(first, end, lo, hi, q, k) ensures InBlock(B, q, k) {
      assert Tiled(lo, hi, q);
    }
  }

  /** Every such run of the entry lies inside one block. */
  ghost predicate AllWhole(B: Blocks, first: Pfn, end: Pfn, lo: Pfn, hi: Pfn) {
    forall q: Pfn, k: nat {:trigger FreeRun(first, end, lo, hi, q, k)} :: FreeRun(first, end, lo, hi, q, k) ==> InBlock(B, q, k)
  }

  lemma WholeGrown(B: Blocks, B': Blocks, first: Pfn, end: Pfn, lo: Pfn, hi: Pfn)
    requires Grown(B, B') && AllWhole(B, first, end, lo, hi)
    ensures AllWhole(B', first, end, lo, hi)
  {
    forall q: Pfn, k: nat | FreeRun(first, end, lo, hi, q, k) ensures InBlock(B', q, k) {
      InBlockGrown(B, B', q, k);
    }
  }

  /** A run in a free block makes some list from its order on non-empty, so that
      pmm_alloc_pages of that order succeeds. */
  lemma RunServes(s: Pmm, B: Blocks, pages: set<Pfn>, q: Pfn, k: nat) returns (j: nat)
    requires Inv(s, B, pages) && s.isFree == B.Keys && InBlock(B, q, k)
    ensures k <= j < MAX_BUDDY_ORDER && s.lists[j] != []
  {
    var p :| p in B && p <= q && q + Pow2(k) <= p + Pow2(B[p]);
    j := B[p];
    assert Aligned(B, p) && Listed(s, B, j, p);
    if j < k {
      Pow2Mono(j + 1, k);
    }
  }

  /** The greedy loop over one entry.  No aligned run of the entry's pages is broken up. */
  method TileEntry(a: Allocator, first: Pfn, end: Pfn, lo: Pfn, hi: Pfn)
    requires a.Valid() && a.isFree == a.blocks.Keys && lo <= hi && end <= a.entries
    requires forall x :: x in a.pages ==> !(first <= x < end)
    modifies a
    ensures a.Valid() && a.isFree == a.blocks.Keys
    ensures forall x: nat {:trigger x in a.pages} :: x in a.pages <==> x in old(a.pages) || Done(first, end, end, lo, hi, x)
    ensures Grown(old(a.blocks), a.blocks) && (lo < hi ==> AllWhole(a.blocks, first, end, lo, hi))
  {
    var curr := first;
    while curr < end
      invariant first <= curr && a.Valid() && a.isFree == a.blocks.Keys
      invariant forall x: nat {:trigger x in a.pages} :: x in a.pages <==> x in old(a.pages) || Done(first, curr, end, lo, hi, x)
      invariant Grown(old(a.blocks), a.blocks) && (lo < hi ==> Whole(a.blocks, first, end, lo, hi, curr))
      decreases end - curr
    {
      if curr >= POOL_START { break; }
      if lo <= curr < hi {
        WholeSkip(a.blocks, first, end, lo, hi, curr);
        curr := hi;
        continue;
      }
      var limit := end;
      if curr < lo && end > lo { limit := lo; }
      if limit > POOL_START { limit := POOL_START; }
      var k := TargetOrder(curr, limit - curr);
      ghost var B := a.blocks;
      AddFree(a, curr, k);
      if lo < hi { WholeNext(B, first, end, lo, hi, curr, limit, k); }
      curr := curr + Pow2(k);
    }
    if lo < hi { WholePool(a.blocks, first, end, lo, hi, curr); }
  }

  /** `pmm_init`: fails exactly when no usable entry can hold `mem_map`; otherwise every usable
      page below the pool and outside `mem_map` lies in exactly one free block.  The boot
      loader takes `maxPhys` from the end of the last entry. */
  method Init(regions: seq<Region>, maxPhys: nat) returns (a: Allocator, ok: bool, lo: Pfn)
    requires Disjoint(regions)
    requires forall i :: 0 <= i < |regions| ==> regions[i].start + regions[i].length <= maxPhys
    ensures fresh(a)
    ensures var n := ArrayPages(maxPhys);
      && (ok <==> exists i :: 0 <= i < |regions| && Holds(regions[i], n))
      && (ok ==> ArrayAt(regions, n, lo) && a.Valid() && a.isFree == a.blocks.Keys && a.entries == Entries(n))
      && (ok ==> forall x: nat {:trigger x in a.pages} :: x in a.pages <==> Usable(regions, x) && Tiled(lo, lo + n, x))
      && (ok && n > 0 ==> forall i :: 0 <= i < |regions| && regions[i].usable ==>
            AllWhole(a.blocks, First(regions[i]), End(regions[i]), lo, lo + n))
      && (ok ==> forall x: nat {:trigger Usable(regions, x)} :: Usable(regions, x) && !InArray(lo, lo + n, x) ==>
           (x in a.pages <==> !InPool(regions, lo, lo + n, x)))
  {
    var arrayPages := ArrayPages(maxPhys);
    EntriesEnough(maxPhys);
    a := new Allocator(Entries(arrayPages));
    ok, lo := PlaceArray(regions, arrayPages);
    if !ok { return; }
    var hi := lo + arrayPages;
    for i := 0 to |regions|
      invariant a.Valid() && a.isFree == a.blocks.Keys && fresh(a) && a.entries == Entries(arrayPages)
      invariant forall x: nat {:trigger x in a.pages} :: x in a.pages <==> UsableIn(regions, i, x) && Tiled(lo, hi, x)
      invariant lo < hi ==> WholeBelow(a.blocks, regions, i, lo, hi)
    {
      ghost var B := a.blocks;
      forall x: nat ensures UsableIn(regions, i + 1, x) <==> UsableIn(regions, i, x) || Within(regions[i], x) {
        assert Within(regions[i], x) ==> UsableIn(regions, i + 1, x);
      }
      if regions[i].usable {
        forall x | x in a.pages ensures !(First(regions[i]) <= x < End(regions[i])) {
          var j :| 0 <= j < i && Within(regions[j], x);
          assert !Within(regions[i], x);
        }
        EndBelow(regions[i], maxPhys);
        TileEntry(a, First(regions[i]), End(regions[i]), lo, hi);
      }
      if lo < hi { WholeOn(B, a.blocks, regions, i, lo, hi); }
    }
  }

  /** The entry has room for `mem_map`; the end is rounded up here, as in the source. */
  predicate Holds(r: Region, arrayPages: nat) {
    r.usable && CeilPage(r.start + r.length) > First(r) && CeilPage(r.start + r.length) - First(r) >= arrayPages
  }

  /** `mem_map` lies at the start of the first entry that has room. */
  ghost predicate ArrayAt(regions: seq<Region>, arrayPages: nat, lo: Pfn) {
    exists i :: 0 <= i < |regions| && Holds(regions[i], arrayPages) && lo == First(regions[i])
             && (forall j :: 0 <= j < i ==> !Holds(regions[j], arrayPages))
  }

  /** With 64 MiB from 1 MiB on a request for 16 pages succeeds right after `pmm_init`. */
  method BootAlloc(regions: seq<Region>) returns (r: Option<Pfn>)
    requires regions == [Region(0x10_0000, 0x400_0000, true)]
    ensures r.Some?
  {
    var a, ok, lo := Init(regions, 0x410_0000);
    assert Holds(regions[0], ArrayPages(0x410_0000)) && ArrayPages(0x410_0000) == 98;
    assert First(regions[0]) == 0x100 && End(regions[0]) == 0x4100;
    assert Pow2(4) == 16;
    assert FreeRun(0x100, 0x4100, lo, lo + 98, 0x200, 4);
    assert AllWhole(a.blocks, First(regions[0]), End(regions[0]), lo, lo + 98);
    ghost var j := RunServes(a.State(), a.blocks, a.pages, 0x200, 4);
    ghost var k;
    r, k := a.AllocPages(4);
  }

  ghost predicate WholeBelow(B: Blocks, regions: seq<Region>, n: nat, lo: Pfn, hi: Pfn)
    requires n <= |regions|
  {
    forall i :: 0 <= i < n && regions[i].usable ==> AllWhole(B, First(regions[i]), End(regions[i]), lo, hi)
  }

  lemma WholeOn(B: Blocks, B': Blocks, regions: seq<Region>, i: nat, lo: Pfn, hi: Pfn)
    requires i < |regions| && WholeBelow(B, regions, i, lo, hi) && Grown(B, B')
    requires regions[i].usable ==> AllWhole(B', First(regions[i]), End(regions[i]), lo, hi)
    ensures WholeBelow(B', regions, i + 1, lo, hi)
  {
    forall j | 0 <= j < i && regions[j].usable ensures AllWhole(B', First(regions[j]), End(regions[j]), lo, hi) {
      WholeGrown(B, B', First(regions[j]), End(regions[j]), lo, hi);
    }
  }

  lemma EndBelow(r: Region, maxPhys: nat)
    requires r.start + r.length <= maxPhys
    ensures End(r) <= CeilPage(maxPhys)
  {
  }

  /** The pages of `mem_map` are all usable exactly when it ends with its entry's last whole
      page, or the page after that happens to be usable too. */
  lemma ArrayUsable(regions: seq<Region>, i: nat, n: nat)
    requires i < |regions| && Holds(regions[i], n)
    ensures var r := regions[i]; var lo := First(r);
      (forall x :: InArray(lo, lo + n, x) ==> Usable(regions, x)) <==> n == 0 || lo + n <= End(r) || Usable(regions, End(r))
  {
    var r := regions[i];
    var lo := First(r);
    OnePageMore(r);
    forall x: nat | InArray(lo, lo + n, x) && x < End(r) ensures Usable(regions, x) {
      assert Within(regions[i], x);
    }
    if n != 0 && lo + n > End(r) {
      assert lo + n == End(r) + 1 && InArray(lo, lo + n, End(r));
    }
  }

  /** An entry of two pages and one byte takes a `mem_map` of three pages. */
  lemma PartialPage(regions: seq<Region>)
    requires regions == [Region(0x100000, 0x2001, true)]
    ensures ArrayPages(400 * PAGE_SIZE) == 3 && ArrayAt(regions, 3, 0x100) && InArray(0x100, 0x100 + 3, 0x102)
    ensures !Usable(regions, 0x102)
  {
    assert Holds(regions[0], 3) && First(regions[0]) == 0x100;
  }

  /** The end rounded up is at most one page after the end rounded down. */
  lemma OnePageMore(r: Region)
    ensures End(r) <= CeilPage(r.start + r.length) <= End(r) + 1
  {
  }

  method PlaceArray(regions: seq<Region>, arrayPages: nat) returns (ok: bool, lo: Pfn)
    ensures ok <==> exists i :: 0 <= i < |regions| && Holds(regions[i], arrayPages)
    ensures ok ==> ArrayAt(regions, arrayPages, lo)
  {
    for i := 0 to |regions|
      invariant forall j :: 0 <= j < i ==> !Holds(regions[j], arrayPages)
    {
      if Holds(regions[i], arrayPages) { return true, First(regions[i]); }
    }
    return false, 0;
  }

  /** `pmm_frame_in_pool`. */
  method FrameInPool(regions: seq<Region>, lo: Pfn, arrayPages: nat, x: Pfn) returns (r: bool)
    ensures r <==> InPool(regions, lo, lo + arrayPages, x)
  {
    if x < POOL_START { return false; }
    if x < LOW_PAGES { return false; }
    if lo <= x < lo + arrayPages { return false; }
    for i := 0 to |regions|
      invariant forall j :: 0 <= j < i ==> !Within(regions[j], x)
    {
      if !regions[i].usable { continue; }
      if End(regions[i]) <= First(regions[i]) { continue; }
      if x >= First(regions[i]) && x + 1 <= End(regions[i]) { return true; }
    }
    return false;
  }
}
