/**
  The allocator of `kernel/lib/tlsf.c` on word memory: tlsf_create, tlsf_add_pool,
  tlsf_malloc, tlsf_free and tlsf_realloc with the block and list operations below them.

  `blocks` and `lists` are what the memory holds (modules TlsfHeap and TlsfLists).  A
  block in `holes` is free but on no list, as between two steps of an operation.
 */
module Tlsf {
  import opened TlsfMapping
  import opened TlsfBitmap
  import opened TlsfHeap
  import opened TlsfLists
  import opened TlsfSteps
  import opened TlsfCut

  /** The payload words of the blocks `live` are the same in both memories. */
  ghost predicate Kept(m: Mem, m': Mem, live: map<nat, nat>) {
    forall b, a :: b in live && b + 16 <= a <= b + 8 + live[b] ==> Rd(m', a) == Rd(m, a)
  }

  /** A request of `size` bytes has been served with `ptr`, or refused with 0 and nothing
      changed: the first block of the first list that can serve is in use, with less than 32
      bytes to spare, and all other blocks in use are as they were.  It holds the request
      exactly when that does not wrap. */
  ghost predicate Served(m: Mem, B: Blocks, lists: Lists, m': Mem, B': Blocks, lists': Lists, size: Size, ptr: nat) {
    var n := Adjust(size);
    && Pools(B') == Pools(B) && Kept(m, m', Live(B))
    && (ptr == 0 ==> B' == B && m' == m && lists' == lists)
    && (ptr == 0 <==> n == 0 || NoneIn(lists, SearchClass(n), CLASSES))
    && (ptr != 0 ==>
          && ptr >= 16 && ptr % 8 == 0 && FirstServing(lists, SearchClass(n), ptr - 16)
          && ptr - 16 !in Live(B) && ptr - 16 in Live(B') && Live(B') == Live(B)[ptr - 16 := Live(B')[ptr - 16]]
          && ptr - 16 in B && n <= B[ptr - 16].size && Live(B')[ptr - 16] == CutDown(B[ptr - 16].size, n)
          && n <= Live(B')[ptr - 16] < n + 32 && (size <= Live(B')[ptr - 16] <==> size <= NO_WRAP))
  }

  /** What a block of `total` bytes keeps when it is trimmed to `size`: a remainder is only cut
      off if it makes a block of its own. */
  function CutDown(total: nat, size: nat): nat { if total >= 32 + size then size else total }

  /** The blocks in use after block `b` has been trimmed to `size`. */
  function Trimmed(live: map<nat, nat>, b: nat, size: nat): map<nat, nat>
    requires b in live
  {
    if live[b] < 32 + size then live else if size == 0 then live - {b} else live[b := size]
  }

  /** The pools after that: a block trimmed to nothing ends one and begins another. */
  ghost function TrimmedPools(B: Blocks, b: nat, size: nat): set<(nat, nat)>
    requires b in B
  {
    if B[b].size >= 32 && size == 0 then CutPools(Pools(B), B[b].base, b, B[b].end) else Pools(B)
  }

  /** The first block of the first non-empty list at or after class `c0`. */
  ghost predicate FirstServing(lists: Lists, c0: nat, b: nat) {
    |lists| == CLASSES && exists c: nat :: FirstFrom(lists, c0, c) && c < |lists| && lists[c] != [] && b == lists[c][0]
  }

  lemma LiveInTrans(B: Blocks, B': Blocks, B'': Blocks)
    requires LiveIn(B, B') && LiveIn(B', B'')
    ensures LiveIn(B, B'')
  {
  }

  lemma SizeAfter(w: nat, s: nat)
    requires s % 8 == 0
    ensures SizeOf(WithSize(w, s)) == s
  {
    var q, v := s / 8, w % 4;
    assert s == 8 * q && 0 <= v < 4;
    assert (8 * q + v) / 4 == 2 * q;
  }

  /** align_down(bytes - 16, 8) in 64-bit arithmetic. */
  function PoolBytes(bytes: nat): nat {
    var n := if bytes >= 16 then bytes - 16 else 0x1_0000_0000_0000_0000 + bytes - 16;
    n / 8 * 8
  }

  /** What is left of `bytes` for blocks: 16 bytes less, rounded down; fewer than 16 wrap to far
      more than any pool may have. */
  lemma PoolBytesIs(bytes: nat)
    ensures PoolBytes(bytes) % 8 == 0
    ensures bytes >= 16 ==> PoolBytes(bytes) <= bytes - 16 < PoolBytes(bytes) + 8
    ensures bytes < 16 ==> PoolBytes(bytes) > BLOCK_SIZE_MAX
  {
  }

  /** tlsf_add_pool accepts pools of up to block_size_max bytes, but only smaller ones have
      a size class: exactly the largest one is indexed outside the class array. */
  lemma PoolLimit(bytes: nat)
    requires BLOCK_SIZE_MIN <= PoolBytes(bytes) <= BLOCK_SIZE_MAX
    ensures Class(PoolBytes(bytes)) < CLASSES <==> PoolBytes(bytes) != BLOCK_SIZE_MAX
  {
    ClassInRange(PoolBytes(bytes));
  }

  lemma LiveInAdd(B: Blocks, nb: nat, b: nat, bytes: nat)
    requires b !in B && b + 8 + bytes !in B
    ensures LiveIn(B, TlsfHeap.AddPool(B, b, bytes))
  {
  }

  /** Word `i` of the payload of `b`. */
  function PayloadWord(m: Mem, b: nat, i: nat): nat { Rd(m, b + 16 + 8 * i) }

  ghost predicate CopiedWords(m: Mem, b: nat, m': Mem, q: nat, k: nat) {
    forall i {:trigger PayloadWord(m', q, i)} :: 0 <= i < k ==> PayloadWord(m', q, i) == PayloadWord(m, b, i)
  }

  /** Two words agree in their low `k` bytes (little endian). */
  predicate SameLow(x: nat, y: nat, k: nat) {
    k == 0 || (x % 256 == y % 256 && SameLow(x / 256, y / 256, k - 1))
  }

  /** The first `bytes` bytes of the payload of `q` are those `b` had. */
  ghost predicate Copied(m: Mem, b: nat, m': Mem, q: nat, bytes: nat) {
    && CopiedWords(m, b, m', q, bytes / 8)
    && SameLow(PayloadWord(m', q, bytes / 8), PayloadWord(m, b, bytes / 8), bytes % 8)
  }

  /** A word with its low `k` bytes replaced by those of another. */
  function MixLow(dst: nat, src: nat, k: nat): (r: nat)
    ensures SameLow(r, src, k)
  {
    if k == 0 then dst
    else
      var high := MixLow(dst / 256, src / 256, k - 1);
      LowByte(src % 256, high);
      src % 256 + 256 * high
  }

  lemma LowByte(x: nat, high: nat)
    requires x < 256
    ensures (x + 256 * high) % 256 == x && (x + 256 * high) / 256 == high
  {
  }

  /** The largest pool that has a class and the smallest that has none; the smallest request
      that is refused, and the smallest that wraps: a block of 24 bytes is served for it. */
  lemma LimitInputs()
    ensures PoolBytes(0x1_0000_0010) == BLOCK_SIZE_MAX && Class(PoolBytes(0x1_0000_0010)) >= CLASSES
    ensures PoolBytes(0x1_0000_000F) < BLOCK_SIZE_MAX
    ensures Adjust(0xFFFF_FFF8) == 0xFFFF_FFF8 && Adjust(0xFFFF_FFF9) == 0
    ensures Adjust(0xFFFF_FFFF_FFFF_FFF8) == 0 && Adjust(0xFFFF_FFFF_FFFF_FFF9) == BLOCK_SIZE_MIN
  {
    PoolLimit(0x1_0000_0010);
  }

  function Min(a: nat, b: nat): (m: nat)
    ensures m <= a && m <= b && (m == a || m == b)
  {
    if a < b then a else b
  }

  /** Block `b`, or it together with a free block after it, has `n` bytes. */
  ghost predicate FitsHere(B: Blocks, b: nat, n: nat)
    requires b in B
  {
    n <= B[b].size || (Next(B, b) in B && B[Next(B, b)].free && n <= B[b].size + B[Next(B, b)].size + 8)
  }

  /** The bytes of `b`, with those of the free block after it if `n` asks for them. */
  ghost function Joint(B: Blocks, b: nat, n: nat): nat
    requires b in B && FitsHere(B, b, n)
  {
    if n <= B[b].size then B[b].size else B[b].size + B[Next(B, b)].size + 8
  }

  /** The request of `size` bytes for the block in use `b` has been answered with `p`: its own
      address exactly if the block and a free one after it have room, 0 exactly if they have
      not and no list serves, and else the first block of the first list that does.  A failure
      changes nothing.  A lost block is returned and in use in no layout the memory holds.
      What is returned otherwise holds the request exactly when that is no larger than
      LARGEST. */
  ghost predicate Reallocated(m: Mem, B: Blocks, lists: Lists, m': Mem, B': Blocks, lists': Lists, nb: nat, b: nat, size: Size, p: nat)
    requires b in Live(B)
  {
    var n := Adjust(size);
    && Pools(B') == TrimmedPools(B, b, n)
    && (p == b + 16 <==> FitsHere(B, b, n))
    && (p == 0 <==> !FitsHere(B, b, n) && NoneIn(lists, SearchClass(n), CLASSES))
    && (p == 0 ==> B' == B && m' == m && lists' == lists)
    && (p != 0 ==> p >= 16 && Kept(m, m', Live(B) - {b}))
    && (Lost(Live(B), b, size) ==> p == b + 16 && Live(B') == Live(B) - {b} && NotInUse(m', nb, b))
    && (p != 0 && !Lost(Live(B), b, size) ==>
          && Resized(m, m', Live(B), Live(B'), b, p - 16, size) && NewSize(B, lists, b, n, p - 16, Live(B')[p - 16])
          && n <= Live(B')[p - 16] < n + 32 && (Live(B')[p - 16] >= size <==> size <= LARGEST))
  }

  /** Where the block is after a successful request for `n` bytes, and with how many. */
  ghost predicate NewSize(B: Blocks, lists: Lists, b: nat, n: nat, q: nat, bytes: nat)
    requires b in B
  {
    if FitsHere(B, b, n) then q == b && bytes == CutDown(Joint(B, b, n), n)
    else FirstServing(lists, SearchClass(n), q) && q in B && bytes == CutDown(B[q].size, n)
  }

  /** A block in use is lost to its owner by tlsf_realloc: the size is refused, and the block is
      large enough to be cut. */
  predicate Lost(live: map<nat, nat>, b: nat, size: Size)
    requires b in live
  {
    LARGEST < size <= NO_WRAP && live[b] >= 32
  }

  lemma NoneJoin(lists: Lists, a: nat, b: nat, c: nat)
    requires NoneIn(lists, a, b) && NoneIn(lists, b, c)
    ensures NoneIn(lists, a, c)
  {
  }

  lemma SplitClass(c: nat)
    requires c < CLASSES
    ensures 32 * (c / 32) + c % 32 == c && c / 32 < FL_INDEX_COUNT && c % 32 < 32
  {
  }

  /** A block that is large enough for the accepted form of a request holds the request
      exactly if that is no larger than LARGEST. */
  lemma Room(B: Blocks, nb: nat, b: nat, size: Size)
    requires Phys(B, nb) && b in Live(B) && (size <= LARGEST ==> Live(B)[b] >= size)
    ensures Live(B)[b] >= size <==> size <= LARGEST
  {
    assert Good(B, b);
    SizeBound(B, nb, b);
    Multiple(B[b].size);
  }

  lemma Multiple(n: nat)
    requires n % 8 == 0 && n < BLOCK_SIZE_MAX
    ensures n <= LARGEST
  {
  }

  /** The finished call leaves what it returned a block in use, in some layout that the memory
      holds, exactly when adjust_request_size accepts the size, or takes it for the smallest,
      or the block is too small to be cut. */
  lemma ReallocExact(m: Mem, B: Blocks, lists: Lists, m': Mem, B': Blocks, lists': Lists, nb: nat, b: nat, size: Size, p: nat)
    requires b in Live(B) && Reallocated(m, B, lists, m', B', lists', nb, b, size, p) && p != 0
    requires Phys(B', nb) && MemOk(m', B')
    ensures p >= 16
    ensures (exists B'' :: Phys(B'', nb) && MemOk(m', B'') && p - 16 in Live(B''))
       <==> size <= LARGEST || size > NO_WRAP || Live(B)[b] < 32
  {
    if !Lost(Live(B), b, size) { assert p - 16 in Live(B'); }
  }

  lemma StayReallocates(m: Mem, B: Blocks, lists: Lists, m': Mem, B': Blocks, lists': Lists, nb: nat, b: nat, size: Size)
    requires Phys(B', nb) && b in Live(B) && size > 0 && FitsHere(B, b, Adjust(size))
    requires Pools(B') == TrimmedPools(B, b, Adjust(size))
    requires Stayed(m, m', Live(B), Live(B'), b, Adjust(size), Joint(B, b, Adjust(size)))
    requires b !in Live(B') ==> NotInUse(m', nb, b)
    ensures Reallocated(m, B, lists, m', B', lists', nb, b, size, b + 16)
  {
    if b in Live(B') { Room(B', nb, b, size); }
  }

  lemma MoveReallocates(m: Mem, B: Blocks, lists: Lists, m': Mem, B': Blocks, lists': Lists, nb: nat, b: nat, size: Size, p: nat)
    requires Phys(B', nb) && b in Live(B) && !FitsHere(B, b, Adjust(size)) && Pools(B') == Pools(B) && Adjust(size) != 0
    requires Relocated(m, B, lists, m', B', lists', b, size, p)
    ensures Reallocated(m, B, lists, m', B', lists', nb, b, size, p)
  {
    if p != 0 { Room(B', nb, p - 16, size); }
  }

  /** A new block has been allocated and `b` copied to it, or there was none. */
  ghost predicate Relocated(m: Mem, B: Blocks, lists: Lists, m': Mem, B': Blocks, lists': Lists, b: nat, size: Size, p: nat)
    requires b in Live(B)
  {
    var n := Adjust(size);
    && (p == 0 <==> n == 0 || NoneIn(lists, SearchClass(n), CLASSES))
    && (p == 0 ==> B' == B && m' == m && lists' == lists)
    && (p != 0 ==>
          && p != b + 16 && p >= 16 && Resized(m, m', Live(B), Live(B'), b, p - 16, size) && Kept(m, m', Live(B) - {b})
          && FirstServing(lists, SearchClass(n), p - 16) && p - 16 in B && n <= B[p - 16].size
          && Live(B')[p - 16] == CutDown(B[p - 16].size, n))
  }

  lemma GrownWord(k: Block, n: nat)
    requires k.size % 8 == 0 && n % 8 == 0
    ensures SizeOf(Word(k) + n + 8) == k.size + n + 8
  {
    WordSize(k.(size := k.size + n + 8));
  }

  lemma SameEntry(live: map<nat, nat>, b: nat, n: nat)
    ensures (live - {b})[b := n] == live[b := n]
  {
  }

  lemma KeptWord(m: Mem, m': Mem, live: map<nat, nat>, b: nat, i: nat)
    requires Kept(m, m', live) && b in live && 8 * i + 8 <= live[b]
    ensures PayloadWord(m', b, i) == PayloadWord(m, b, i)
  {
    assert b + 16 <= b + 16 + 8 * i <= b + 8 + live[b];
  }

  lemma Beside(live: map<nat, nat>, q: nat, n: nat, b: nat)
    requires q !in live && b in live
    ensures live[q := n] - {q} == live && live[q := n] - {b} == (live - {b})[q := n]
  {
  }

  lemma KeptTrans(m0: Mem, m1: Mem, m2: Mem, live: map<nat, nat>)
    requires Kept(m0, m1, live) && Kept(m1, m2, live)
    ensures Kept(m0, m2, live)
  {
    forall b, a | b in live && b + 16 <= a <= b + 8 + live[b] ensures Rd(m2, a) == Rd(m0, a) {
      assert Rd(m1, a) == Rd(m0, a);
    }
  }

  lemma CopiedNext(m0: Mem, b: nat, m1: Mem, m2: Mem, q: nat, k: nat)
    requires CopiedWords(m0, b, m1, q, k) && PayloadWord(m2, q, k) == PayloadWord(m0, b, k)
    requires forall i {:trigger PayloadWord(m2, q, i)} :: 0 <= i && i != k ==> PayloadWord(m2, q, i) == PayloadWord(m1, q, i)
    ensures CopiedWords(m0, b, m2, q, k + 1)
  {
    forall i | 0 <= i < k + 1 ensures PayloadWord(m2, q, i) == PayloadWord(m0, b, i) {
      assert i < k ==> PayloadWord(m1, q, i) == PayloadWord(m0, b, i);
    }
  }

  lemma CopiedSame(m0: Mem, b: nat, m1: Mem, m2: Mem, q: nat, k: nat)
    requires CopiedWords(m0, b, m1, q, k)
    requires forall i {:trigger PayloadWord(m2, q, i)} :: 0 <= i && i != k ==> PayloadWord(m2, q, i) == PayloadWord(m1, q, i)
    ensures CopiedWords(m0, b, m2, q, k)
  {
    forall i | 0 <= i < k ensures PayloadWord(m2, q, i) == PayloadWord(m0, b, i) {
      assert PayloadWord(m1, q, i) == PayloadWord(m0, b, i);
    }
  }

  lemma WholeWord(n: nat, k: nat)
    requires n % 8 == 0 && 8 * k < n
    ensures 8 * k + 8 <= n
  {
  }

  /** The block in use `b` has become `q`, itself or a new one, with what `b` held of it. */
  ghost predicate Resized(m: Mem, m': Mem, live: map<nat, nat>, live': map<nat, nat>, b: nat, q: nat, size: nat)
    requires b in live
  {
    && q in live' && live' == (live - {b})[q := live'[q]] && (q == b || q !in live)
    && Copied(m, b, m', q, Min(live[b], if q == b then live'[q] else size))
  }

  /** Block `b` is still in use, has what trimming `total` bytes to `adjust` leaves and keeps
      what it held, unless it was trimmed to nothing; the other blocks are as they were. */
  ghost predicate Stayed(m: Mem, m': Mem, live: map<nat, nat>, live': map<nat, nat>, b: nat, adjust: nat, total: nat)
    requires b in live
  {
    && Kept(m, m', live - {b})
    && if adjust == 0 && live[b] >= 32 then live' == live - {b}
       else Resized(m, m', live, live', b, b, adjust) && adjust <= total && live'[b] == CutDown(total, adjust)
  }

  lemma StayedBy(m0: Mem, m1: Mem, m2: Mem, live: map<nat, nat>, live1: map<nat, nat>, b: nat, adjust: nat)
    requires b in live && b in live1 && live1 == live[b := live1[b]] && live1[b] >= adjust && live1[b] % 8 == 0
    requires live[b] % 8 == 0 && adjust % 8 == 0 && (adjust == 0 ==> live1[b] == live[b])
    requires Kept(m0, m1, live) && Kept(m1, m2, Trimmed(live1, b, adjust))
    ensures Stayed(m0, m2, live, Trimmed(live1, b, adjust), b, adjust, live1[b])
  {
    var live2 := Trimmed(live1, b, adjust);
    if b in live2 {
      assert live2 == live[b := live2[b]];
      SameEntry(live, b, live2[b]);
      InPlaceKept(m0, m1, m2, live, b, live1[b], live2[b]);
    } else {
      assert live2 == live - {b};
      KeptTrans(m0, m1, m2, live2);
    }
  }

  /** What growing block `b` to `n1` and then trimming it to `n2` keeps. */
  lemma InPlaceKept(m0: Mem, m1: Mem, m2: Mem, live: map<nat, nat>, b: nat, n1: nat, n2: nat)
    requires b in live && n2 <= n1 && Kept(m0, m1, live) && Kept(m1, m2, live[b := n2])
    requires live[b] % 8 == 0 && n2 % 8 == 0
    ensures Kept(m0, m2, live - {b}) && Copied(m0, b, m2, b, Min(live[b], n2))
  {
    forall x, a | x in live - {b} && x + 16 <= a <= x + 8 + live[x] ensures Rd(m2, a) == Rd(m0, a) {
      assert x in live[b := n2] && Rd(m1, a) == Rd(m0, a);
    }
    forall i | 0 <= i < Min(live[b], n2) / 8 ensures PayloadWord(m2, b, i) == PayloadWord(m0, b, i) {
      KeptWord(m0, m1, live, b, i);
      KeptWord(m1, m2, live[b := n2], b, i);
    }
  }

  /** What a move keeps: the other blocks, and the copied words. */
  lemma MoveKept(m0: Mem, m1: Mem, m2: Mem, m3: Mem, live: map<nat, nat>, b: nat, q: nat, n: nat, bytes: nat)
    requires b in live && q !in live && bytes <= live[b] && bytes <= n && live[b] % 8 == 0 && n % 8 == 0
    requires Kept(m0, m1, live) && Kept(m1, m2, live) && Copied(m1, b, m2, q, bytes)
    requires Kept(m2, m3, (live - {b})[q := n])
    ensures Kept(m0, m3, live - {b}) && Copied(m0, b, m3, q, bytes)
  {
    forall x, a | x in live - {b} && x + 16 <= a <= x + 8 + live[x] ensures Rd(m3, a) == Rd(m0, a) {
      assert x in (live - {b})[q := n];
    }
    forall i | 0 <= i < bytes / 8 ensures PayloadWord(m3, q, i) == PayloadWord(m0, b, i) {
      KeptWord(m0, m1, live, b, i);
      KeptWord(m2, m3, (live - {b})[q := n], q, i);
      assert PayloadWord(m2, q, i) == PayloadWord(m1, b, i);
    }
    if bytes % 8 != 0 {
      KeptWord(m0, m1, live, b, bytes / 8);
      KeptWord(m2, m3, (live - {b})[q := n], q, bytes / 8);
    }
  }

  lemma KeptLive(m: Mem, m': Mem, B: Blocks)
    requires Keeps(m, m', B)
    ensures Kept(m, m', Live(B))
  {
    forall b, a | b in Live(B) && b + 16 <= a <= b + 8 + Live(B)[b] ensures Rd(m', a) == Rd(m, a) {
      assert InPayload(B, b, a);
    }
  }

  class Heap {
    const nb: nat // &control->block_null
    var mem: Mem
    var fl: nat
    var sl: seq<nat>
    var heads: seq<nat>
    ghost var blocks: Blocks
    ghost var lists: Lists

    ghost predicate Inv(holes: set<nat>)
      reads this
    {
      State(mem, blocks, nb, heads, lists, holes) && Mapped(fl, sl, lists)
    }

    ghost predicate Valid()
      reads this
    {
      Inv({}) && Coalesced(blocks, {})
    }

    /** control_construct: all lists empty. */
    constructor (control: nat)
      ensures Valid() && nb == control && blocks == map[]
    {
      nb := control;
      mem := map[control + 16 := control, control + 24 := control];
      fl := 0;
      sl := seq(FL_INDEX_COUNT, _ => 0);
      heads := seq(CLASSES, _ => control);
      blocks := map[];
      lists := seq(CLASSES, _ => []);
      new;
      forall c | 0 <= c < CLASSES ensures Entry(blocks, lists, {}, c) && Chain(mem, nb, heads, lists, c) && Marked(sl, lists, c) {
        ZeroBit(c % 32);
      }
      forall f | 0 <= f < FL_INDEX_COUNT ensures Summary(fl, sl, f) { ZeroBit(f); }
    }

    // ---- the index -----------------------------------------------------------------

    /** search_suitable_block: the first non-empty class at or after `c0`, or CLASSES. */
    method SearchSuitable(c0: nat) returns (c: nat)
      requires Mapped(fl, sl, lists) && c0 < CLASSES
      ensures FirstFrom(lists, c0, c)
    {
      var f, s := c0 / 32, c0 % 32;
      SplitClass(c0);
      RowSearch(fl, sl, lists, f, s);
      var slMap := From(sl[f], s);
      if slMap == 0 {
        RowsSearch(fl, sl, lists, f + 1);
        var flMap := From(fl, f + 1);
        if flMap == 0 {
          NoneJoin(lists, c0, 32 * f + 32, CLASSES);
          return CLASSES;
        }
        f := Ffs(flMap);
        slMap := sl[f];
        RowSearch(fl, sl, lists, f, 0);
        assert From(slMap, 0) == slMap;
        NoneJoin(lists, c0, 32 * (c0 / 32) + 32, 32 * f);
        NoneJoin(lists, c0, 32 * f, 32 * f + Ffs(slMap));
      }
      s := Ffs(slMap);
      c := 32 * f + s;
    }

    /** remove_free_block for the list of class `c`. */
    method RemoveFreeBlock(b: nat, c: nat, ghost holes: set<nat>)
      requires Inv(holes) && c < CLASSES && b in lists[c]
      modifies this`mem, this`fl, this`sl, this`heads, this`lists
      ensures Inv(holes + {b}) && Keeps(old(mem), mem, blocks)
      ensures exists i :: 0 <= i < |old(lists)[c]| && old(lists)[c][i] == b && lists == old(lists)[c := Without(old(lists)[c], i)]
    {
      ghost var i :| 0 <= i < |lists[c]| && lists[c][i] == b;
      Unfile(mem, blocks, nb, heads, lists, holes, c, i);
      ghost var lists' := lists[c := Without(lists[c], i)];
      var prev, next := PrevFree(mem, b), NextFree(mem, b);
      mem := mem[next + 24 := prev];
      mem := mem[prev + 16 := next];
      if heads[c] == b {
        heads := heads[c := next];
        if next == nb {
          MapEmpty(fl, sl, lists, c);
          assert lists' == lists[c := []];
          var f := c / 32;
          sl := sl[f := ClearBit(sl[f], c % 32)];
          if sl[f] == 0 {
            fl := ClearBit(fl, f);
          }
          lists := lists';
          return;
        }
      }
      MapUnchanged(fl, sl, lists, c, Without(lists[c], i));
      lists := lists';
    }

    /** insert_free_block for the list of class `c`. */
    method InsertFreeBlock(b: nat, c: nat, ghost holes: set<nat>)
      requires Inv(holes) && b in holes && b in blocks && blocks[b].free && c == Class(blocks[b].size) < CLASSES
      modifies this`mem, this`fl, this`sl, this`heads, this`lists
      ensures Inv(holes - {b}) && Keeps(old(mem), mem, blocks)
      ensures lists == old(lists)[c := [b] + old(lists)[c]]
    {
      File(mem, blocks, nb, heads, lists, holes, b);
      MapInsert(fl, sl, lists, c, [b] + lists[c]);
      var current := heads[c];
      mem := mem[b + 16 := current];
      mem := mem[b + 24 := nb];
      mem := mem[current + 24 := b];
      heads := heads[c := b];
      fl := SetBit(fl, c / 32);
      sl := sl[c / 32 := SetBit(sl[c / 32], c % 32)];
      lists := lists[c := [b] + lists[c]];
    }

    // ---- headers -------------------------------------------------------------------

    /** block_next, from the size word in memory. */
    method BlockNext(b: nat) returns (n: nat)
      requires MemOk(mem, blocks) && Phys(blocks, nb) && b in blocks
      ensures n == Next(blocks, b)
    {
      assert Header(mem, blocks, b) && Good(blocks, b);
      WordSize(blocks[b]);
      n := b + 8 + SizeOf(Rd(mem, b + 8));
    }

    /** block_remove */
    method BlockRemove(b: nat, ghost holes: set<nat>)
      requires Inv(holes) && b in blocks && blocks[b].free && b !in holes
      modifies this`mem, this`fl, this`sl, this`heads, this`lists
      ensures Inv(holes + {b}) && Keeps(old(mem), mem, blocks)
    {
      assert Header(mem, blocks, b) && Good(blocks, b) && Filed(blocks, lists, holes, b);
      Fits(blocks, nb, b);
      WordSize(blocks[b]);
      var c := Class(SizeOf(Rd(mem, b + 8)));
      RemoveFreeBlock(b, c, holes);
    }

    /** block_insert */
    method BlockInsert(b: nat, ghost holes: set<nat>)
      requires Inv(holes) && b in blocks && blocks[b].free && b in holes
      modifies this`mem, this`fl, this`sl, this`heads, this`lists
      ensures Inv(holes - {b}) && Keeps(old(mem), mem, blocks)
    {
      assert Header(mem, blocks, b) && Good(blocks, b);
      Fits(blocks, nb, b);
      WordSize(blocks[b]);
      var c := Class(SizeOf(Rd(mem, b + 8)));
      InsertFreeBlock(b, c, holes);
    }

    /** block_mark_as_free on a block in use. */
    method MarkAsFree(b: nat)
      requires Inv({}) && b in blocks && !blocks[b].free && blocks[b].size > 0
      modifies this`mem, this`blocks
      ensures Next(old(blocks), b) in old(blocks) && blocks == Mark(old(blocks), b, true)
      ensures Inv({b}) && Keeps(old(mem), mem, blocks)
    {
      MarkFreeStep(mem, blocks, nb, heads, lists, {}, b);
      var n := BlockNext(b);
      mem := mem[n := b];
      mem := mem[n + 8 := WithPrevFree(Rd(mem, n + 8), true)];
      mem := mem[b + 8 := WithFree(Rd(mem, b + 8), true)];
      assert mem == MarkFreeMem(old(mem), b, n) && {} + {b} == {b};
      blocks := Mark(blocks, b, true);
    }

    /** block_mark_as_used on a free block that is on no list. */
    method MarkAsUsed(b: nat)
      requires Inv({b}) && b in blocks && blocks[b].free
      modifies this`mem, this`blocks
      ensures Next(old(blocks), b) in old(blocks) && blocks == Mark(old(blocks), b, false)
      ensures Inv({}) && Keeps(old(mem), mem, old(blocks))
    {
      MarkUsedStep(mem, blocks, nb, heads, lists, {b}, b);
      var n := BlockNext(b);
      mem := mem[n + 8 := WithPrevFree(Rd(mem, n + 8), false)];
      mem := mem[b + 8 := WithFree(Rd(mem, b + 8), false)];
      assert {b} - {b} == {};
      blocks := Mark(blocks, b, false);
    }

    // ---- coalescing ----------------------------------------------------------------

    /** block_absorb of the free block `b` after `p`, both on no list. */
    method BlockAbsorb(p: nat, b: nat)
      requires Inv({b, p}) && p in blocks && blocks[p].free && b == Next(blocks, p) && b in blocks && blocks[b].free
      modifies this`mem, this`blocks
      ensures Next(old(blocks), b) in old(blocks) && blocks == Absorb(old(blocks), p)
      ensures Inv({p}) && Keeps(old(mem), mem, old(blocks))
    {
      AbsorbStep(mem, blocks, nb, heads, lists, {b, p}, p);
      assert Header(mem, blocks, b) && Good(blocks, b) && Good(blocks, p);
      WordSize(blocks[b]);
      ghost var m', B' := AbsorbMemOf(mem, p, blocks[b].size, Next(blocks, b)), Absorb(blocks, p);
      mem := mem[p + 8 := Rd(mem, p + 8) + SizeOf(Rd(mem, b + 8)) + 8];
      var n := p + 8 + SizeOf(Rd(mem, p + 8));
      assert n == Next(blocks, b) by {
        assert Header(m', B', p) && Good(B', p);
        WordSize(B'[p]);
      }
      mem := mem[n := p];
      assert {b, p} - {b} == {p} by { assert b != p; }
      blocks := B';
    }

    /** block_merge_prev for a free block on no list. */
    method MergePrev(b: nat) returns (p: nat)
      requires Inv({b}) && b in blocks && blocks[b].free && Coalesced(blocks, {b})
      modifies this
      ensures Inv({p}) && p in blocks && blocks[p].free && !blocks[p].pfree && Coalesced(blocks, {p})
      ensures Live(blocks) == Live(old(blocks)) && Pools(blocks) == Pools(old(blocks))
      ensures LiveIn(old(blocks), blocks) && Keeps(old(mem), mem, old(blocks))
    {
      p := b;
      assert Header(mem, blocks, b) && Good(blocks, b);
      WordSize(blocks[b]);
      if IsPrevFree(Rd(mem, b + 8)) {
        p := Rd(mem, b);
        assert Good(blocks, p);
        CoPrev(mem, blocks, nb, b, p);
        BlockRemove(p, {b});
        assert {b} + {p} == {b, p};
        label removed:
        BlockAbsorb(p, b);
        LiveAbsorb(old(blocks), p);
        PoolsAbsorb(old(blocks), nb, p);
        CoAbsorb(old(blocks), nb, p, b);
        KeepsTrans(old(mem), old@removed(mem), mem, old(blocks), old(blocks));
      }
    }

    /** block_merge_next for a free block on no list. */
    method MergeNext(b: nat)
      requires Inv({b}) && b in blocks && blocks[b].free && Coalesced(blocks, {b})
      modifies this
      ensures Inv({b}) && b in blocks && blocks[b].free && Coalesced(blocks, {b})
      ensures blocks[b].pfree == old(blocks)[b].pfree && Next(blocks, b) in blocks && !blocks[Next(blocks, b)].free
      ensures Live(blocks) == Live(old(blocks)) && Pools(blocks) == Pools(old(blocks))
      ensures LiveIn(old(blocks), blocks) && Keeps(old(mem), mem, old(blocks))
    {
      var n := BlockNext(b);
      assert Good(blocks, b);
      assert Header(mem, blocks, n) && Good(blocks, n);
      WordSize(blocks[n]);
      if IsFree(Rd(mem, n + 8)) {
        assert Alone(blocks, n);
        BlockRemove(n, {b});
        assert {b} + {n} == {n, b};
        label removed:
        BlockAbsorb(b, n);
        LiveAbsorb(old(blocks), b);
        PoolsAbsorb(old(blocks), nb, b);
        CoAbsorb(old(blocks), nb, b, b);
        KeepsTrans(old(mem), old@removed(mem), mem, old(blocks), old(blocks));
      }
    }

    /** The merging half of tlsf_free, for a free block on no list. */
    method Reclaim(b: nat)
      requires Inv({b}) && b in blocks && blocks[b].free && Coalesced(blocks, {b})
      modifies this
      ensures Valid()
      ensures Live(blocks) == Live(old(blocks)) && Pools(blocks) == Pools(old(blocks))
      ensures Keeps(old(mem), mem, old(blocks))
    {
      var p := MergePrev(b);
      label prev:
      MergeNext(p);
      KeepsTrans(old(mem), old@prev(mem), mem, old(blocks), old@prev(blocks));
      CoSettled(blocks, nb, p);
      LiveInTrans(old(blocks), old@prev(blocks), blocks);
      label next:
      BlockInsert(p, {p});
      assert {p} - {p} == {};
      KeepsTrans(old(mem), old@next(mem), mem, old(blocks), blocks);
    }

    /** tlsf_free of NULL or of a block in use. */
    method Free(ptr: nat)
      requires Valid() && (ptr != 0 ==> ptr >= 16 && ptr - 16 in Live(blocks))
      modifies this
      ensures Valid() && Pools(blocks) == Pools(old(blocks))
      ensures ptr == 0 ==> blocks == old(blocks) && mem == old(mem)
      ensures ptr != 0 ==> Live(blocks) == Live(old(blocks)) - {ptr - 16}
      ensures Kept(old(mem), mem, Live(blocks))
    {
      if ptr != 0 {
        var b := ptr - 16;
        assert Good(blocks, b);
        CoMarkFree(blocks, nb, b);
        LiveMark(blocks, b, true);
        PoolsMark(blocks, b, true);
        MarkAsFree(b);
        label marked:
        Reclaim(b);
        KeepsTrans(old(mem), old@marked(mem), mem, old@marked(blocks), old@marked(blocks));
        KeptLive(old(mem), mem, old@marked(blocks));
      }
    }

    // ---- allocating ----------------------------------------------------------------

    /** block_locate_free: takes the first block of the first list that can serve `size`. */
    method LocateFree(size: nat) returns (found: bool, b: nat)
      requires Valid() && size % 8 == 0
      modifies this`mem, this`fl, this`sl, this`heads, this`lists
      ensures !found ==> Valid() && mem == old(mem) && lists == old(lists)
      ensures found <==> size != 0 && !NoneIn(old(lists), SearchClass(size), CLASSES)
      ensures found ==> FirstServing(old(lists), SearchClass(size), b)
      ensures found ==> Inv({b}) && b in blocks && blocks[b].free && blocks[b].size >= size > 0
      ensures Keeps(old(mem), mem, blocks)
    {
      found, b := false, 0;
      if size != 0 {
        var c0 := SearchClass(size);
        if c0 / SL_INDEX_COUNT < FL_INDEX_COUNT {
          var c := SearchSuitable(c0);
          if c < CLASSES {
            b := heads[c];
            assert Chain(mem, nb, heads, lists, c) && Entry(blocks, lists, {}, c);
            assert b == lists[c][0] && b in lists[c];
            assert FirstServing(lists, c0, b) && lists[c] != [];
            GoodFit(size, c, blocks[b].size);
            RemoveFreeBlock(b, c, {});
            assert {} + {b} == {b};
            found := true;
          }
        }
      }
    }

    /** block_trim_free: gives back what a free block on no list has beyond `size`. */
    method TrimFree(b: nat, size: nat)
      requires Inv({b}) && b in blocks && blocks[b].free && Coalesced(blocks, {})
      requires BLOCK_SIZE_MIN <= size <= blocks[b].size && size % 8 == 0
      modifies this
      ensures Inv({b}) && b in blocks && blocks[b].free && Coalesced(blocks, {b})
      ensures blocks[b].size == CutDown(old(blocks[b].size), size)
      ensures Live(blocks) == Live(old(blocks)) && Pools(blocks) == Pools(old(blocks))
      ensures LiveIn(old(blocks), blocks) && Keeps(old(mem), mem, old(blocks))
    {
      assert Header(mem, blocks, b) && Good(blocks, b);
      WordSize(blocks[b]);
      var total := SizeOf(Rd(mem, b + 8));
      if total >= 32 + size {
        var r := SplitFree(b, size);
        label split:
        LiveSplit(old(blocks), b, size);
        BlockInsert(r, {b, r});
        assert {b, r} - {r} == {b};
        KeepsTrans(old(mem), old@split(mem), mem, old(blocks), blocks);
      }
    }

    /** block_split, block_link_next and block_set_prev_free on a free block on no list. */
    method SplitFree(b: nat, size: nat) returns (r: nat)
      requires Inv({b}) && b in blocks && blocks[b].free && Coalesced(blocks, {}) && CanSplit(blocks, b, size)
      modifies this`mem, this`blocks
      ensures Next(old(blocks), b) in old(blocks) && r == Rest(b, size) && r !in old(blocks)
      ensures blocks == Split(old(blocks), b, size)
      ensures Inv({b, r}) && Coalesced(blocks, {b})
      ensures Pools(blocks) == Pools(old(blocks)) && Keeps(old(mem), mem, old(blocks))
    {
      assert Header(mem, blocks, b) && Good(blocks, b);
      WordSize(blocks[b]);
      ghost var total := blocks[b].size;
      SplitStep(mem, blocks, nb, heads, lists, {b}, b, size);
      CoSplit(blocks, nb, b, size);
      PoolsSplit(blocks, b, size);
      r := WriteSplitFree(b, size, total);
      assert {b} + {r} == {b, r};
      blocks := Split(blocks, b, size);
    }

    method WriteSplitFree(b: nat, size: nat, ghost total: nat) returns (r: nat)
      requires total >= size + 32 && size >= BLOCK_SIZE_MIN && SizeOf(Rd(mem, b + 8)) == total
      requires size % 8 == 0 && total % 8 == 0
      modifies this`mem
      ensures r == Rest(b, size) && mem == TrimFreeMem(old(mem), b, size, total)
    {
      r := SplitBlock(b, size, total);
      mem := mem[r := b];
      mem := mem[r + 8 := WithPrevFree(Rd(mem, r + 8), true)];
    }

    /** The memory writes of block_split. */
    method SplitBlock(b: nat, size: nat, ghost total: nat) returns (r: nat)
      requires total >= size + 32 && SizeOf(Rd(mem, b + 8)) == total
      requires size % 8 == 0 && total % 8 == 0
      modifies this`mem
      ensures r == Rest(b, size) && mem == SplitMemOf(old(mem), b, size, total)
    {
      r := b + 16 + size - 8;
      var remain := SizeOf(Rd(mem, b + 8)) - (size + 8);
      var w := WithSize(Rd(mem, r + 8), remain);
      Remainder(size, total);
      SizeAfter(Rd(mem, r + 8), remain);
      mem := mem[r + 8 := w];
      mem := mem[b + 8 := WithSize(Rd(mem, b + 8), size)];
      assert Rd(mem, r + 8) == w;
      var n := r + 8 + SizeOf(Rd(mem, r + 8));
      MarkFreeWords(r, n);
    }

    /** The memory writes of block_mark_as_free. */
    method MarkFreeWords(r: nat, n: nat)
      requires n > r + 8
      modifies this`mem
      ensures mem == MarkFreeMem(old(mem), r, n)
    {
      mem := mem[n := r];
      mem := mem[n + 8 := WithPrevFree(Rd(mem, n + 8), true)];
      mem := mem[r + 8 := WithFree(Rd(mem, r + 8), true)];
    }

    /** tlsf_malloc; 0 is NULL. */
    method Malloc(size: Size) returns (ptr: nat)
      requires Valid()
      modifies this
      ensures Valid() && Served(old(mem), old(blocks), old(lists), mem, blocks, lists, size, ptr)
    {
      var adjust := Adjust(size);
      var found, b := LocateFree(adjust);
      if !found {
        KeptLive(old(mem), mem, blocks);
        return 0;
      }
      ghost var m := mem;
      PrepareUsed(b, adjust);
      KeepsTrans(old(mem), m, mem, old(blocks), old(blocks));
      KeptLive(old(mem), mem, old(blocks));
      ptr := b + 16;
    }

    /** block_prepare_used: trims the block and marks it used. */
    method PrepareUsed(b: nat, size: nat)
      requires Inv({b}) && b in blocks && blocks[b].free && Coalesced(blocks, {})
      requires BLOCK_SIZE_MIN <= size <= blocks[b].size && size % 8 == 0
      modifies this
      ensures Valid() && Pools(blocks) == Pools(old(blocks)) && Keeps(old(mem), mem, old(blocks))
      ensures b % 8 == 0 && b !in Live(old(blocks)) && b in Live(blocks) && Live(blocks)[b] == CutDown(old(blocks[b].size), size)
      ensures Live(blocks) == Live(old(blocks))[b := Live(blocks)[b]]
    {
      TrimFree(b, size);
      label trimmed:
      assert Good(blocks, b);
      CoMarkUsed(blocks, nb, b);
      LiveMark(blocks, b, false);
      PoolsMark(blocks, b, false);
      MarkAsUsed(b);
      KeepsTrans(old(mem), old@trimmed(mem), mem, old(blocks), old@trimmed(blocks));
    }

    /** tlsf_add_pool: the memory from `addr` on, `bytes` long, becomes one free block. */
    method AddPool(addr: nat, bytes: nat) returns (ok: bool)
      requires Valid() && addr >= 8 && PoolBytes(bytes) != BLOCK_SIZE_MAX
      requires PoolBytes(bytes) < BLOCK_SIZE_MAX ==> Outside(blocks, nb, addr - 8, PoolBytes(bytes))
      modifies this
      ensures Valid() && Live(blocks) == Live(old(blocks)) && Kept(old(mem), mem, Live(old(blocks)))
      ensures ok <==> addr % 8 == 0 && BLOCK_SIZE_MIN <= PoolBytes(bytes) <= BLOCK_SIZE_MAX
      ensures !ok ==> blocks == old(blocks) && mem == old(mem)
      ensures ok ==> Pools(blocks) == Pools(old(blocks)) + {(addr - 8, addr + PoolBytes(bytes))}
    {
      var poolBytes := PoolBytes(bytes);
      ok := false;
      if addr % 8 != 0 {
        return;
      }
      if poolBytes < BLOCK_SIZE_MIN || poolBytes > BLOCK_SIZE_MAX {
        return;
      }
      MakePool(addr - 8, poolBytes);
      ok := true;
    }

    /** The writes of tlsf_add_pool, and its block_insert. */
    method MakePool(b: nat, bytes: nat)
      requires Valid() && Outside(blocks, nb, b, bytes) && b % 8 == 0 && bytes % 8 == 0
      requires BLOCK_SIZE_MIN <= bytes < BLOCK_SIZE_MAX
      modifies this
      ensures Valid() && Live(blocks) == Live(old(blocks)) && Kept(old(mem), mem, Live(old(blocks)))
      ensures Pools(blocks) == Pools(old(blocks)) + {(b, b + 8 + bytes)}
    {
      PoolStep(mem, blocks, nb, heads, lists, b, bytes);
      CoAddPool(blocks, nb, b, bytes);
      PoolsAdd(blocks, b, bytes);
      LiveInAdd(blocks, nb, b, bytes);
      WritePool(b, bytes);
      blocks := TlsfHeap.AddPool(blocks, b, bytes);
      label made:
      BlockInsert(b, {b});
      assert {b} - {b} == {};
      KeepsTrans(old(mem), old@made(mem), mem, old(blocks), blocks);
      KeptLive(old(mem), mem, old(blocks));
    }

    method WritePool(b: nat, bytes: nat)
      modifies this`mem
      ensures mem == PoolMem(old(mem), b, bytes)
    {
      mem := mem[b + 8 := WithPrevFree(WithFree(WithSize(Rd(mem, b + 8), bytes), true), false)];
      var e := b + 8 + bytes;
      mem := mem[e := b];
      mem := mem[e + 8 := WithPrevFree(WithFree(WithSize(Rd(mem, e + 8), 0), false), true)];
    }

    // ---- resizing ------------------------------------------------------------------

    /** block_merge_next and block_mark_as_used: a block in use takes in the free block after it. */
    method Grow(b: nat)
      requires Valid() && b in Live(blocks) && Next(blocks, b) in blocks && blocks[Next(blocks, b)].free
      modifies this
      ensures Valid() && Pools(blocks) == Pools(old(blocks)) && Kept(old(mem), mem, Live(old(blocks)))
      ensures Live(blocks) == Live(old(blocks))[b := old(blocks[b].size + blocks[Next(blocks, b)].size + 8)]
    {
      var n := BlockNext(b);
      assert Good(blocks, b) && Good(blocks, n);
      BlockRemove(n, {});
      label removed:
      assert {} + {n} == {n};
      GrowStep(mem, blocks, nb, heads, lists, {n}, b);
      WriteGrow(b, n);
      CoGrow(blocks, nb, b);
      LiveAbsorb(blocks, b);
      PoolsAbsorb(blocks, nb, b);
      blocks := Absorb(blocks, b);
      assert {n} - {n} == {};
      KeepsTrans(old(mem), old@removed(mem), mem, old(blocks), old(blocks));
      KeptLive(old(mem), mem, old(blocks));
    }

    method WriteGrow(b: nat, n: nat)
      requires MemOk(mem, blocks) && Phys(blocks, nb) && b in blocks && n == Next(blocks, b) && n in blocks && blocks[n].size > 0
      modifies this`mem
      ensures mem == GrowMem(old(mem), b, blocks[n].size, Next(blocks, n))
    {
      assert Header(mem, blocks, b) && Header(mem, blocks, n) && Good(blocks, b) && Good(blocks, n);
      WordSize(blocks[n]);
      GrownWord(blocks[b], blocks[n].size);
      var w := Rd(mem, b + 8) + SizeOf(Rd(mem, n + 8)) + 8;
      mem := mem[b + 8 := w];
      assert Rd(mem, b + 8) == w;
      var after := b + 8 + SizeOf(w);
      mem := mem[after := b];
      assert mem == AbsorbMemOf(old(mem), b, blocks[n].size, after);
      MarkUsedWords(b, after);
    }

    /** The memory writes of block_mark_as_used. */
    method MarkUsedWords(b: nat, n: nat)
      requires n > b
      modifies this`mem
      ensures mem == MarkUsedMem(old(mem), b, n)
    {
      mem := mem[n + 8 := WithPrevFree(Rd(mem, n + 8), false)];
      mem := mem[b + 8 := WithFree(Rd(mem, b + 8), false)];
    }

    /** block_split and block_set_prev_used on a block in use, at size 0. */
    method CutUsed(b: nat) returns (r: nat)
      requires Valid() && b in Live(blocks) && CanCut(blocks, b)
      modifies this`mem, this`blocks
      ensures Inv({r}) && r in blocks && blocks[r].free && !blocks[r].pfree && Coalesced(blocks, {r})
      ensures Pools(blocks) == old(CutPools(Pools(blocks), blocks[b].base, b, blocks[b].end))
      ensures Keeps(old(mem), mem, blocks) && Live(blocks) == Live(old(blocks)) - {b}
      ensures b in blocks && !blocks[b].free && blocks[b].size == 0
    {
      assert Header(mem, blocks, b) && Good(blocks, b);
      WordSize(blocks[b]);
      ghost var total := blocks[b].size;
      CutStep(mem, blocks, nb, heads, lists, b);
      CoCut(blocks, nb, b);
      LiveCut(blocks, b);
      PoolsCut(blocks, nb, b);
      r := SplitBlock(b, 0, total);
      mem := mem[r + 8 := WithPrevFree(Rd(mem, r + 8), false)];
      assert mem == TrimUsedMem(old(mem), b, 0, total);
      blocks := Cut(blocks, b);
    }

    /** block_split and block_set_prev_used on a block in use. */
    method SplitUsed(b: nat, size: nat) returns (r: nat)
      requires Valid() && b in Live(blocks) && CanSplit(blocks, b, size)
      modifies this`mem, this`blocks
      ensures Inv({r}) && r in blocks && blocks[r].free && !blocks[r].pfree && Coalesced(blocks, {r})
      ensures Pools(blocks) == Pools(old(blocks)) && Keeps(old(mem), mem, blocks)
      ensures Live(blocks) == Live(old(blocks))[b := size]
    {
      assert Header(mem, blocks, b) && Good(blocks, b);
      WordSize(blocks[b]);
      ghost var total := blocks[b].size;
      SplitStep(mem, blocks, nb, heads, lists, {}, b, size);
      CoSplit(blocks, nb, b, size);
      LiveSplit(blocks, b, size);
      PoolsSplit(blocks, b, size);
      r := SplitBlock(b, size, total);
      mem := mem[r + 8 := WithPrevFree(Rd(mem, r + 8), false)];
      assert mem == TrimUsedMem(old(mem), b, size, total) && {} + {r} == {r};
      blocks := Split(blocks, b, size);
    }

    /** block_trim_used: gives back what a block in use has beyond `size`.  At size 0 the block
        itself goes, and its pool is cut in two. */
    method TrimUsed(b: nat, size: nat)
      requires Valid() && b in Live(blocks) && size % 8 == 0 && (size == 0 || size >= BLOCK_SIZE_MIN)
      modifies this
      ensures Valid() && Kept(old(mem), mem, Live(blocks))
      ensures Live(blocks) == Trimmed(Live(old(blocks)), b, size)
      ensures Pools(blocks) == TrimmedPools(old(blocks), b, size)
      ensures b in blocks && (b !in Live(blocks) ==> blocks[b].size == 0)
    {
      assert Header(mem, blocks, b) && Good(blocks, b);
      WordSize(blocks[b]);
      if SizeOf(Rd(mem, b + 8)) >= 32 + size {
        var r := SplitAt(b, size);
        label split:
        MergeNext(r);
        CoSettled(blocks, nb, r);
        KeepsTrans(old(mem), old@split(mem), mem, old@split(blocks), old@split(blocks));
        label merged:
        BlockInsert(r, {r});
        assert {r} - {r} == {};
        KeepsTrans(old(mem), old@merged(mem), mem, old@split(blocks), blocks);
        KeptLive(old(mem), mem, old@split(blocks));
      } else {
        assert Live(blocks)[b] == blocks[b].size;
      }
    }

    /** The split of a block in use at 0 or at a proper size. */
    method SplitAt(b: nat, size: nat) returns (r: nat)
      requires Valid() && b in Live(blocks) && blocks[b].size >= 32 + size
      requires size % 8 == 0 && (size == 0 || size >= BLOCK_SIZE_MIN)
      modifies this`mem, this`blocks
      ensures Inv({r}) && r in blocks && blocks[r].free && !blocks[r].pfree && Coalesced(blocks, {r})
      ensures Live(blocks) == Trimmed(Live(old(blocks)), b, size)
      ensures Pools(blocks) == TrimmedPools(old(blocks), b, size) && Keeps(old(mem), mem, blocks)
      ensures b in blocks && !blocks[b].free && (size == 0 ==> blocks[b].size == 0)
    {
      if size == 0 {
        r := CutUsed(b);
      } else {
        r := SplitUsed(b, size);
        assert b in Live(blocks);
      }
    }

    /** memcpy of `bytes` bytes from the payload of `b` to that of `q`. */
    method Copy(q: nat, b: nat, bytes: nat)
      requires Valid() && q in Live(blocks) && b in Live(blocks) && q != b
      requires bytes <= Live(blocks)[q] && bytes <= Live(blocks)[b]
      modifies this`mem
      ensures Valid() && Copied(old(mem), b, mem, q, bytes) && Kept(old(mem), mem, Live(blocks) - {q})
    {
      var k, words := 0, bytes / 8;
      while k < words
        invariant 0 <= k <= words && Valid()
        invariant Kept(old(mem), mem, Live(blocks) - {q}) && CopiedWords(old(mem), b, mem, q, k)
      {
        CopyWord(q, b, k, old(mem));
        k := k + 1;
      }
      if bytes % 8 != 0 {
        CopyTail(q, b, k, bytes % 8, old(mem));
      }
    }

    method CopyWord(q: nat, b: nat, k: nat, ghost m0: Mem)
      requires Valid() && q in Live(blocks) && b in Live(blocks) && q != b
      requires 8 * k + 8 <= Live(blocks)[q] && 8 * k + 8 <= Live(blocks)[b]
      requires Kept(m0, mem, Live(blocks) - {q}) && CopiedWords(m0, b, mem, q, k)
      modifies this`mem
      ensures Valid() && Kept(m0, mem, Live(blocks) - {q}) && CopiedWords(m0, b, mem, q, k + 1)
    {
      ghost var m1 := mem;
      KeptWord(m0, m1, Live(blocks) - {q}, b, k);
      SetWord(q, k, PayloadWord(mem, b, k));
      CopiedNext(m0, b, m1, mem, q, k);
      KeptTrans(m0, m1, mem, Live(blocks) - {q});
    }

    method CopyTail(q: nat, b: nat, k: nat, rest: nat, ghost m0: Mem)
      requires Valid() && q in Live(blocks) && b in Live(blocks) && q != b && rest < 8
      requires 8 * k < Live(blocks)[q] && 8 * k < Live(blocks)[b]
      requires Kept(m0, mem, Live(blocks) - {q}) && CopiedWords(m0, b, mem, q, k)
      modifies this`mem
      ensures Valid() && Kept(m0, mem, Live(blocks) - {q}) && CopiedWords(m0, b, mem, q, k)
      ensures SameLow(PayloadWord(mem, q, k), PayloadWord(m0, b, k), rest)
    {
      ghost var m1 := mem;
      assert Good(blocks, q) && Good(blocks, b);
      WholeWord(Live(blocks)[q], k);
      WholeWord(Live(blocks)[b], k);
      KeptWord(m0, m1, Live(blocks) - {q}, b, k);
      SetWord(q, k, MixLow(PayloadWord(mem, q, k), PayloadWord(mem, b, k), rest));
      KeptTrans(m0, m1, mem, Live(blocks) - {q});
      CopiedSame(m0, b, m1, mem, q, k);
    }

    /** One word written to the payload of a block in use. */
    method SetWord(q: nat, k: nat, v: nat)
      requires Valid() && q in Live(blocks) && 8 * k + 8 <= Live(blocks)[q]
      modifies this`mem
      ensures Valid() && PayloadWord(mem, q, k) == v && Kept(old(mem), mem, Live(blocks) - {q})
      ensures forall i {:trigger PayloadWord(mem, q, i)} :: 0 <= i && i != k ==> PayloadWord(mem, q, i) == PayloadWord(old(mem), q, i)
    {
      var a := q + 16 + 8 * k;
      PayloadWrite(mem, blocks, nb, heads, lists, q, a, v);
      mem := mem[a := v];
      forall b, x | b in Live(blocks) - {q} && b + 16 <= x <= b + 8 + Live(blocks)[b] ensures Rd(mem, x) == Rd(old(mem), x) {
        assert InPayload(blocks, b, x);
      }
    }

    /** tlsf_realloc of a block in use. */
    method Resize(ptr: nat, size: Size) returns (p: nat)
      requires Valid() && ptr >= 16 && ptr - 16 in Live(blocks) && size > 0
      modifies this
      ensures Valid() && Reallocated(old(mem), old(blocks), old(lists), mem, blocks, lists, nb, ptr - 16, size, p)
    {
      var b := ptr - 16;
      var n := BlockNext(b);
      assert Header(mem, blocks, b) && Good(blocks, b);
      assert Header(mem, blocks, n) && Good(blocks, n);
      WordSize(blocks[b]);
      WordSize(blocks[n]);
      var cur := SizeOf(Rd(mem, b + 8));
      var combined := cur + SizeOf(Rd(mem, n + 8)) + 8;
      var adjust := Adjust(size);
      if adjust > cur && (!IsFree(Rd(mem, n + 8)) || adjust > combined) {
        p := Move(ptr, size);
        MoveReallocates(old(mem), old(blocks), old(lists), mem, blocks, lists, nb, b, size, p);
      } else {
        InPlace(b, adjust, adjust > cur);
        p := ptr;
        StayReallocates(old(mem), old(blocks), old(lists), mem, blocks, lists, nb, b, size);
      }
    }

    /** The part of tlsf_realloc that keeps the block, taking in the free one after it if the
        block must grow. */
    method InPlace(b: nat, adjust: nat, grow: bool)
      requires Valid() && b in Live(blocks) && adjust % 8 == 0 && (adjust == 0 || adjust >= BLOCK_SIZE_MIN)
      requires grow <==> adjust > Live(blocks)[b]
      requires FitsHere(blocks, b, adjust)
      modifies this
      ensures Valid() && Pools(blocks) == TrimmedPools(old(blocks), b, adjust)
      ensures Stayed(old(mem), mem, Live(old(blocks)), Live(blocks), b, adjust, old(Joint(blocks, b, adjust)))
      ensures b !in Live(blocks) ==> NotInUse(mem, nb, b)
    {
      assert Good(blocks, b);
      if grow { Grow(b); }
      label grown:
      assert b in Live(blocks);
      assert Good(blocks, b);
      TrimUsed(b, adjust);
      if b !in Live(blocks) { SentinelFixed(mem, blocks, nb, b); }
      StayedBy(old(mem), old@grown(mem), mem, Live(old(blocks)), old@grown(Live(blocks)), b, adjust);
    }

    /** The part of tlsf_realloc that allocates, copies and frees. */
    method Move(ptr: nat, size: Size) returns (p: nat)
      requires Valid() && ptr >= 16 && ptr - 16 in Live(blocks) && size <= NO_WRAP
      modifies this
      ensures Valid() && Pools(blocks) == Pools(old(blocks))
      ensures Relocated(old(mem), old(blocks), old(lists), mem, blocks, lists, ptr - 16, size, p)
    {
      ghost var live0 := Live(blocks);
      p := Malloc(size);
      if p != 0 {
        MoveTo(ptr, p, size, live0, old(mem));
      }
    }

    /** The copying half of a move: `p` has just been allocated beside `live`. */
    method MoveTo(ptr: nat, p: nat, size: nat, ghost live: map<nat, nat>, ghost m0: Mem)
      requires Valid() && ptr >= 16 && p >= 16 && ptr - 16 in live && p - 16 !in live && p - 16 in Live(blocks)
      requires Live(blocks) == live[p - 16 := Live(blocks)[p - 16]] && size <= Live(blocks)[p - 16]
      requires Kept(m0, mem, live)
      modifies this
      ensures Valid() && Pools(blocks) == Pools(old(blocks))
      ensures Resized(m0, mem, live, Live(blocks), ptr - 16, p - 16, size)
      ensures Live(blocks)[p - 16] == Live(old(blocks))[p - 16] && Kept(m0, mem, live - {ptr - 16})
    {
      var b, q := ptr - 16, p - 16;
      ghost var m1, n := mem, Live(blocks)[q];
      assert b in Live(blocks) && Live(blocks)[b] == live[b];
      assert Header(mem, blocks, b) && Good(blocks, b) && Good(blocks, q);
      WordSize(blocks[b]);
      var minsize := Min(SizeOf(Rd(mem, b + 8)), size);
      Copy(q, b, minsize);
      ghost var m2 := mem;
      Beside(live, q, n, b);
      Free(ptr);
      MoveKept(m0, m1, m2, mem, live, b, q, n, minsize);
    }

    /** tlsf_realloc. */
    method Realloc(ptr: nat, size: Size) returns (p: nat)
      requires Valid() && (ptr != 0 ==> ptr >= 16 && ptr - 16 in Live(blocks))
      modifies this
      ensures Valid()
      ensures ptr == 0 ==> Served(old(mem), old(blocks), old(lists), mem, blocks, lists, size, p)
      ensures ptr != 0 && size == 0 ==>
        p == 0 && Pools(blocks) == Pools(old(blocks)) && Live(blocks) == Live(old(blocks)) - {ptr - 16} && Kept(old(mem), mem, Live(blocks))
      ensures ptr != 0 && size != 0 ==> Reallocated(old(mem), old(blocks), old(lists), mem, blocks, lists, nb, ptr - 16, size, p)
    {
      p := 0;
      if ptr != 0 && size == 0 {
        Free(ptr);
      } else if ptr == 0 {
        p := Malloc(size);
      } else {
        p := Resize(ptr, size);
      }
    }

    // ---- the allocator's own checks ------------------------------------------------

    /** tlsf_check_pool on any memory in which the walk from the pool's first header comes to
        a sentinel: minus the number of headers whose prev-free bit disagrees with the block
        before them. */
    method CheckPool(pool: nat, ghost w: seq<nat>) returns (status: int)
      requires pool >= 8 && Trail(mem, pool - 8, w)
      ensures status == -|Mismatches(mem, w)|
    {
      var b, prevStatus := pool - 8, false;
      status := 0;
      ghost var i := 0;
      while SizeOf(Rd(mem, b + 8)) != 0
        invariant 0 <= i < |w| && b == w[i] && status == -|MismatchesBelow(mem, w, i)|
        invariant prevStatus == (i > 0 && IsFree(Rd(mem, w[i - 1] + 8)))
        decreases |w| - i
      {
        assert Onward(mem, w, i);
        MismatchNext(mem, w, i);
        if prevStatus != IsPrevFree(Rd(mem, b + 8)) {
          status := status - 1;
        }
        prevStatus := IsFree(Rd(mem, b + 8));
        b := b + 8 + SizeOf(Rd(mem, b + 8));
        i := i + 1;
      }
      assert i < |w| - 1 ==> Onward(mem, w, i);
    }

    /** The body of tlsf_check for one listed block: the number of violated conditions. */
    method CheckBlock(b: nat, c: nat) returns (bad: nat)
      ensures bad == 0 <==> ListedOk(mem, b, c)
    {
      var n := b + 8 + SizeOf(Rd(mem, b + 8));
      bad := 0;
      if !IsFree(Rd(mem, b + 8)) { bad := bad + 1; }
      if IsPrevFree(Rd(mem, b + 8)) { bad := bad + 1; }
      if IsFree(Rd(mem, n + 8)) { bad := bad + 1; }
      if !IsPrevFree(Rd(mem, n + 8)) { bad := bad + 1; }
      if SizeOf(Rd(mem, b + 8)) < BLOCK_SIZE_MIN { bad := bad + 1; }
      if Class(SizeOf(Rd(mem, b + 8))) != c { bad := bad + 1; }
    }

    /** tlsf_check on any memory in which each list that the bitmap names comes to block_null:
        0 exactly if bitmaps, lists and listed blocks are as they should be. */
    method Check(ghost chains: seq<seq<nat>>) returns (status: int)
      requires |heads| == CLASSES && |sl| == FL_INDEX_COUNT && Followed(mem, nb, sl, heads, chains)
      ensures status <= 0 && (status == 0 <==> forall c {:trigger ClassOk(mem, nb, fl, sl, heads, chains, c)} ::
                                0 <= c < CLASSES ==> ClassOk(mem, nb, fl, sl, heads, chains, c))
    {
      status := 0;
      for c := 0 to CLASSES
        invariant status <= 0 && (status == 0 <==> forall d {:trigger ClassOk(mem, nb, fl, sl, heads, chains, d)} ::
                                    0 <= d < c ==> ClassOk(mem, nb, fl, sl, heads, chains, d))
      {
        ghost var status0 := status;
        var bad := CheckClass(c, chains);
        status := status - bad;
      }
    }

    /** One round of the loops of tlsf_check: the number of violated conditions. */
    method CheckClass(c: nat, ghost chains: seq<seq<nat>>) returns (bad: nat)
      requires |heads| == CLASSES && |sl| == FL_INDEX_COUNT && Followed(mem, nb, sl, heads, chains) && c < CLASSES
      ensures bad == 0 <==> ClassOk(mem, nb, fl, sl, heads, chains, c)
    {
      bad := 0;
      var flMap, slMap, block := Bit(fl, c / 32), Bit(sl[c / 32], c % 32), heads[c];
      if !flMap && slMap { bad := bad + 1; }
      if !slMap {
        if block != nb { bad := bad + 1; }
        return;
      }
      if sl[c / 32] == 0 { bad := bad + 1; }
      if block == nb { bad := bad + 1; }
      assert Follows(mem, nb, sl, heads, chains, c);
      var more := CheckList(c, block, chains[c]);
      bad := bad + more;
    }

    /** The inner loop of tlsf_check. */
    method CheckList(c: nat, head: nat, ghost L: seq<nat>) returns (bad: nat)
      requires head == At(nb, L, 0) && nb !in L && forall i :: 0 <= i < |L| ==> NextFree(mem, L[i]) == At(nb, L, i + 1)
      ensures bad == 0 <==> AllListed(mem, L, |L|, c)
    {
      bad := 0;
      var block := head;
      ghost var i := 0;
      forall j | 0 <= j < |L| ensures L[j] != nb { assert L[j] in L; }
      while block != nb
        invariant 0 <= i <= |L| && block == At(nb, L, i)
        invariant bad == 0 <==> AllListed(mem, L, i, c)
        decreases |L| - i
      {
        ListedNext(mem, L, i, c);
        var more := CheckBlock(block, c);
        bad := bad + more;
        block := NextFree(mem, block);
        i := i + 1;
      }
    }
  }

  // ---- what the checks look at -----------------------------------------------------------

  /** The header after `w[i]`, by its size word, is `w[i + 1]`. */
  ghost predicate Onward(m: Mem, w: seq<nat>, i: int)
    requires 0 <= i < |w| - 1
  {
    SizeOf(Rd(m, w[i] + 8)) != 0 && w[i + 1] == w[i] + 8 + SizeOf(Rd(m, w[i] + 8))
  }

  /** The headers met from `b` on, up to one of size 0. */
  ghost predicate Trail(m: Mem, b: nat, w: seq<nat>) {
    && w != [] && w[0] == b && SizeOf(Rd(m, w[|w| - 1] + 8)) == 0
    && forall i {:trigger Onward(m, w, i)} :: 0 <= i < |w| - 1 ==> Onward(m, w, i)
  }

  /** The prev-free bit of `w[i]` is not the free bit of the block before it. */
  predicate Mismatch(m: Mem, w: seq<nat>, i: nat)
    requires i < |w|
  {
    IsPrevFree(Rd(m, w[i] + 8)) != (i > 0 && IsFree(Rd(m, w[i - 1] + 8)))
  }

  ghost function MismatchesBelow(m: Mem, w: seq<nat>, n: nat): set<nat>
    requires n <= |w|
  {
    set i: nat | i < n && Mismatch(m, w, i)
  }

  /** The walk does not look at the bits of the sentinel. */
  ghost function Mismatches(m: Mem, w: seq<nat>): set<nat>
    requires w != []
  {
    MismatchesBelow(m, w, |w| - 1)
  }

  lemma MismatchNext(m: Mem, w: seq<nat>, n: nat)
    requires n < |w|
    ensures |MismatchesBelow(m, w, n + 1)| == |MismatchesBelow(m, w, n)| + if Mismatch(m, w, n) then 1 else 0
  {
    assert MismatchesBelow(m, w, n + 1) == MismatchesBelow(m, w, n) + if Mismatch(m, w, n) then {n} else {};
  }

  /** What tlsf_check asks of a block on list `c`: free between two blocks in use, the one
      after it knowing so, not too small and on the list of its class. */
  predicate ListedOk(m: Mem, b: nat, c: nat) {
    var size := SizeOf(Rd(m, b + 8));
    var n := b + 8 + size;
    && IsFree(Rd(m, b + 8)) && !IsPrevFree(Rd(m, b + 8)) && !IsFree(Rd(m, n + 8)) && IsPrevFree(Rd(m, n + 8))
    && size >= BLOCK_SIZE_MIN && Class(size) == c
  }

  ghost predicate AllListed(m: Mem, L: seq<nat>, n: nat, c: nat)
    requires n <= |L|
  {
    forall j :: 0 <= j < n ==> ListedOk(m, L[j], c)
  }

  lemma ListedNext(m: Mem, L: seq<nat>, n: nat, c: nat)
    requires n < |L|
    ensures AllListed(m, L, n + 1, c) <==> AllListed(m, L, n, c) && ListedOk(m, L[n], c)
  {
  }

  /** `chains[c]` is what following next_free from the head of list `c` meets. */
  ghost predicate Follows(m: Mem, nb: nat, sl: seq<nat>, heads: seq<nat>, chains: seq<seq<nat>>, c: nat)
    requires |heads| == CLASSES && |sl| == FL_INDEX_COUNT && |chains| == CLASSES && c < CLASSES
  {
    var L := chains[c];
    Bit(sl[c / 32], c % 32) ==>
      && heads[c] == At(nb, L, 0) && nb !in L
      && forall i :: 0 <= i < |L| ==> NextFree(m, L[i]) == At(nb, L, i + 1)
  }

  ghost predicate Followed(m: Mem, nb: nat, sl: seq<nat>, heads: seq<nat>, chains: seq<seq<nat>>) {
    && |heads| == CLASSES && |sl| == FL_INDEX_COUNT && |chains| == CLASSES
    && forall c {:trigger Follows(m, nb, sl, heads, chains, c)} :: 0 <= c < CLASSES ==> Follows(m, nb, sl, heads, chains, c)
  }

  /** Second-level bit, first-level bit and list `c` agree, and its blocks are as they should be. */
  ghost predicate ClassOk(m: Mem, nb: nat, fl: nat, sl: seq<nat>, heads: seq<nat>, chains: seq<seq<nat>>, c: nat)
    requires |heads| == CLASSES && |sl| == FL_INDEX_COUNT && |chains| == CLASSES && c < CLASSES
  {
    if Bit(sl[c / 32], c % 32) then
      Bit(fl, c / 32) && sl[c / 32] != 0 && heads[c] != nb && AllListed(m, chains[c], |chains[c]|, c)
    else heads[c] == nb
  }

  /** tlsf_check reports no error on a valid heap: its lists are what it follows, and every
      class is as it should be. */
  lemma CheckPasses(m: Mem, B: Blocks, nb: nat, fl: nat, sl: seq<nat>, heads: seq<nat>, lists: Lists, c: nat)
    requires State(m, B, nb, heads, lists, {}) && Mapped(fl, sl, lists) && Coalesced(B, {}) && c < CLASSES
    ensures Follows(m, nb, sl, heads, lists, c) && ClassOk(m, nb, fl, sl, heads, lists, c)
  {
    assert Summary(fl, sl, c / 32) && Marked(sl, lists, c) && Chain(m, nb, heads, lists, c) && Entry(B, lists, {}, c);
    if sl[c / 32] == 0 { ZeroBit(c % 32); }
    forall j | 0 <= j < |lists[c]|
      ensures ListedOk(m, lists[c][j], c) && lists[c][j] != nb && NextFree(m, lists[c][j]) == At(nb, lists[c], j + 1)
    {
      assert lists[c][j] in lists[c] && Links(m, nb, lists[c], j);
      ListSpaced(B, nb, lists, {}, c, lists[c][j]);
      ListedPasses(m, B, nb, lists[c][j], c);
    }
  }

  lemma ListedPasses(m: Mem, B: Blocks, nb: nat, b: nat, c: nat)
    requires Phys(B, nb) && MemOk(m, B) && Coalesced(B, {}) && b in B && B[b].free && Class(B[b].size) == c
    ensures ListedOk(m, b, c)
  {
    assert Header(m, B, b) && Good(B, b) && Alone(B, b);
    var n := Next(B, b);
    assert Header(m, B, n) && Good(B, n);
    WordSize(B[b]);
    WordSize(B[n]);
    NotAfterFree(m, B, nb, b);
  }

  /** tlsf_check_pool reports no error on a valid heap: it walks over the blocks of the pool
      and finds no mismatch. */
  lemma PoolPasses(m: Mem, B: Blocks, nb: nat, base: nat)
    requires Phys(B, nb) && MemOk(m, B) && base in B && B[base].base == base
    ensures var w := Walk(B, nb, base); Trail(m, base, w) && Mismatches(m, w) == {}
  {
    var w := Walk(B, nb, base);
    WalkPath(B, nb, base);
    forall i: nat | i < |w| ensures !Mismatch(m, w, i) { TrailAt(m, B, nb, base, w, i); }
    forall i | 0 <= i < |w| - 1 ensures Onward(m, w, i) { TrailAt(m, B, nb, base, w, i); }
    TrailAt(m, B, nb, base, w, |w| - 1);
  }

  lemma {:induction false} PathBase(B: Blocks, b: nat, w: seq<nat>, i: nat)
    requires Path(B, b, w) && i < |w|
    ensures w[i] in B && B[w[i]].base == B[b].base
  {
    if i > 0 {
      PathBase(B, b, w, i - 1);
      assert Step(B, w, i - 1);
    }
  }

  /** A header of the path is a sentinel exactly if it is the last one. */
  lemma PathEnd(B: Blocks, nb: nat, b: nat, w: seq<nat>, i: nat)
    requires Phys(B, nb) && Path(B, b, w) && i < |w|
    ensures w[i] in B && (B[w[i]].size == 0 <==> i == |w| - 1)
  {
    PathBase(B, b, w, i);
    assert Good(B, b) && Good(B, w[i]);
    if i < |w| - 1 {
      PathBase(B, b, w, i + 1);
      assert Step(B, w, i);
      assert Good(B, w[i + 1]);
    }
  }

  lemma TrailAt(m: Mem, B: Blocks, nb: nat, base: nat, w: seq<nat>, i: nat)
    requires Phys(B, nb) && MemOk(m, B) && base in B && B[base].base == base && Path(B, base, w) && i < |w|
    ensures w[i] in B && SizeOf(Rd(m, w[i] + 8)) == B[w[i]].size && !Mismatch(m, w, i)
    ensures i < |w| - 1 ==> Onward(m, w, i)
    ensures i == |w| - 1 ==> B[w[i]].size == 0
  {
    PathEnd(B, nb, base, w, i);
    assert Header(m, B, w[i]) && Good(B, w[i]);
    WordSize(B[w[i]]);
    if i < |w| - 1 { assert Step(B, w, i); }
    if i > 0 {
      assert Step(B, w, i - 1);
      assert Header(m, B, w[i - 1]) && Good(B, w[i - 1]);
      PathEnd(B, nb, base, w, i - 1);
      WordSize(B[w[i - 1]]);
    }
  }

  /** A free block is not preceded by a free block. */
  lemma NotAfterFree(m: Mem, B: Blocks, nb: nat, b: nat)
    requires Phys(B, nb) && MemOk(m, B) && Coalesced(B, {}) && b in B && B[b].free
    ensures !B[b].pfree
  {
    assert Header(m, B, b);
    var p := if B[b].pfree then Rd(m, b) else b;
    assert Good(B, p) && Alone(B, p);
  }

  // ---- tiling ----------------------------------------------------------------------

  /** The headers from `b` to the end of its pool. */
  ghost function Walk(B: Blocks, nb: nat, b: nat): seq<nat>
    requires Phys(B, nb) && b in B
    decreases B[b].end - b
  {
    assert Good(B, b);
    if B[b].size == 0 then [b] else
      assert Good(B, Next(B, b));
      [b] + Walk(B, nb, Next(B, b))
  }

  /** The bytes of the blocks of a walk, headers included. */
  ghost function Bytes(B: Blocks, w: seq<nat>): nat
    requires forall b :: b in w ==> b in B
  {
    if w == [] then 0 else B[w[0]].size + 8 + Bytes(B, w[1..])
  }

  /** Consecutive headers of one pool, from `b` to the sentinel, without gaps. */
  ghost predicate Path(B: Blocks, b: nat, w: seq<nat>) {
    && w != [] && w[0] == b && b in B && w[|w| - 1] == B[b].end
    && (forall i {:trigger Step(B, w, i)} :: 0 <= i < |w| - 1 ==> Step(B, w, i))
  }

  ghost predicate Step(B: Blocks, w: seq<nat>, i: int)
    requires 0 <= i < |w| - 1
  {
    w[i] in B && w[i + 1] in B && w[i + 1] == Next(B, w[i]) && B[w[i + 1]].base == B[w[i]].base
  }

  lemma {:induction false} WalkPath(B: Blocks, nb: nat, b: nat)
    requires Phys(B, nb) && b in B
    ensures Path(B, b, Walk(B, nb, b))
    decreases B[b].end - b
  {
    assert Good(B, b);
    if B[b].size > 0 {
      var n := Next(B, b);
      assert Good(B, n);
      WalkPath(B, nb, n);
      var w := Walk(B, nb, n);
      forall i | 0 <= i < |w| ensures Step(B, [b] + w, i) {
        if i > 0 { assert Step(B, w, i - 1); }
      }
    }
  }

  /** Walking meets every later block of the pool, and only blocks. */
  lemma {:induction false} WalkAll(B: Blocks, nb: nat, b: nat, c: nat)
    requires Phys(B, nb) && b in B
    ensures c in Walk(B, nb, b) <==> c in B && c >= b && B[c].base == B[b].base
    decreases B[b].end - b
  {
    assert Good(B, b);
    if c in B { assert Good(B, c) && Good(B, B[b].base); }
    if B[b].size > 0 {
      var n := Next(B, b);
      assert Good(B, n);
      WalkAll(B, nb, n, c);
      if c in B && c > b { assert Before(B, b, c); }
    }
  }

  lemma {:induction false} WalkBytes(B: Blocks, nb: nat, b: nat)
    requires Phys(B, nb) && b in B
    ensures (forall c :: c in Walk(B, nb, b) ==> c in B) && Bytes(B, Walk(B, nb, b)) == B[b].end - b + 8
    decreases B[b].end - b
  {
    assert Good(B, b);
    forall c | c in Walk(B, nb, b) ensures c in B { WalkAll(B, nb, b, c); }
    if B[b].size > 0 {
      var n := Next(B, b);
      assert Good(B, n);
      WalkBytes(B, nb, n);
      assert Walk(B, nb, b)[1..] == Walk(B, nb, n);
    } else {
      assert Walk(B, nb, b)[1..] == [];
    }
  }

  /** Every pool is tiled by its blocks: walking from its first header steps from block to
      adjacent block, meets exactly the blocks of the pool, ends at the sentinel, and the
      sizes with their headers add up to the bytes of the pool. */
  lemma PoolTiled(B: Blocks, nb: nat, base: nat, end: nat)
    requires Phys(B, nb) && (base, end) in Pools(B)
    ensures base in B && B[base].end == end && Path(B, base, Walk(B, nb, base))
    ensures forall c :: c in Walk(B, nb, base) <==> c in B && B[c].base == base
    ensures Bytes(B, Walk(B, nb, base)) == end - base + 8
  {
    var b :| b in B && (B[b].base, B[b].end) == (base, end);
    assert Good(B, b) && Good(B, base);
    WalkPath(B, nb, base);
    WalkBytes(B, nb, base);
    forall c ensures c in Walk(B, nb, base) <==> c in B && B[c].base == base {
      WalkAll(B, nb, base, c);
      if c in B { assert Good(B, c); }
    }
  }

  // ---- a request that wraps --------------------------------------------------------------

  /** Any free block serves the smallest request. */
  lemma SmallestServed(B: Blocks, nb: nat, lists: Lists, b: nat)
    requires Phys(B, nb) && Indexed(B, lists, {}) && b in B && B[b].free
    ensures !NoneIn(lists, SearchClass(BLOCK_SIZE_MIN), CLASSES)
  {
    assert Good(B, b) && Filed(B, lists, {}, b);
    var c := Class(B[b].size);
    assert SearchClass(BLOCK_SIZE_MIN) == 3 && ClassMin(3) == BLOCK_SIZE_MIN;
    if c < 3 { ClassMinMono(c + 1, 3); }
    assert lists[c] != [];
  }

  /** Where nothing is in use the first block of a pool is free. */
  lemma PoolStarts(B: Blocks, nb: nat, b: nat, e: nat)
    requires Phys(B, nb) && Live(B) == map[] && (b, e) in Pools(B) && e != b
    ensures b in B && B[b].free
  {
    var x :| x in B && (B[x].base, B[x].end) == (b, e);
    assert Good(B, x) && Good(B, b);
    assert b !in Live(B);
  }

  /** A heap of one small pool serves a request of 2^64 - 1 bytes. */
  method WrappedRequest() returns (h: Heap, ptr: nat)
    ensures fresh(h) && h.Valid() && ptr >= 16 && ptr - 16 in Live(h.blocks)
    ensures Live(h.blocks)[ptr - 16] < 56 && forall p :: p in Pools(h.blocks) ==> p == (1016, 1280)
  {
    h := new Heap(0);
    var ok := h.AddPool(1024, 272);
    assert PoolBytes(272) == 256;
    assert Pools(map[]) == {} && Live(map[]) == map[];
    assert (1016, 1280) in Pools(h.blocks);
    PoolStarts(h.blocks, h.nb, 1016, 1280);
    SmallestServed(h.blocks, h.nb, h.lists, 1016);
    ptr := h.Malloc(0xFFFF_FFFF_FFFF_FFFF);
  }
}
