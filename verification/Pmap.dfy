/**
  `pmap_map`, `pmap_unmap`, `pmap_extract` and `pmap_destroy` of
  `kernel/arch/x86_64/pmap.c`, as methods on the page tables of one address space.

  `avail` is the set of frames that `pmm_alloc_pages(0)` can still hand out; an allocation
  fails exactly when it is empty.  Addresses are bytes, pages and frames are numbered.
 */
module Pmap {
  import opened PageTree

  /** The PROT_* flags of a 4 KiB mapping. */
  datatype Flags = Flags(write: bool, user: bool, exec: bool, wide: bool, wc: bool)

  const USER_BYTES: nat := 0x8000_0000_0000
  const FRAMES: nat := 0x100_0000_0000 // PTE_ADDR_MASK keeps 40 bits of frame number

  /** The leaf entry for frame number `p`. */
  function LeafEntry(p: nat, flags: Flags): Entry {
    Entry(true, p % FRAMES, Prot(flags.write, flags.user, flags.wide, !flags.exec, flags.wc))
  }

  function FirstPage(virt: nat): nat { virt / PAGE_SIZE }

  function EndPage(virt: nat, size: nat): nat { (virt + size + PAGE_SIZE - 1) / PAGE_SIZE }

  /** The pages of the rounded range are those that meet the bytes [virt, virt + size). */
  lemma RangePages(virt: nat, size: nat, v: nat)
    requires size > 0
    ensures FirstPage(virt) <= v < EndPage(virt, size) <==> PAGE_SIZE * v < virt + size && virt < PAGE_SIZE * v + PAGE_SIZE
  {
  }

  /** An entry maps frame `p` with the permissions of `flags`, bit by bit. */
  predicate Maps(e: Entry, p: nat, flags: Flags) {
    && e.present && e.frame == p % FRAMES
    && (e.prot.write <==> flags.write) && (e.prot.user <==> flags.user) && (e.prot.noExec <==> !flags.exec)
    && (e.prot.wide <==> flags.wide) && (e.prot.pat <==> flags.wc)
  }

  /** Pages [a, m) map consecutive frames from `p` on with the permissions of `flags`. */
  ghost predicate RangeMaps(M: Tables, D: Dir, a: nat, m: nat, p: nat, flags: Flags) {
    forall v: nat {:trigger Get(M, D, v)} :: a <= v < m ==> Maps(Get(M, D, v), p + (v - a), flags)
  }

  /** Every page maps what it did, or what a map over pages [a, b) that got to page `m` gives. */
  ghost predicate ViewIs(M0: Tables, D0: Dir, M: Tables, D: Dir, a: nat, m: nat, p: nat, flags: Flags) {
    forall v: nat {:trigger ViewAt(M0, D0, M, D, a, m, p, flags, v)} :: ViewAt(M0, D0, M, D, a, m, p, flags, v)
  }

  ghost predicate ViewAt(M0: Tables, D0: Dir, M: Tables, D: Dir, a: nat, m: nat, p: nat, flags: Flags, v: nat) {
    Get(M, D, v) == MapView(Get(M0, D0, v), v, a, m, p, flags)
  }

  lemma ViewMaps(M0: Tables, D0: Dir, M: Tables, D: Dir, a: nat, m: nat, p: nat, flags: Flags)
    requires ViewIs(M0, D0, M, D, a, m, p, flags)
    ensures RangeMaps(M, D, a, m, p, flags)
  {
    forall v: nat | a <= v < m ensures Maps(Get(M, D, v), p + (v - a), flags) {
      assert ViewAt(M0, D0, M, D, a, m, p, flags, v);
    }
  }

  /** How many tables page `v` still lacks. */
  function Missing(D: Dir, v: nat): nat {
    (if PdptOf(v) in D then 0 else 1) + (if PdOf(v) in D then 0 else 1) + (if PtOf(v) in D then 0 else 1)
  }

  /** What a call of `pmap_map` over pages [a, b) leaves behind when it got to page `m`. */
  function MapView(before: Entry, v: nat, a: nat, m: nat, p: nat, flags: Flags): Entry {
    if a <= v < m then LeafEntry(p + (v - a), flags) else before
  }

  lemma RangeOk(virt: nat, size: nat)
    requires virt + size <= USER_BYTES
    ensures FirstPage(virt) <= EndPage(virt, size) <= USER_PAGES
    ensures size > 0 ==> FirstPage(virt) < EndPage(virt, size)
  {
  }

  // ---- frames are neither lost nor made ---------------------------------------------------

  ghost predicate FrameKept(M: Tables, A: set<Frame>, M': Tables, A': set<Frame>, f: Frame) {
    f in M || f in A <==> f in M' || f in A'
  }

  /** The frames in use for tables or available are the same. */
  ghost predicate SameFrames(M: Tables, A: set<Frame>, M': Tables, A': set<Frame>) {
    forall f {:trigger FrameKept(M, A, M', A', f)} :: FrameKept(M, A, M', A', f)
  }

  lemma FramesRefl(M: Tables, A: set<Frame>)
    ensures SameFrames(M, A, M, A)
  {
    forall f ensures FrameKept(M, A, M, A, f) {}
  }

  lemma FramesTrans(M: Tables, A: set<Frame>, M': Tables, A': set<Frame>, M'': Tables, A'': set<Frame>)
    requires SameFrames(M, A, M', A') && SameFrames(M', A', M'', A'')
    ensures SameFrames(M, A, M'', A'')
  {
    forall f ensures FrameKept(M, A, M'', A'', f) {
      assert FrameKept(M, A, M', A', f) && FrameKept(M', A', M'', A'', f);
    }
  }

  lemma FramesAre(M: Tables, A: set<Frame>, M': Tables, A': set<Frame>)
    requires M.Keys + A == M'.Keys + A'
    ensures SameFrames(M, A, M', A')
  {
    forall f ensures FrameKept(M, A, M', A', f) {
      assert f in M || f in A <==> f in M.Keys + A;
      assert f in M' || f in A' <==> f in M'.Keys + A';
    }
  }

  lemma FramesEqual(M: Tables, A: set<Frame>, M': Tables, A': set<Frame>)
    requires SameFrames(M, A, M', A')
    ensures M.Keys + A == M'.Keys + A'
  {
    forall f ensures f in M.Keys + A <==> f in M'.Keys + A' { assert FrameKept(M, A, M', A', f); }
  }

  // ---- the tables a range needs ---------------------------------------------------------

  /** `n` is a table over page `v`, or over one of the pages [a, b). */
  predicate Over(n: Node, v: nat) { n == PdptOf(v) || n == PdOf(v) || n == PtOf(v) }

  ghost predicate OverRange(n: Node, a: nat, b: nat) { exists v: nat :: a <= v < b && Over(n, v) }

  /** `n` has to be made for page `v` when the pages [a, v) have been mapped. */
  predicate New(D: Dir, n: Node, before: Node, first: bool) { n !in D && (first || before != n) }

  function NewAt(D: Dir, a: nat, v: nat): nat {
    var first, u := v <= a, if v > 0 then v - 1 else 0;
    (if New(D, PdptOf(v), PdptOf(u), first) then 1 else 0)
    + (if New(D, PdOf(v), PdOf(u), first) then 1 else 0)
    + (if New(D, PtOf(v), PtOf(u), first) then 1 else 0)
  }

  /** How many of the tables over [a, b) do not exist. */
  function Lacking(D: Dir, a: nat, b: nat): nat
    decreases b
  {
    if b <= a then 0 else Lacking(D, a, b - 1) + NewAt(D, a, b - 1)
  }

  /** Where a map over [a, b) with `n` frames to spare ends. */
  ghost predicate MapEnds(D: Dir, n: nat, a: nat, b: nat, m: nat, ok: bool) {
    && a <= m <= b && (ok <==> m == b) && (ok <==> Lacking(D, a, b) <= n)
    && Lacking(D, a, m) <= n && (!ok ==> Lacking(D, a, m + 1) > n)
  }

  lemma {:induction false} LackingMono(D: Dir, a: nat, v: nat, b: nat)
    requires v <= b
    ensures Lacking(D, a, v) <= Lacking(D, a, b)
    decreases b
  {
    if v < b { LackingMono(D, a, v, b - 1); }
  }

  /** Regions only grow with the page, so a table over an earlier page of the range is over the
      page before. */
  lemma OverBefore(a: nat, v: nat)
    ensures OverRange(PdptOf(v), a, v) <==> a < v && PdptOf(v - 1) == PdptOf(v)
    ensures OverRange(PdOf(v), a, v) <==> a < v && PdOf(v - 1) == PdOf(v)
    ensures OverRange(PtOf(v), a, v) <==> a < v && PtOf(v - 1) == PtOf(v)
  {
    if a < v {
      assert Over(PdptOf(v - 1), v - 1) && Over(PdOf(v - 1), v - 1) && Over(PtOf(v - 1), v - 1);
    }
    forall w: nat | a <= w < v
      ensures Over(PdptOf(v), w) ==> PdptOf(v - 1) == PdptOf(v)
      ensures Over(PdOf(v), w) ==> PdOf(v - 1) == PdOf(v)
      ensures Over(PtOf(v), w) ==> PtOf(v - 1) == PtOf(v)
    {
      DivOrder(w, v - 1, v);
    }
  }

  lemma DivOrder(x: nat, y: nat, z: nat)
    requires x <= y <= z
    ensures PtOf(x).region <= PtOf(y).region <= PtOf(z).region
    ensures PdOf(x).region <= PdOf(y).region <= PdOf(z).region
    ensures PdptOf(x).region <= PdptOf(y).region <= PdptOf(z).region
  {
  }

  /** The tables over [a, b) that do not exist. */
  ghost predicate AreLacking(N: set<Node>, D: Dir, a: nat, b: nat) {
    forall n {:trigger IsLacking(N, D, a, b, n)} :: IsLacking(N, D, a, b, n)
  }

  ghost predicate IsLacking(N: set<Node>, D: Dir, a: nat, b: nat, n: Node) { n in N <==> n !in D && OverRange(n, a, b) }

  /** Counting new tables page by page counts the tables that do not exist. */
  lemma {:induction false} LackingIsCount(D: Dir, a: nat, b: nat, N: set<Node>)
    requires AreLacking(N, D, a, b)
    ensures |N| == Lacking(D, a, b)
    decreases b
  {
    if b <= a {
      forall n ensures n !in N { assert IsLacking(N, D, a, b, n); }
      assert N == {};
    } else {
      var v: nat := b - 1;
      var N0 := set n | n in N && OverRange(n, a, v);
      forall n ensures IsLacking(N0, D, a, v, n) {
        assert IsLacking(N, D, a, b, n);
        assert OverRange(n, a, v) ==> OverRange(n, a, b);
      }
      LackingIsCount(D, a, v, N0);
      LackingNext(D, a, v, N0, N);
    }
  }

  lemma LackingNext(D: Dir, a: nat, v: nat, N0: set<Node>, N: set<Node>)
    requires a <= v && AreLacking(N0, D, a, v) && AreLacking(N, D, a, v + 1)
    ensures |N| == |N0| + NewAt(D, a, v)
  {
    var x, y, z, b := PdptOf(v), PdOf(v), PtOf(v), v + 1;
    OverBefore(a, v);
    assert IsLacking(N0, D, a, v, x) && IsLacking(N0, D, a, v, y) && IsLacking(N0, D, a, v, z);
    forall n ensures n in N <==> n in N0 || (n !in D && (n == x || n == y || n == z)) {
      assert IsLacking(N0, D, a, v, n) && IsLacking(N, D, a, b, n);
      NextOver(n, a, v);
    }
    ThreeMore(N0, N, x, y, z, x !in D, y !in D, z !in D);
  }

  lemma NextOver(n: Node, a: nat, v: nat)
    requires a <= v
    ensures OverRange(n, a, v + 1) <==> OverRange(n, a, v) || Over(n, v)
  {
    assert v < v + 1;
  }

  lemma ThreeMore<T(!new)>(N0: set<T>, N: set<T>, x: T, y: T, z: T, p: bool, q: bool, r: bool)
    requires x != y && y != z && x != z
    requires forall n :: n in N <==> n in N0 || (n == x && p) || (n == y && q) || (n == z && r)
    ensures |N| == |N0| + (if p && x !in N0 then 1 else 0) + (if q && y !in N0 then 1 else 0) + (if r && z !in N0 then 1 else 0)
  {
    var N1 := With(N0, x, p);
    var N2 := With(N1, y, q);
    var N3 := With(N2, z, r);
    assert y in N1 <==> y in N0;
    assert z in N2 <==> z in N0;
    forall n ensures n in N <==> n in N3 {}
    assert N == N3;
  }

  ghost function With<T(!new)>(N: set<T>, n: T, p: bool): (r: set<T>)
    ensures |r| == |N| + if p && n !in N then 1 else 0
    ensures forall m :: m in r <==> m in N || (m == n && p)
  {
    if p && n !in N then N + {n} else N
  }

  /** `D` has the tables of `D0` and those over [a, v). */
  ghost predicate GrownAt(D0: Dir, D: Dir, a: nat, v: nat, n: Node) {
    n in D <==> n in D0 || OverRange(n, a, v)
  }

  ghost predicate Grown(D0: Dir, D: Dir, a: nat, v: nat) {
    forall n {:trigger GrownAt(D0, D, a, v, n)} :: GrownAt(D0, D, a, v, n)
  }

  /** `D'` has the tables of `D` and those over page `v`. */
  ghost predicate MadeAt(D: Dir, D': Dir, v: nat, n: Node) { n in D' <==> n in D || Over(n, v) }

  ghost predicate PathMade(D: Dir, D': Dir, v: nat) { forall n {:trigger MadeAt(D, D', v, n)} :: MadeAt(D, D', v, n) }

  /** `D'` has the tables of `D` and `m`. */
  ghost predicate NodeAt(D: Dir, D': Dir, m: Node, n: Node) { n in D' <==> n in D || n == m }

  ghost predicate NodeMade(D: Dir, D': Dir, m: Node) { forall n {:trigger NodeAt(D, D', m, n)} :: NodeAt(D, D', m, n) }

  lemma NodeIs(D: Dir, D': Dir, m: Node, f: Frame)
    requires (m in D && D' == D) || D' == D[m := f]
    ensures NodeMade(D, D', m)
  {
    forall n ensures NodeAt(D, D', m, n) {}
  }

  lemma PathDone(D: Dir, D1: Dir, D2: Dir, D3: Dir, v: nat)
    requires NodeMade(D, D1, PdptOf(v)) && NodeMade(D1, D2, PdOf(v)) && NodeMade(D2, D3, PtOf(v))
    ensures PathMade(D, D3, v)
  {
    forall n ensures MadeAt(D, D3, v, n) {
      assert NodeAt(D, D1, PdptOf(v), n) && NodeAt(D1, D2, PdOf(v), n) && NodeAt(D2, D3, PtOf(v), n);
    }
  }

  lemma GrownNext(D0: Dir, D: Dir, D': Dir, a: nat, v: nat)
    requires a <= v && Grown(D0, D, a, v) && PathMade(D, D', v)
    ensures Grown(D0, D', a, v + 1)
  {
    var v' := v + 1;
    forall n ensures GrownAt(D0, D', a, v', n) {
      assert GrownAt(D0, D, a, v, n) && MadeAt(D, D', v, n);
      assert Over(n, v) ==> OverRange(n, a, v');
    }
  }

  /** The tables page `v` misses then are the new ones. */
  lemma MissingIsNew(D0: Dir, D: Dir, a: nat, v: nat)
    requires a <= v && Grown(D0, D, a, v)
    ensures Missing(D, v) == NewAt(D0, a, v)
  {
    OverBefore(a, v);
    assert GrownAt(D0, D, a, v, PdptOf(v)) && GrownAt(D0, D, a, v, PdOf(v)) && GrownAt(D0, D, a, v, PtOf(v));
  }

  /** Page `v` has the entry `e` if the write took place, and every other page what it had. */
  ghost predicate Wrote(M: Tables, D: Dir, M': Tables, D': Dir, v: nat, e: Entry, done: bool) {
    forall w: nat {:trigger WroteAt(M, D, M', D', v, e, done, w)} :: WroteAt(M, D, M', D', v, e, done, w)
  }

  ghost predicate WroteAt(M: Tables, D: Dir, M': Tables, D': Dir, v: nat, e: Entry, done: bool, w: nat) {
    Get(M', D', w) == if done && w == v then e else Get(M, D, w)
  }

  /** What the loop of a map starts from: the tables, the frames to spare and their number, whether no
      table is wasted, and the entries to write from page `a` on. */
  datatype Start = Start(M: Tables, D: Dir, A: set<Frame>, n: nat, tight: bool, a: nat, es: seq<Entry>)

  /** Page `w` reads as it must once the first `i` entries are written. */
  ghost predicate Shown(s: Start, i: nat, M: Tables, D: Dir, w: nat)
    requires i <= |s.es|
  {
    Get(M, D, w) == if s.a <= w < s.a + i then s.es[w - s.a] else Get(s.M, s.D, w)
  }

  ghost predicate AllShown(s: Start, i: nat, M: Tables, D: Dir)
    requires i <= |s.es|
  {
    forall w: nat {:trigger Shown(s, i, M, D, w)} :: Shown(s, i, M, D, w)
  }

  /** The first `i` entries are written, and the tables they lacked are made of spare frames. */
  ghost predicate Reached(s: Start, i: nat, M: Tables, D: Dir, avail: set<Frame>)
    requires i <= |s.es|
  {
    && (s.tight ==> NoWaste(M, D)) && AllShown(s, i, M, D)
    && Grown(s.D, D, s.a, s.a + i) && |avail| == s.n - Lacking(s.D, s.a, s.a + i)
  }

  /** The next entry could not be written for want of a frame. */
  ghost predicate Stuck(s: Start, i: nat, M: Tables, D: Dir, avail: set<Frame>)
    requires i <= |s.es|
  {
    && avail == {} && AllShown(s, i, M, D)
    && Lacking(s.D, s.a, s.a + i) <= s.n && (s.tight ==> (NoWaste(M, D) <==> Lacking(s.D, s.a, s.a + i) == s.n))
  }

  /** The loop has written the first `i` entries and goes on, or has to stop there. */
  ghost predicate Going(s: Start, i: nat, M: Tables, D: Dir, avail: set<Frame>, ok: bool) {
    && i <= |s.es| && SameFrames(s.M, s.A, M, avail)
    && if ok then Reached(s, i, M, D, avail)
       else i < |s.es| && Stuck(s, i, M, D, avail) && Lacking(s.D, s.a, s.a + i + 1) > s.n
  }

  lemma ReachStart(s: Start)
    requires s.n == |s.A| && s.tight == NoWaste(s.M, s.D)
    ensures Going(s, 0, s.M, s.D, s.A, true)
  {
    FramesRefl(s.M, s.A);
    forall w: nat ensures Shown(s, 0, s.M, s.D, w) {}
    forall n ensures GrownAt(s.D, s.D, s.a, s.a, n) {}
  }

  lemma ReachNext(s: Start, i: nat, M: Tables, D: Dir, A: set<Frame>, M': Tables, D': Dir, A': set<Frame>, ok: bool)
    requires Going(s, i, M, D, A, true) && i < |s.es| && SameFrames(M, A, M', A')
    requires ok <==> Missing(D, s.a + i) <= |A|
    requires ok ==> PathMade(D, D', s.a + i) && |A'| == |A| - Missing(D, s.a + i)
    requires !ok ==> A' == {}
    requires Wrote(M, D, M', D', s.a + i, s.es[i], ok)
    requires NoWaste(M, D) ==> (NoWaste(M', D') <==> ok || A == {})
    ensures Going(s, if ok then i + 1 else i, M', D', A', ok)
  {
    MissingIsNew(s.D, D, s.a, s.a + i);
    FramesTrans(s.M, s.A, M, A, M', A');
    if ok {
      GrownNext(s.D, D, D', s.a, s.a + i);
      ShownDone(s, i, M, D, M', D');
    } else {
      ShownSame(s, i, M, D, M', D');
    }
  }

  lemma ShownDone(s: Start, i: nat, M: Tables, D: Dir, M': Tables, D': Dir)
    requires i < |s.es| && AllShown(s, i, M, D) && Wrote(M, D, M', D', s.a + i, s.es[i], true)
    ensures AllShown(s, i + 1, M', D')
  {
    var j := i + 1;
    forall w: nat ensures Shown(s, j, M', D', w) {
      assert Shown(s, i, M, D, w) && WroteAt(M, D, M', D', s.a + i, s.es[i], true, w);
    }
  }

  lemma ShownSame(s: Start, i: nat, M: Tables, D: Dir, M': Tables, D': Dir)
    requires i < |s.es| && AllShown(s, i, M, D) && Wrote(M, D, M', D', s.a + i, s.es[i], false)
    ensures AllShown(s, i, M', D')
  {
    forall w: nat ensures Shown(s, i, M', D', w) {
      assert Shown(s, i, M, D, w) && WroteAt(M, D, M', D', s.a + i, s.es[i], false, w);
    }
  }

  /** Whether tables are wasted at the end, and where it is. */
  ghost predicate Result(s: Start, i: nat, M: Tables, D: Dir, avail: set<Frame>, ok: bool) {
    && (!ok ==> avail == {}) && MapEnds(s.D, s.n, s.a, s.a + |s.es|, s.a + i, ok)
    && (s.tight ==> (NoWaste(M, D) <==> ok || Lacking(s.D, s.a, s.a + i) == s.n))
  }

  /** What is left of the tables when the loop ends. */
  lemma Outcome(s: Start, i: nat, M: Tables, D: Dir, avail: set<Frame>, ok: bool)
    requires Going(s, i, M, D, avail, ok) && (ok ==> i == |s.es|)
    ensures AllShown(s, i, M, D) && SameFrames(s.M, s.A, M, avail) && Result(s, i, M, D, avail, ok)
  {
    if ok { Finished(s, M, D, avail); } else { Failed(s, i, M, D, avail); }
  }

  lemma Finished(s: Start, M: Tables, D: Dir, avail: set<Frame>)
    requires Reached(s, |s.es|, M, D, avail)
    ensures Result(s, |s.es|, M, D, avail, true)
  {
    OutcomeDone(s.D, s.n, s.a, s.a + |s.es|, |avail|);
  }

  lemma Failed(s: Start, i: nat, M: Tables, D: Dir, avail: set<Frame>)
    requires i < |s.es| && Stuck(s, i, M, D, avail) && Lacking(s.D, s.a, s.a + i + 1) > s.n
    ensures Result(s, i, M, D, avail, false)
  {
    OutcomeStuck(s.D, s.n, s.a, s.a + i, s.a + |s.es|);
  }

  lemma MapResult(s: Start, i: nat, p: nat, flags: Flags, M: Tables, D: Dir, avail: set<Frame>, ok: bool)
    requires Going(s, i, M, D, avail, ok) && (ok ==> i == |s.es|) && s.es == Leaves(p, |s.es|, flags)
    ensures SameFrames(s.M, s.A, M, avail) && Result(s, i, M, D, avail, ok)
    ensures ViewIs(s.M, s.D, M, D, s.a, s.a + i, p, flags) && RangeMaps(M, D, s.a, s.a + i, p, flags)
  {
    Outcome(s, i, M, D, avail, ok);
    MapShown(s, i, p, flags, M, D);
  }

  lemma OutcomeDone(D: Dir, n: nat, a: nat, b: nat, left: nat)
    requires a <= b && left == n - Lacking(D, a, b)
    ensures MapEnds(D, n, a, b, b, true)
  {
  }

  lemma OutcomeStuck(D: Dir, n: nat, a: nat, m: nat, b: nat)
    requires a <= m < b && Lacking(D, a, m) <= n < Lacking(D, a, m + 1)
    ensures MapEnds(D, n, a, b, m, false)
  {
    LackingMono(D, a, m + 1, b);
  }

  /** The entries for the frames from `p` on. */
  function Leaves(p: nat, n: nat, flags: Flags): (es: seq<Entry>)
    ensures |es| == n && forall i :: 0 <= i < n ==> es[i] == LeafEntry(p + i, flags)
  {
    seq(n, i requires 0 <= i < n => LeafEntry(p + i, flags))
  }

  lemma MapShown(s: Start, i: nat, p: nat, flags: Flags, M: Tables, D: Dir)
    requires i <= |s.es| && s.es == Leaves(p, |s.es|, flags) && AllShown(s, i, M, D)
    ensures ViewIs(s.M, s.D, M, D, s.a, s.a + i, p, flags) && RangeMaps(M, D, s.a, s.a + i, p, flags)
  {
    var m := s.a + i;
    forall w: nat ensures ViewAt(s.M, s.D, M, D, s.a, m, p, flags, w) {
      assert Shown(s, i, M, D, w);
    }
    ViewMaps(s.M, s.D, M, D, s.a, m, p, flags);
  }

  class Pmap {
    var tables: Tables
    var root: Frame
    var avail: set<Frame>
    ghost var dir: Dir
    ghost const kernel: seq<Entry> // the upper half of the root, shared by all address spaces

    ghost predicate Valid()
      reads this
    {
      TreeOk(tables, dir, avail) && root == dir[ROOT] && KernelHalf(tables, dir, kernel)
    }

    ghost function View(v: nat): Entry
      reads this
    {
      Get(tables, dir, v)
    }

    /** All frames of the address space: in use for tables or available. */
    ghost function Frames(): set<Frame>
      reads this
    {
      tables.Keys + avail
    }

    ghost predicate Tight()
      reads this
    {
      NoWaste(tables, dir)
    }

    /** A new address space: the user half of the root is empty. */
    constructor (frames: set<Frame>, f: Frame, kernelHalf: seq<Entry>)
      requires f in frames && 0 !in frames && |kernelHalf| == ENTRIES - USER_ENTRIES
      ensures Valid() && Tight() && Frames() == frames && dir == map[ROOT := f] && avail == frames - {f}
      ensures forall v: nat :: View(v) == EMPTY
      ensures kernel == kernelHalf
    {
      kernel := kernelHalf;
      var table: Table := NewTable()[..USER_ENTRIES] + kernelHalf;
      tables := map[f := table];
      root, avail := f, frames - {f};
      dir := map[ROOT := f];
      new;
      assert Sound(tables, dir, ROOT) by {
        forall i | 0 <= i && InUserHalf(ROOT, i) ensures Link(tables, dir, ROOT, i) {
          assert table[i] == EMPTY;
        }
      }
      forall n, m | n in dir && m in dir ensures Apart(dir, n, m) {}
      assert ROOT in dir && dir[ROOT] == f;
      assert tables.Keys == {f};
    }

    /** Links the zeroed frame `f` as the lower table behind entry `i`. */
    method Add(upper: Frame, i: nat, f: Frame, ghost n: Node)
      requires Valid() && n.level < 3 && Parent(n) in dir && dir[Parent(n)] == upper && n !in dir
      requires i == Index(n) && (n.level == 2 ==> n.region < USER_ENTRIES) && f in avail
      modifies this
      ensures Valid() && Frames() == old(Frames())
      ensures dir == old(dir)[n := f] && avail == old(avail) - {f}
      ensures upper in tables && i < |tables[upper]| && tables[upper][i] == TableEntry(f)
      ensures f in tables && tables[f] == NewTable()
      ensures forall v: nat :: View(v) == old(View(v))
      ensures old(NoWasteBut(tables, dir, Parent(n))) ==> NoWasteBut(tables, dir, n)
    {
      ghost var M, D, A := tables, dir, avail;
      AddTableOk(M, D, A, n, f);
      KernelAdd(M, D, A, n, f, kernel);
      forall v: nat ensures Get(AddTable(M, D, n, f), D[n := f], v) == Get(M, D, v) {
        AddTableView(M, D, A, n, f, v);
      }
      if NoWasteBut(M, D, Parent(n)) { AddTableWaste(M, D, A, n, f); }
      tables := tables[f := NewTable()];
      tables := tables[upper := tables[upper][i := TableEntry(f)]];
      avail := avail - {f};
      dir := dir[n := f];
      assert NotFree(M, A, f) && Sound(M, D, Parent(n));
      assert tables == AddTable(M, D, n, f);
      assert tables.Keys == M.Keys + {f};
      assert ROOT != n;
    }

    /** One level of `pmap_map_page`: the lower table behind entry `i`, made if absent. */
    method Ensure(upper: Frame, i: nat, ghost n: Node) returns (ok: bool, lower: Frame)
      requires Valid() && n.level < 3 && Parent(n) in dir && dir[Parent(n)] == upper
      requires i == Index(n) && (n.level == 2 ==> n.region < USER_ENTRIES)
      modifies this
      ensures Valid() && SameFrames(old(tables), old(avail), tables, avail)
      ensures ok <==> n in old(dir) || |old(avail)| > 0
      ensures !ok ==> avail == {}
      ensures !ok || n in old(dir) ==> tables == old(tables) && dir == old(dir) && avail == old(avail)
      ensures ok ==> NodeMade(old(dir), dir, n) && n in dir && lower == dir[n]
      ensures ok && n !in old(dir) ==> lower in tables && tables[lower] == NewTable()
      ensures ok ==> |avail| == |old(avail)| - if n in old(dir) then 0 else 1
      ensures forall v: nat :: View(v) == old(View(v))
      ensures old(NoWasteBut(tables, dir, Parent(n))) && ok ==> NoWasteBut(tables, dir, n)
    {
      WalkStep(tables, dir, avail, n);
      if !tables[upper][i].present {
        if avail == {} {
          FramesRefl(tables, avail);
          return false, 0;
        }
        var f :| f in avail;
        Add(upper, i, f, n);
        FramesAre(old(tables), old(avail), tables, avail);
      } else {
        FramesRefl(tables, avail);
        ParentUsed(tables, dir, avail, n);
      }
      NodeIs(old(dir), dir, n, dir[n]);
      return true, tables[upper][i].frame;
    }

    /** The walk of `pmap_map_page` down to the page's PT, making the tables it lacks. */
    method EnsureAll(v: nat) returns (ok: bool, pt: Frame)
      requires Valid() && v < USER_PAGES
      modifies this
      ensures Valid() && SameFrames(old(tables), old(avail), tables, avail)
      ensures ok <==> Missing(old(dir), v) <= |old(avail)|
      ensures ok ==> PtOf(v) in dir && dir[PtOf(v)] == pt && PathMade(old(dir), dir, v)
      ensures ok ==> |avail| == |old(avail)| - Missing(old(dir), v)
      ensures !ok ==> avail == {}
      ensures !ok && old(avail) == {} ==> tables == old(tables) && dir == old(dir)
      ensures !ok && old(avail) != {} ==> !Tight()
      ensures forall w: nat :: View(w) == old(View(w))
      ensures ok && old(Tight()) ==> NoWasteBut(tables, dir, PtOf(v))
    {
      Ancestors(v);
      TablesAbove(tables, dir, avail, v);
      pt := 0;
      var pdpt, pd;
      ghost var M, D, A := tables, dir, avail;
      ok, pdpt := Ensure(root, Index(PdptOf(v)), PdptOf(v));
      if !ok { return; }
      ghost var M1, D1, A1 := tables, dir, avail;
      assert NodeAt(D, D1, PdptOf(v), PdOf(v)) && NodeAt(D, D1, PdptOf(v), PtOf(v));
      ok, pd := Ensure(pdpt, Index(PdOf(v)), PdOf(v));
      FramesTrans(M, A, M1, A1, tables, avail);
      if !ok {
        if PdptOf(v) !in D { EmptyTableWastes(tables, dir, PdptOf(v)); }
        return;
      }
      ghost var M2, D2, A2 := tables, dir, avail;
      assert NodeAt(D1, D2, PdOf(v), PtOf(v));
      ok, pt := Ensure(pd, Index(PtOf(v)), PtOf(v));
      FramesTrans(M, A, M2, A2, tables, avail);
      if !ok && PdOf(v) !in D { EmptyTableWastes(tables, dir, PdOf(v)); }
      if ok { PathDone(D, D1, D2, dir, v); }
    }

    /** `pmap_map_page` without PROT_HUGE. */
    method MapPage(v: nat, p: nat, flags: Flags) returns (ok: bool)
      requires Valid() && v < USER_PAGES
      modifies this
      ensures Valid() && SameFrames(old(tables), old(avail), tables, avail)
      ensures ok <==> Missing(old(dir), v) <= |old(avail)|
      ensures ok ==> PathMade(old(dir), dir, v) && |avail| == |old(avail)| - Missing(old(dir), v)
      ensures !ok ==> avail == {}
      ensures Wrote(old(tables), old(dir), tables, dir, v, LeafEntry(p, flags), ok)
      ensures ok ==> Maps(View(v), p, flags)
      ensures old(Tight()) ==> (Tight() <==> ok || old(avail) == {})
    {
      var pt;
      ok, pt := EnsureAll(v);
      ghost var M1, A1 := tables, avail;
      if ok { WriteLeaf(pt, v, LeafEntry(p, flags)); }
      FramesAre(M1, A1, tables, avail);
      FramesTrans(old(tables), old(avail), M1, A1, tables, avail);
      forall w: nat ensures WroteAt(old(tables), old(dir), tables, dir, v, LeafEntry(p, flags), ok, w) {
        assert View(w) == if ok && w == v then LeafEntry(p, flags) else old(View(w));
      }
    }

    method WriteLeaf(pt: Frame, v: nat, e: Entry)
      requires Valid() && PtOf(v) in dir && dir[PtOf(v)] == pt && (e.present || e == EMPTY)
      modifies this`tables
      ensures Valid() && tables.Keys == old(tables.Keys)
      ensures forall w: nat :: View(w) == if w == v then e else old(View(w))
      ensures old(NoWasteBut(tables, dir, PtOf(v))) ==> if e.present then Tight() else NoWasteBut(tables, dir, PtOf(v))
    {
      ghost var M := tables;
      SetLeafOk(M, dir, avail, v, e);
      KernelLeaf(M, dir, avail, v, e, kernel);
      forall w: nat ensures Get(SetLeaf(M, pt, v % ENTRIES, e), dir, w) == if w == v then e else Get(M, dir, w) {
        SetLeafView(M, dir, avail, v, e, w);
      }
      if NoWasteBut(M, dir, PtOf(v)) { SetLeafWaste(M, dir, avail, v, e); }
      tables := tables[pt := tables[pt][v % ENTRIES := e]];
      assert tables == SetLeaf(M, pt, v % ENTRIES, e);
    }

    /** `pmap_map`.  The pages done form a prefix of the rounded range, all of it exactly when
        the frames that the range lacks can be had.  Page `m` is the first for which they
        cannot; a failed call leaves an empty table exactly when a frame was left for it. */
    method Map(virt: nat, phys: nat, size: nat, flags: Flags) returns (ok: bool, ghost m: nat)
      requires Valid() && virt + size <= USER_BYTES
      modifies this
      ensures Valid() && SameFrames(old(tables), old(avail), tables, avail)
      ensures size == 0 ==> !ok && m == FirstPage(virt) && tables == old(tables) && dir == old(dir) && avail == old(avail)
      ensures size != 0 ==> MapEnds(old(dir), |old(avail)|, FirstPage(virt), EndPage(virt, size), m, ok)
      ensures ViewIs(old(tables), old(dir), tables, dir, FirstPage(virt), m, phys / PAGE_SIZE, flags)
      ensures RangeMaps(tables, dir, FirstPage(virt), m, phys / PAGE_SIZE, flags)
      ensures old(Tight()) ==> (Tight() <==> ok || size == 0 || Lacking(old(dir), FirstPage(virt), m) == |old(avail)|)
      ensures !ok && size != 0 ==> avail == {}
    {
      m := FirstPage(virt);
      if size == 0 {
        FramesRefl(tables, avail);
        return false, m;
      }
      RangeOk(virt, size);
      ok, m := MapPages(virt / PAGE_SIZE, (virt + size + PAGE_SIZE - 1) / PAGE_SIZE, phys / PAGE_SIZE, flags);
    }

    /** The same for the pages [a, b) and the frames from `p` on. */
    method MapPages(a: nat, b: nat, p: nat, flags: Flags) returns (ok: bool, ghost m: nat)
      requires Valid() && a <= b <= USER_PAGES
      modifies this
      ensures Valid() && SameFrames(old(tables), old(avail), tables, avail)
      ensures MapEnds(old(dir), |old(avail)|, a, b, m, ok)
      ensures ViewIs(old(tables), old(dir), tables, dir, a, m, p, flags)
      ensures RangeMaps(tables, dir, a, m, p, flags)
      ensures old(Tight()) ==> (Tight() <==> ok || Lacking(old(dir), a, m) == |old(avail)|)
      ensures !ok ==> avail == {}
    {
      ghost var s := Start(tables, dir, avail, |avail|, Tight(), a, Leaves(p, b - a, flags));
      ReachStart(s);
      ok, m := MapRange(a, b, p, flags, s);
      MapResult(s, m - s.a, p, flags, tables, dir, avail, ok);
    }

    /** The loop of `pmap_map`. */
    method MapRange(a: nat, b: nat, p0: nat, flags: Flags, ghost s: Start) returns (ok: bool, ghost m: nat)
      requires Valid() && a <= b <= USER_PAGES && s.a == a && |s.es| == b - a && s.es == Leaves(p0, |s.es|, flags)
      requires Going(s, 0, tables, dir, avail, true)
      modifies this
      ensures Valid() && a <= m <= b && (ok ==> m == b) && Going(s, m - a, tables, dir, avail, ok)
    {
      var v, p := a, p0;
      ok := true;
      ghost var i := 0;
      while ok && v < b
        invariant v == a + i <= b && p == p0 + i
        invariant Valid() && Going(s, i, tables, dir, avail, ok)
        decreases ok, b - v
      {
        ok := MapNext(v, p, flags, s, p0, i);
        if ok { v, p, i := v + 1, p + 1, i + 1; }
      }
      m := v;
    }

    /** One round of the loop. */
    method MapNext(v: nat, p: nat, flags: Flags, ghost s: Start, ghost p0: nat, ghost i: nat) returns (ok: bool)
      requires v < USER_PAGES && v == s.a + i && i < |s.es| && s.es == Leaves(p0, |s.es|, flags) && p == p0 + i
      requires Valid() && Going(s, i, tables, dir, avail, true)
      modifies this
      ensures Valid() && Going(s, if ok then i + 1 else i, tables, dir, avail, ok)
    {
      ghost var M1, D1, A1 := tables, dir, avail;
      ok := MapPage(v, p, flags);
      ReachNext(s, i, M1, D1, A1, tables, dir, avail, ok);
    }

    /** `is_table_empty`. */
    method IsTableEmpty(f: Frame) returns (empty: bool)
      requires f in tables && |tables[f]| == ENTRIES
      ensures empty <==> forall i :: 0 <= i < ENTRIES ==> !tables[f][i].present
    {
      for i := 0 to ENTRIES
        invariant forall k :: 0 <= k < i ==> !tables[f][k].present
      {
        if tables[f][i].present { return false; }
      }
      return true;
    }

    /** One level of the teardown: frees the table behind entry `i` of `upper`. */
    method Drop(upper: Frame, i: nat, ghost n: Node)
      requires Removable(tables, dir, avail, n) && root == dir[ROOT] && KernelHalf(tables, dir, kernel)
      requires dir[Parent(n)] == upper && i == Index(n)
      modifies this
      ensures Valid() && Frames() == old(Frames())
      ensures dir == old(dir) - {n} && |avail| == |old(avail)| + 1
      ensures forall v: nat :: View(v) == old(View(v))
      ensures old(NoWasteBut(tables, dir, n)) ==> NoWasteBut(tables, dir, Parent(n))
    {
      ghost var M, D, A := tables, dir, avail;
      assert Sound(M, D, n);
      WalkStep(M, D, A, n);
      RemoveTableOk(M, D, A, n);
      KernelRemove(M, D, A, n, kernel);
      forall v: nat ensures Get(RemoveTable(M, D, n), D - {n}, v) == Get(M, D, v) {
        RemoveTableView(M, D, A, n, v);
      }
      if NoWasteBut(M, D, n) { RemoveTableWaste(M, D, A, n); }
      var f := tables[upper][i].frame;
      assert Apart(D, n, Parent(n)) && NotFree(M, A, f);
      avail := avail + {f};
      tables := tables[upper := tables[upper][i := EMPTY]] - {f};
      dir := dir - {n};
      assert tables == RemoveTable(M, D, n);
    }

    /** The teardown at one level, if the table `f` of node `n` has become empty. */
    method TearDown(f: Frame, upper: Frame, i: nat, ghost n: Node) returns (freed: bool)
      requires Valid() && n in dir && n.level < 3 && dir[n] == f
      requires Parent(n) in dir && dir[Parent(n)] == upper && i == Index(n)
      modifies this
      ensures Valid() && Frames() == old(Frames())
      ensures if freed then dir == old(dir) - {n} && |avail| == |old(avail)| + 1 else dir == old(dir) && avail == old(avail)
      ensures forall v: nat :: View(v) == old(View(v))
      ensures old(NoWasteBut(tables, dir, n)) ==> if freed then NoWasteBut(tables, dir, Parent(n)) else Tight()
    {
      assert Sound(tables, dir, n) && Sound(tables, dir, Parent(n));
      freed := IsTableEmpty(f);
      if freed {
        Drop(upper, i, n);
      } else {
        assert Used(tables, dir, n);
      }
    }

    /** `pmap_unmap_page` on tables without huge pages. */
    method UnmapPage(v: nat) returns (freed: bool)
      requires Valid() && v < USER_PAGES
      modifies this
      ensures Valid() && Frames() == old(Frames())
      ensures forall w: nat :: View(w) == if w == v then EMPTY else old(View(w))
      ensures old(Tight()) ==> Tight()
      ensures freed <==> avail != old(avail)
    {
      Ancestors(v);
      TablesAbove(tables, dir, avail, v);
      freed := false;
      WalkStep(tables, dir, avail, PdptOf(v));
      var l4 := Index(PdptOf(v));
      if !tables[root][l4].present { return; }
      var pdpt := tables[root][l4].frame;
      WalkStep(tables, dir, avail, PdOf(v));
      var l3 := Index(PdOf(v));
      if !tables[pdpt][l3].present { return; }
      var pd := tables[pdpt][l3].frame;
      WalkStep(tables, dir, avail, PtOf(v));
      var l2 := Index(PtOf(v));
      if !tables[pd][l2].present { return; }
      var pt := tables[pd][l2].frame;
      assert Sound(tables, dir, PtOf(v));
      if !tables[pt][v % ENTRIES].present { return; }
      WriteLeaf(pt, v, EMPTY);
      freed := TearDown(pt, pd, l2, PtOf(v));
      if freed {
        var more := TearDown(pd, pdpt, l3, PdOf(v));
        if more {
          more := TearDown(pdpt, root, l4, PdptOf(v));
        }
      }
    }

    /** `pmap_unmap`. */
    method Unmap(virt: nat, size: nat)
      requires Valid() && virt + size <= USER_BYTES
      modifies this
      ensures Valid() && Frames() == old(Frames())
      ensures size != 0 ==> forall v: nat ::
        View(v) == if FirstPage(virt) <= v < EndPage(virt, size) then EMPTY else old(View(v))
      ensures size == 0 ==> forall v: nat :: View(v) == old(View(v))
      ensures old(Tight()) ==> Tight()
    {
      if size == 0 { return; }
      var v, end, freed := virt / PAGE_SIZE, (virt + size + PAGE_SIZE - 1) / PAGE_SIZE, false;
      while v < end
        invariant FirstPage(virt) <= v <= end <= USER_PAGES
        invariant Valid() && Frames() == old(Frames())
        invariant forall w: nat :: View(w) == if FirstPage(virt) <= w < v then EMPTY else old(View(w))
        invariant old(Tight()) ==> Tight()
      {
        var f := UnmapPage(v);
        freed := freed || f;
        v := v + 1;
      }
    }

    /** `pmap_extract`: the frame's address plus the offset, 0 for an unmapped address. */
    method Extract(va: nat) returns (pa: nat)
      requires Valid() && va < USER_BYTES
      ensures var e := View(va / PAGE_SIZE);
        pa == if e.present then PAGE_SIZE * e.frame + va % PAGE_SIZE else 0
    {
      var v := va / PAGE_SIZE;
      Ancestors(v);
      TablesAbove(tables, dir, avail, v);
      WalkStep(tables, dir, avail, PdptOf(v));
      if !tables[root][Index(PdptOf(v))].present { return 0; }
      var pdpt := tables[root][Index(PdptOf(v))].frame;
      WalkStep(tables, dir, avail, PdOf(v));
      if !tables[pdpt][Index(PdOf(v))].present { return 0; }
      var pd := tables[pdpt][Index(PdOf(v))].frame;
      WalkStep(tables, dir, avail, PtOf(v));
      if !tables[pd][Index(PtOf(v))].present { return 0; }
      var pt := tables[pd][Index(PtOf(v))].frame;
      assert Sound(tables, dir, PtOf(v));
      if !tables[pt][v % ENTRIES].present { return 0; }
      return PAGE_SIZE * tables[pt][v % ENTRIES].frame + va % PAGE_SIZE;
    }

    /** `pmm_free_pages` of one table; the frame must still be in use. */
    method Free(f: Frame)
      requires f in tables && f !in avail
      modifies this`tables, this`avail
      ensures tables == old(tables) - {f} && avail == old(avail) + {f}
    {
      tables, avail := tables - {f}, avail + {f};
    }

    /** The innermost loop of `pmap_destroy`: frees the PTs of one PD. */
    method FreePts(pd: Frame, ghost a: nat, ghost b: nat, ghost M: Tables, ghost A: set<Frame>)
      requires TreeOk(M, dir, A) && Node(1, b) in dir && dir[Node(1, b)] == pd
      requires Stage(M, dir, A, tables, avail, a, b, ENTRIES * b)
      modifies this`tables, this`avail
      ensures Stage(M, dir, A, tables, avail, a, b, ENTRIES * (b + 1))
    {
      for k := 0 to ENTRIES
        invariant Stage(M, dir, A, tables, avail, a, b, ENTRIES * b + k)
      {
        StillThere(M, dir, A, a, b, ENTRIES * b + k, Node(1, b));
        assert Sound(M, dir, Node(1, b)) && Link(M, dir, Node(1, b), k);
        StagePt(M, dir, A, a, b, ENTRIES * b + k);
        if tables[pd][k].present {
          Free(tables[pd][k].frame);
        }
      }
    }

    /** The middle loop: frees the PDs of one PDPT, each after its PTs. */
    method FreePds(pdpt: Frame, ghost a: nat, ghost M: Tables, ghost A: set<Frame>)
      requires TreeOk(M, dir, A) && Node(2, a) in dir && dir[Node(2, a)] == pdpt
      requires Stage(M, dir, A, tables, avail, a, ENTRIES * a, ENTRIES * ENTRIES * a)
      modifies this`tables, this`avail
      ensures Stage(M, dir, A, tables, avail, a, ENTRIES * (a + 1), ENTRIES * ENTRIES * (a + 1))
    {
      for j := 0 to ENTRIES
        invariant Stage(M, dir, A, tables, avail, a, ENTRIES * a + j, ENTRIES * (ENTRIES * a + j))
      {
        ghost var b := ENTRIES * a + j;
        StillThere(M, dir, A, a, b, ENTRIES * b, Node(2, a));
        assert Sound(M, dir, Node(2, a)) && Link(M, dir, Node(2, a), j);
        if tables[pdpt][j].present {
          var pd := tables[pdpt][j].frame;
          FreePts(pd, a, b, M, A);
          StagePd(M, dir, A, a, b);
          Free(pd);
        } else {
          SkipPd(M, dir, A, a, b);
        }
      }
    }

    /** `pmap_destroy`: every table is freed exactly once, none is read after it is freed. */
    method Destroy()
      requires Valid()
      modifies this`tables, this`avail
      ensures tables == map[] && avail == old(Frames())
    {
      ghost var M, A := tables, avail;
      assert Stage(M, dir, A, tables, avail, 0, 0, 0) by { assert FreedBy(dir, 0, 0, 0) == {}; }
      for i := 0 to USER_ENTRIES
        invariant Stage(M, dir, A, tables, avail, i, ENTRIES * i, ENTRIES * ENTRIES * i)
      {
        StillThere(M, dir, A, i, ENTRIES * i, ENTRIES * ENTRIES * i, ROOT);
        assert Sound(M, dir, ROOT) && Link(M, dir, ROOT, i);
        if tables[root][i].present {
          var pdpt := tables[root][i].frame;
          FreePds(pdpt, i, M, A);
          StagePdpt(M, dir, A, i);
          Free(pdpt);
        } else {
          SkipPdpt(M, dir, A, i);
        }
      }
      AllButRoot(M, dir, A);
      assert Sound(M, dir, ROOT) && NotFree(M, A, root);
      Free(root);
    }

    /** Mapping a range with no page mapped and unmapping it gives back every frame taken. */
    method MapThenUnmap(virt: nat, phys: nat, size: nat, flags: Flags) returns (ok: bool)
      requires Valid() && Tight() && virt + size <= USER_BYTES
      requires forall v: nat :: FirstPage(virt) <= v < EndPage(virt, size) ==> View(v) == EMPTY
      modifies this
      ensures Valid() && (forall v: nat :: View(v) == old(View(v)))
      ensures ok ==> |avail| == |old(avail)| && |tables| == |old(tables)|
    {
      ghost var M, D, A := tables, dir, avail;
      ghost var m;
      ok, m := Map(virt, phys, size, flags);
      ghost var M1, D1 := tables, dir;
      FramesEqual(M, A, tables, avail);
      Unmap(virt, size);
      forall v: nat ensures View(v) == Get(M, D, v) {
        assert ViewAt(M, D, M1, D1, FirstPage(virt), m, phys / PAGE_SIZE, flags, v) && old(View(v)) == Get(M, D, v);
        assert View(v) == if size != 0 && FirstPage(virt) <= v < EndPage(virt, size) then EMPTY else Get(M1, D1, v);
      }
      if ok {
        SameCount(M, D, A, tables, dir, avail);
      }
    }
  }

  /** Without waste an address space that maps nothing is its root alone. */
  lemma EmptyCount(M: Tables, D: Dir, avail: set<Frame>)
    requires TreeOk(M, D, avail) && NoWaste(M, D) && forall v: nat :: !Get(M, D, v).present
    ensures |M| == 1
  {
    var P := MappedPages(M, D);
    assert P == {};
    TableCount(M, D, avail);
    assert Regions(P, 0x800_0000) == {} && Regions(P, 0x4_0000) == {} && Regions(P, 0x200) == {};
  }

  /** What a failed map leaves: with one frame to spare the first table of the page is made and
      the second is not to be had, so a table stays that holds nothing. */
  method FailedMapLeaks(kernelHalf: seq<Entry>, flags: Flags) returns (space: Pmap, ok: bool)
    requires |kernelHalf| == ENTRIES - USER_ENTRIES
    ensures fresh(space) && space.Valid() && !ok
    ensures (forall v: nat :: space.View(v) == EMPTY) && |space.tables| == 2 && !space.Tight()
  {
    space := new Pmap({1, 2}, 1, kernelHalf);
    assert space.tables.Keys + space.avail == {1, 2};
    assert space.dir == map[ROOT := 1] && space.avail == {2};
    ghost var M, D, A := space.tables, space.dir, space.avail;
    ok := space.MapPage(0, 5, flags);
    FramesEqual(M, A, space.tables, space.avail);
    assert space.tables.Keys == {1, 2};
    assert |space.tables| == |space.tables.Keys| == 2;
    forall v: nat ensures space.View(v) == EMPTY {
      assert WroteAt(M, D, space.tables, space.dir, 0, LeafEntry(5, flags), ok, v) && Get(M, D, v) == EMPTY;
    }
  }

  /** A table just made that stays empty is wasted. */
  lemma EmptyTableWastes(M: Tables, D: Dir, n: Node)
    requires n in D && n != ROOT && D[n] in M && M[D[n]] == NewTable()
    ensures !NoWaste(M, D)
  {
    assert !Used(M, D, n);
  }

  /** A table that has a table below it has an entry in use. */
  lemma ParentUsed(M: Tables, D: Dir, avail: set<Frame>, n: Node)
    requires TreeOk(M, D, avail) && n in D && n.level < 3
    ensures NoWasteBut(M, D, Parent(n)) ==> NoWaste(M, D)
  {
    assert Sound(M, D, n);
    WalkStep(M, D, avail, n);
    assert Used(M, D, Parent(n));
  }

  /** The tables of a page exist from the top down. */
  lemma TablesAbove(M: Tables, D: Dir, avail: set<Frame>, v: nat)
    requires TreeOk(M, D, avail) && v < USER_PAGES
    ensures PtOf(v) in D ==> PdOf(v) in D
    ensures PdOf(v) in D ==> PdptOf(v) in D
  {
    Ancestors(v);
    assert PtOf(v) in D ==> Sound(M, D, PtOf(v));
    assert PdOf(v) in D ==> Sound(M, D, PdOf(v));
  }

  // ---- the order of `pmap_destroy` --------------------------------------------------

  /** The tables freed once the first `a` PDPTs, `b` PDs and `c` PTs of the user half are. */
  predicate Gone(n: Node, a: nat, b: nat, c: nat) {
    (n.level == 2 && n.region < a) || (n.level == 1 && n.region < b) || (n.level == 0 && n.region < c)
  }

  ghost function FreedBy(D: Dir, a: nat, b: nat, c: nat): set<Frame> {
    set n | n in D && Gone(n, a, b, c) :: D[n]
  }

  ghost predicate Stage(M: Tables, D: Dir, A: set<Frame>, tables: Tables, avail: set<Frame>, a: nat, b: nat, c: nat) {
    tables == M - FreedBy(D, a, b, c) && avail == A + FreedBy(D, a, b, c)
  }

  /** A table not yet due is still in use. */
  lemma StillThere(M: Tables, D: Dir, A: set<Frame>, a: nat, b: nat, c: nat, n: Node)
    requires TreeOk(M, D, A) && n in D && !Gone(n, a, b, c)
    ensures D[n] in M && D[n] !in FreedBy(D, a, b, c) && D[n] !in A
  {
    assert Sound(M, D, n) && NotFree(M, A, D[n]);
    forall m | m in D && Gone(m, a, b, c) ensures D[m] != D[n] { assert Apart(D, m, n); }
  }

  lemma StagePt(M: Tables, D: Dir, A: set<Frame>, a: nat, b: nat, c: nat)
    requires TreeOk(M, D, A)
    ensures var n := Node(0, c);
      && FreedBy(D, a, b, c + 1) == FreedBy(D, a, b, c) + (if n in D then {D[n]} else {})
      && (n in D ==> D[n] in M && D[n] !in FreedBy(D, a, b, c) && D[n] !in A)
  {
    var n := Node(0, c);
    forall m ensures Gone(m, a, b, c + 1) <==> Gone(m, a, b, c) || m == n {}
    if n in D { StillThere(M, D, A, a, b, c, n); }
  }

  lemma StagePd(M: Tables, D: Dir, A: set<Frame>, a: nat, b: nat)
    requires TreeOk(M, D, A) && Node(1, b) in D
    ensures var c, n := ENTRIES * (b + 1), Node(1, b);
      && FreedBy(D, a, b + 1, c) == FreedBy(D, a, b, c) + {D[n]}
      && D[n] in M && D[n] !in FreedBy(D, a, b, c) && D[n] !in A
  {
    var c, n := ENTRIES * (b + 1), Node(1, b);
    forall m ensures Gone(m, a, b + 1, c) <==> Gone(m, a, b, c) || m == n {}
    StillThere(M, D, A, a, b, c, n);
  }

  lemma SkipPd(M: Tables, D: Dir, A: set<Frame>, a: nat, b: nat)
    requires TreeOk(M, D, A) && Node(1, b) !in D
    ensures FreedBy(D, a, b + 1, ENTRIES * (b + 1)) == FreedBy(D, a, b, ENTRIES * b)
  {
    forall m | m in D ensures Gone(m, a, b + 1, ENTRIES * (b + 1)) <==> Gone(m, a, b, ENTRIES * b) {
      assert Sound(M, D, m);
      assert ENTRIES * b <= m.region < ENTRIES * (b + 1) <==> m.region / ENTRIES == b;
    }
  }

  lemma StagePdpt(M: Tables, D: Dir, A: set<Frame>, a: nat)
    requires TreeOk(M, D, A) && Node(2, a) in D
    ensures var b, c, n := ENTRIES * (a + 1), ENTRIES * ENTRIES * (a + 1), Node(2, a);
      && FreedBy(D, a + 1, b, c) == FreedBy(D, a, b, c) + {D[n]}
      && D[n] in M && D[n] !in FreedBy(D, a, b, c) && D[n] !in A
  {
    var b, c, n := ENTRIES * (a + 1), ENTRIES * ENTRIES * (a + 1), Node(2, a);
    forall m ensures Gone(m, a + 1, b, c) <==> Gone(m, a, b, c) || m == n {}
    StillThere(M, D, A, a, b, c, n);
  }

  lemma SkipPdpt(M: Tables, D: Dir, A: set<Frame>, a: nat)
    requires TreeOk(M, D, A) && Node(2, a) !in D
    ensures FreedBy(D, a + 1, ENTRIES * (a + 1), ENTRIES * ENTRIES * (a + 1))
         == FreedBy(D, a, ENTRIES * a, ENTRIES * ENTRIES * a)
  {
    forall m | m in D
      ensures Gone(m, a + 1, ENTRIES * (a + 1), ENTRIES * ENTRIES * (a + 1))
         <==> Gone(m, a, ENTRIES * a, ENTRIES * ENTRIES * a)
    {
      assert Sound(M, D, m);
      if m.level == 0 { assert Sound(M, D, Parent(m)); }
    }
  }

  lemma AllButRoot(M: Tables, D: Dir, A: set<Frame>)
    requires TreeOk(M, D, A)
    ensures FreedBy(D, USER_ENTRIES, ENTRIES * USER_ENTRIES, ENTRIES * ENTRIES * USER_ENTRIES) == M.Keys - {D[ROOT]}
  {
    var F := FreedBy(D, USER_ENTRIES, ENTRIES * USER_ENTRIES, ENTRIES * ENTRIES * USER_ENTRIES);
    forall f ensures f in F <==> f in M.Keys - {D[ROOT]} {
      assert f in M <==> Owned(D, f);
      if f in M && f != D[ROOT] {
        var n :| n in D && D[n] == f;
        assert Sound(M, D, n);
        RegionBound(M, D, A, n);
        assert f in F;
      }
      if n :| n in D && Gone(n, USER_ENTRIES, ENTRIES * USER_ENTRIES, ENTRIES * ENTRIES * USER_ENTRIES) && D[n] == f {
        assert Apart(D, n, ROOT) && Owned(D, f);
      }
    }
  }
}
