/**
  The segregated free lists of `kernel/lib/tlsf.c`: 25 x 32 doubly linked lists threaded
  through the free blocks and ended by block_null, with a two-level bitmap over them.
 */
module TlsfLists {
  import opened Powers
  import opened TlsfMapping
  import opened TlsfBitmap
  import opened TlsfHeap

  type Lists = seq<seq<nat>>

  // ---- one list --------------------------------------------------------------------

  ghost predicate NoDup(L: seq<nat>) { forall i, j :: 0 <= i < j < |L| ==> L[i] != L[j] }

  function At(nb: nat, L: seq<nat>, i: int): nat { if 0 <= i < |L| then L[i] else nb }

  ghost predicate Links(m: Mem, nb: nat, L: seq<nat>, i: int)
    requires 0 <= i < |L|
  {
    NextFree(m, L[i]) == At(nb, L, i + 1) && PrevFree(m, L[i]) == At(nb, L, i - 1)
  }

  ghost predicate Linked(m: Mem, nb: nat, head: nat, L: seq<nat>) {
    && NoDup(L) && head == At(nb, L, 0)
    && forall i {:trigger Links(m, nb, L, i)} :: 0 <= i < |L| ==> Links(m, nb, L, i)
  }

  /** Nodes whose link words do not overlap. */
  ghost predicate Spaced(x: nat, y: nat) { x != y ==> x + 8 != y && y + 8 != x }

  ghost predicate AllSpaced(x: nat, nb: nat, L: seq<nat>) {
    Spaced(x, nb) && x != nb && forall i :: 0 <= i < |L| ==> Spaced(x, L[i])
  }

  function Without(L: seq<nat>, i: nat): seq<nat>
    requires i < |L|
  {
    L[..i] + L[i + 1..]
  }

  lemma WithoutOk(L: seq<nat>, i: nat)
    requires NoDup(L) && i < |L|
    ensures NoDup(Without(L, i))
    ensures forall x :: x in Without(L, i) <==> x in L && x != L[i]
  {
    var K := Without(L, i);
    assert L == L[..i] + [L[i]] + L[i + 1..];
    assert forall j :: 0 <= j < |K| ==> K[j] == L[if j < i then j else j + 1];
  }

  /** Memory after a node between `p` and `n` has been unlinked, and after `b` has been
      put in front of `cur`. */
  function UnlinkMem(m: Mem, p: nat, n: nat): Mem { m[n + 24 := p][p + 16 := n] }

  function PushMem(m: Mem, nb: nat, b: nat, cur: nat): Mem { m[b + 16 := cur][b + 24 := nb][cur + 24 := b] }

  lemma UnlinkList(m: Mem, nb: nat, head: nat, L: seq<nat>, i: nat)
    requires Linked(m, nb, head, L) && i < |L| && nb !in L
    requires forall j :: 0 <= j < |L| ==> AllSpaced(L[j], nb, L)
    ensures var b, p, n := L[i], At(nb, L, i - 1), At(nb, L, i + 1);
      && PrevFree(m, b) == p && NextFree(m, b) == n
      && (head == b <==> i == 0)
      && Linked(UnlinkMem(m, p, n), nb, if head == b then n else head, Without(L, i))
  {
    var b, p, n := L[i], At(nb, L, i - 1), At(nb, L, i + 1);
    var m', K := UnlinkMem(m, p, n), Without(L, i);
    assert Links(m, nb, L, i);
    WithoutOk(L, i);
    forall j | 0 <= j < |K| ensures Links(m', nb, K, j) {
      UnlinkOne(m, nb, L, i, j);
    }
  }

  lemma UnlinkOne(m: Mem, nb: nat, L: seq<nat>, i: nat, j: nat)
    requires NoDup(L) && i < |L| && j < |L| - 1 && nb !in L
    requires forall k {:trigger Links(m, nb, L, k)} :: 0 <= k < |L| ==> Links(m, nb, L, k)
    requires forall j :: 0 <= j < |L| ==> AllSpaced(L[j], nb, L)
    ensures Links(UnlinkMem(m, At(nb, L, i - 1), At(nb, L, i + 1)), nb, Without(L, i), j)
  {
    var p, n := At(nb, L, i - 1), At(nb, L, i + 1);
    var K := Without(L, i);
    var k := if j < i then j else j + 1;
    assert K[j] == L[k] && Links(m, nb, L, k);
    assert AllSpaced(L[k], nb, L);
    assert At(nb, K, j + 1) == if j + 1 < i then L[j + 1] else if j + 1 == i then n else At(nb, L, j + 2);
    assert At(nb, K, j - 1) == if j <= i then (if j == i then p else At(nb, L, j - 1)) else L[j];
  }

  lemma PushList(m: Mem, nb: nat, head: nat, L: seq<nat>, b: nat)
    requires Linked(m, nb, head, L) && b !in L && AllSpaced(b, nb, L)
    requires forall j :: 0 <= j < |L| ==> AllSpaced(L[j], nb, L)
    ensures Linked(PushMem(m, nb, b, head), nb, b, [b] + L)
  {
    var m', K := PushMem(m, nb, b, head), [b] + L;
    forall j | 0 <= j < |K| ensures Links(m', nb, K, j) {
      if j > 0 {
        assert Links(m, nb, L, j - 1) && K[j] == L[j - 1];
        assert AllSpaced(L[j - 1], nb, L) && Spaced(b, L[j - 1]);
      }
    }
  }

  /** A list is not affected by writes to link words of other nodes. */
  lemma OtherList(m: Mem, m': Mem, nb: nat, head: nat, L: seq<nat>)
    requires Linked(m, nb, head, L)
    requires forall i :: 0 <= i < |L| ==> Rd(m', L[i] + 16) == Rd(m, L[i] + 16) && Rd(m', L[i] + 24) == Rd(m, L[i] + 24)
    ensures Linked(m', nb, head, L)
  {
    forall i | 0 <= i < |L| ensures Links(m', nb, L, i) {
      assert Links(m, nb, L, i);
    }
  }

  // ---- all lists -------------------------------------------------------------------

  /** Every entry of list `c` is a free block of class `c` that is not held out. */
  ghost predicate Entry(B: Blocks, lists: Lists, holes: set<nat>, c: nat)
    requires c < |lists|
  {
    forall x :: x in lists[c] ==> x in B && B[x].free && x !in holes && Class(B[x].size) == c
  }

  /** A free block that is not held out is on the list of its class. */
  ghost predicate Filed(B: Blocks, lists: Lists, holes: set<nat>, b: nat)
    requires b in B
  {
    B[b].free && b !in holes ==> Class(B[b].size) < |lists| && b in lists[Class(B[b].size)]
  }

  /** Each free block outside `holes` is on exactly one list, that of its size class. */
  ghost predicate Indexed(B: Blocks, lists: Lists, holes: set<nat>) {
    && |lists| == CLASSES
    && (forall c {:trigger Entry(B, lists, holes, c)} :: 0 <= c < CLASSES ==> Entry(B, lists, holes, c))
    && (forall b {:trigger Filed(B, lists, holes, b)} :: b in B ==> Filed(B, lists, holes, b))
  }

  ghost predicate Chain(m: Mem, nb: nat, heads: seq<nat>, lists: Lists, c: nat)
    requires c < |heads| && c < |lists|
  {
    Linked(m, nb, heads[c], lists[c])
  }

  ghost predicate Chained(m: Mem, nb: nat, heads: seq<nat>, lists: Lists) {
    && |lists| == CLASSES && |heads| == CLASSES
    && forall c {:trigger Chain(m, nb, heads, lists, c)} :: 0 <= c < CLASSES ==> Chain(m, nb, heads, lists, c)
  }

  lemma NodesSpaced(B: Blocks, nb: nat, x: nat, y: nat)
    requires Phys(B, nb) && x in B && B[x].free && Node(B, nb, y)
    ensures Spaced(x, y) && x != nb
  {
    assert Good(B, x) && Clear(B, nb, x);
    if y != nb {
      assert Good(B, y);
      Apart(B, nb, x, y);
      Apart(B, nb, y, x);
    }
  }

  lemma ListSpaced(B: Blocks, nb: nat, lists: Lists, holes: set<nat>, c: nat, x: nat)
    requires Phys(B, nb) && Indexed(B, lists, holes) && c < CLASSES && x in B && B[x].free
    ensures AllSpaced(x, nb, lists[c]) && nb !in lists[c]
  {
    assert Entry(B, lists, holes, c);
    NodesSpaced(B, nb, x, nb);
    forall i | 0 <= i < |lists[c]| ensures Spaced(x, lists[c][i]) && lists[c][i] != nb {
      assert lists[c][i] in lists[c];
      NodesSpaced(B, nb, x, lists[c][i]);
      NodesSpaced(B, nb, lists[c][i], nb);
    }
  }

  /** A node of one list is on no other list. */
  lemma OtherLists(B: Blocks, lists: Lists, holes: set<nat>, c: nat, d: nat, x: nat)
    requires Indexed(B, lists, holes) && c < CLASSES && d < CLASSES && c != d && x in lists[d]
    ensures x !in lists[c]
  {
    assert Entry(B, lists, holes, c) && Entry(B, lists, holes, d);
  }

  /** Blocks that stay free, and stay held out or not, stay filed. */
  lemma Reindex(B: Blocks, B': Blocks, lists: Lists, holes: set<nat>, holes': set<nat>)
    requires Indexed(B, lists, holes)
    requires forall x :: x in B && B[x].free && x !in holes ==> x in B' && B'[x].free && x !in holes' && B'[x].size == B[x].size
    requires forall x :: x in B' && B'[x].free && x !in holes' ==> x in B && B[x].free && x !in holes
    ensures Indexed(B', lists, holes')
  {
    forall c | 0 <= c < CLASSES ensures Entry(B', lists, holes', c) { assert Entry(B, lists, holes, c); }
    forall b | b in B' ensures Filed(B', lists, holes', b) {
      if B'[b].free && b !in holes' { assert Filed(B, lists, holes, b); }
    }
  }

  lemma ChainedFrame(m: Mem, m': Mem, B: Blocks, nb: nat, heads: seq<nat>, lists: Lists, holes: set<nat>)
    requires Chained(m, nb, heads, lists) && Indexed(B, lists, holes)
    requires forall x :: x in B && B[x].free && x !in holes ==>
      Rd(m', x + 16) == Rd(m, x + 16) && Rd(m', x + 24) == Rd(m, x + 24)
    ensures Chained(m', nb, heads, lists)
  {
    forall c | 0 <= c < CLASSES ensures Chain(m', nb, heads, lists, c) {
      assert Chain(m, nb, heads, lists, c) && Entry(B, lists, holes, c);
      assert forall i :: 0 <= i < |lists[c]| ==> lists[c][i] in lists[c];
      OtherList(m, m', nb, heads[c], lists[c]);
    }
  }

  // ---- taking a block off its list -------------------------------------------------

  lemma Unfile(m: Mem, B: Blocks, nb: nat, heads: seq<nat>, lists: Lists, holes: set<nat>, c: nat, i: nat)
    requires Phys(B, nb) && MemOk(m, B) && Indexed(B, lists, holes) && Chained(m, nb, heads, lists)
    requires c < CLASSES && i < |lists[c]|
    ensures var b, p, n := lists[c][i], At(nb, lists[c], i - 1), At(nb, lists[c], i + 1);
      var m', lists' := UnlinkMem(m, p, n), lists[c := Without(lists[c], i)];
      var heads' := if heads[c] == b then heads[c := n] else heads;
      && b in B && B[b].free && b !in holes
      && PrevFree(m, b) == p && NextFree(m, b) == n && nb !in lists[c]
      && Chained(m', nb, heads', lists') && Indexed(B, lists', holes + {b})
      && MemOk(m', B) && Keeps(m, m', B)
      && (heads[c] == b && n == nb <==> lists'[c] == [])
  {
    var b, p, n := lists[c][i], At(nb, lists[c], i - 1), At(nb, lists[c], i + 1);
    assert b in lists[c] && Entry(B, lists, holes, c) && Chain(m, nb, heads, lists, c);
    UnfileIndex(B, lists, holes, c, i);
    UnfileChains(m, B, nb, heads, lists, holes, c, i);
    assert Node(B, nb, n) && Node(B, nb, p);
    WriteLink(m, B, nb, n, n + 24, p);
    WriteLink(m[n + 24 := p], B, nb, p, p + 16, n);
    KeepsTrans(m, m[n + 24 := p], UnlinkMem(m, p, n), B, B);
  }

  lemma UnfileIndex(B: Blocks, lists: Lists, holes: set<nat>, c: nat, i: nat)
    requires Indexed(B, lists, holes) && c < CLASSES && i < |lists[c]| && NoDup(lists[c])
    ensures Indexed(B, lists[c := Without(lists[c], i)], holes + {lists[c][i]})
  {
    var b, lists', holes' := lists[c][i], lists[c := Without(lists[c], i)], holes + {lists[c][i]};
    WithoutOk(lists[c], i);
    assert b in lists[c];
    forall d | 0 <= d < CLASSES ensures Entry(B, lists', holes', d) {
      assert Entry(B, lists, holes, d);
      if d != c { OtherLists(B, lists, holes, d, c, b); }
    }
    forall x | x in B ensures Filed(B, lists', holes', x) {
      assert Filed(B, lists, holes, x);
    }
  }

  lemma UnfileChains(m: Mem, B: Blocks, nb: nat, heads: seq<nat>, lists: Lists, holes: set<nat>, c: nat, i: nat)
    requires Phys(B, nb) && Indexed(B, lists, holes) && Chained(m, nb, heads, lists)
    requires c < CLASSES && i < |lists[c]|
    ensures var L := lists[c];
      var b, p, n := L[i], At(nb, L, i - 1), At(nb, L, i + 1);
      && PrevFree(m, b) == p && NextFree(m, b) == n && nb !in L && (heads[c] == b <==> i == 0)
      && Chained(UnlinkMem(m, p, n), nb, if heads[c] == b then heads[c := n] else heads, lists[c := Without(L, i)])
  {
    var L := lists[c];
    var b, p, n := L[i], At(nb, L, i - 1), At(nb, L, i + 1);
    var m', lists' := UnlinkMem(m, p, n), lists[c := Without(L, i)];
    var heads' := if heads[c] == b then heads[c := n] else heads;
    assert Chain(m, nb, heads, lists, c) && Entry(B, lists, holes, c);
    forall j | 0 <= j < |L| ensures AllSpaced(L[j], nb, L) && nb !in L {
      assert L[j] in L;
      ListSpaced(B, nb, lists, holes, c, L[j]);
    }
    assert L[i] in L;
    UnlinkList(m, nb, heads[c], L, i);
    forall d | 0 <= d < CLASSES ensures Chain(m', nb, heads', lists', d) {
      if d != c {
        assert Chain(m, nb, heads, lists, d) && Entry(B, lists, holes, d);
        forall j | 0 <= j < |lists[d]|
          ensures Rd(m', lists[d][j] + 16) == Rd(m, lists[d][j] + 16) && Rd(m', lists[d][j] + 24) == Rd(m, lists[d][j] + 24)
        {
          var x := lists[d][j];
          assert x in lists[d];
          ListSpaced(B, nb, lists, holes, c, x);
          OtherLists(B, lists, holes, c, d, x);
          assert p != x && n != x && Spaced(x, p) && Spaced(x, n);
        }
        OtherList(m, m', nb, heads[d], lists[d]);
      }
    }
  }

  // ---- putting a block on its list -------------------------------------------------

  lemma File(m: Mem, B: Blocks, nb: nat, heads: seq<nat>, lists: Lists, holes: set<nat>, b: nat)
    requires Phys(B, nb) && MemOk(m, B) && Indexed(B, lists, holes) && Chained(m, nb, heads, lists)
    requires b in B && B[b].free && b in holes && Class(B[b].size) < CLASSES
    ensures var c := Class(B[b].size);
      var m', lists' := PushMem(m, nb, b, heads[c]), lists[c := [b] + lists[c]];
      && Chained(m', nb, heads[c := b], lists') && Indexed(B, lists', holes - {b})
      && MemOk(m', B) && Keeps(m, m', B)
  {
    var c := Class(B[b].size);
    var cur := heads[c];
    assert Chain(m, nb, heads, lists, c) && Entry(B, lists, holes, c);
    assert lists[c] != [] ==> lists[c][0] in lists[c];
    FileChains(m, B, nb, heads, lists, holes, b, c);
    FileIndex(B, lists, holes, b);
    var m1, m2 := m[b + 16 := cur], m[b + 16 := cur][b + 24 := nb];
    WriteLink(m, B, nb, b, b + 16, cur);
    WriteLink(m1, B, nb, b, b + 24, nb);
    WriteLink(m2, B, nb, cur, cur + 24, b);
    KeepsTrans(m, m1, m2, B, B);
    KeepsTrans(m, m2, PushMem(m, nb, b, cur), B, B);
  }

  lemma FileIndex(B: Blocks, lists: Lists, holes: set<nat>, b: nat)
    requires Indexed(B, lists, holes) && b in B && B[b].free && Class(B[b].size) < CLASSES
    ensures var c := Class(B[b].size); Indexed(B, lists[c := [b] + lists[c]], holes - {b})
  {
    var c := Class(B[b].size);
    var lists' := lists[c := [b] + lists[c]];
    forall d | 0 <= d < CLASSES ensures Entry(B, lists', holes - {b}, d) {
      assert Entry(B, lists, holes, d);
    }
    forall x | x in B ensures Filed(B, lists', holes - {b}, x) {
      assert Filed(B, lists, holes, x);
    }
  }

  lemma FileChains(m: Mem, B: Blocks, nb: nat, heads: seq<nat>, lists: Lists, holes: set<nat>, b: nat, c: nat)
    requires Phys(B, nb) && Indexed(B, lists, holes) && Chained(m, nb, heads, lists)
    requires b in B && B[b].free && b in holes && c < CLASSES
    ensures Chained(PushMem(m, nb, b, heads[c]), nb, heads[c := b], lists[c := [b] + lists[c]])
  {
    var L := lists[c];
    var m', lists' := PushMem(m, nb, b, heads[c]), lists[c := [b] + L];
    assert Chain(m, nb, heads, lists, c) && Entry(B, lists, holes, c);
    ListSpaced(B, nb, lists, holes, c, b);
    forall j | 0 <= j < |L| ensures AllSpaced(L[j], nb, L) {
      assert L[j] in L;
      ListSpaced(B, nb, lists, holes, c, L[j]);
    }
    PushList(m, nb, heads[c], L, b);
    var heads' := heads[c := b];
    forall d | 0 <= d < CLASSES ensures Chain(m', nb, heads', lists', d) {
      if d != c {
        assert Chain(m, nb, heads, lists, d) && Entry(B, lists, holes, d);
        forall j | 0 <= j < |lists[d]|
          ensures Rd(m', lists[d][j] + 16) == Rd(m, lists[d][j] + 16) && Rd(m', lists[d][j] + 24) == Rd(m, lists[d][j] + 24)
        {
          var x := lists[d][j];
          assert x in lists[d];
          ListSpaced(B, nb, lists, holes, c, x);
          NodesSpaced(B, nb, x, b);
          OtherLists(B, lists, holes, c, d, x);
          assert x != b && x != heads[c];
        }
        OtherList(m, m', nb, heads[d], lists[d]);
      }
    }
  }

  // ---- the two-level bitmap --------------------------------------------------------

  ghost predicate Marked(sl: seq<nat>, lists: Lists, c: nat)
    requires c / 32 < |sl| && c < |lists|
  {
    Bit(sl[c / 32], c % 32) <==> lists[c] != []
  }

  ghost predicate Summary(fl: nat, sl: seq<nat>, f: nat)
    requires f < |sl|
  {
    sl[f] < Pow2(32) && (Bit(fl, f) <==> sl[f] != 0)
  }

  ghost predicate Summaries(fl: nat, sl: seq<nat>) {
    && |sl| == FL_INDEX_COUNT && fl < Pow2(FL_INDEX_COUNT)
    && forall f {:trigger Summary(fl, sl, f)} :: 0 <= f < FL_INDEX_COUNT ==> Summary(fl, sl, f)
  }

  /** Second-level bits say which lists are non-empty, first-level bits which words are. */
  ghost predicate Mapped(fl: nat, sl: seq<nat>, lists: Lists) {
    && Summaries(fl, sl) && |lists| == CLASSES
    && forall c {:trigger Marked(sl, lists, c)} :: 0 <= c < CLASSES ==> Marked(sl, lists, c)
  }

  lemma MapUnchanged(fl: nat, sl: seq<nat>, lists: Lists, c: nat, L: seq<nat>)
    requires Mapped(fl, sl, lists) && c < CLASSES && (L == [] <==> lists[c] == [])
    ensures Mapped(fl, sl, lists[c := L])
  {
    var lists' := lists[c := L];
    forall d | 0 <= d < CLASSES ensures Marked(sl, lists', d) { assert Marked(sl, lists, d); }
  }

  lemma MapInsert(fl: nat, sl: seq<nat>, lists: Lists, c: nat, L: seq<nat>)
    requires Mapped(fl, sl, lists) && c < CLASSES && L != []
    ensures var f := c / 32;
      Mapped(SetBit(fl, f), sl[f := SetBit(sl[f], c % 32)], lists[c := L])
  {
    var f := c / 32;
    var sl', fl', lists' := sl[f := SetBit(sl[f], c % 32)], SetBit(fl, f), lists[c := L];
    forall d | 0 <= d < CLASSES ensures Marked(sl', lists', d) {
      assert Marked(sl, lists, d);
      SetBitOk(sl[f], c % 32, d % 32);
      assert d / 32 == f && d % 32 == c % 32 ==> d == c;
    }
    MapInsertSummary(fl, sl, lists, f, c % 32);
  }

  lemma MapInsertSummary(fl: nat, sl: seq<nat>, lists: Lists, f: nat, s: nat)
    requires Mapped(fl, sl, lists) && f < FL_INDEX_COUNT && s < 32
    ensures Summaries(SetBit(fl, f), sl[f := SetBit(sl[f], s)])
  {
    var sl', fl' := sl[f := SetBit(sl[f], s)], SetBit(fl, f);
    assert Summary(fl, sl, f);
    SetBitFits(fl, f, FL_INDEX_COUNT);
    SetBitFits(sl[f], s, 32);
    SetBitOk(sl[f], s, s);
    ZeroBit(s);
    forall g | 0 <= g < FL_INDEX_COUNT ensures Summary(fl', sl', g) {
      assert Summary(fl, sl, g);
      SetBitOk(fl, f, g);
    }
  }

  lemma MapEmpty(fl: nat, sl: seq<nat>, lists: Lists, c: nat)
    requires Mapped(fl, sl, lists) && c < CLASSES
    ensures var f := c / 32;
      var w := ClearBit(sl[f], c % 32);
      Mapped(if w == 0 then ClearBit(fl, f) else fl, sl[f := w], lists[c := []])
  {
    var f := c / 32;
    var w := ClearBit(sl[f], c % 32);
    var sl', fl', lists' := sl[f := w], if w == 0 then ClearBit(fl, f) else fl, lists[c := []];
    forall d | 0 <= d < CLASSES ensures Marked(sl', lists', d) {
      assert Marked(sl, lists, d);
      ClearBitOk(sl[f], c % 32, d % 32);
      assert d / 32 == f && d % 32 == c % 32 ==> d == c;
    }
    ClearBitFits(fl, f);
    ClearBitFits(sl[f], c % 32);
    forall g | 0 <= g < FL_INDEX_COUNT ensures Summary(fl', sl', g) {
      assert Summary(fl, sl, g);
      ClearBitOk(fl, f, g);
    }
  }

  ghost predicate NoneIn(lists: Lists, lo: nat, hi: nat) {
    forall d :: lo <= d < hi && d < |lists| ==> lists[d] == []
  }

  /** The result of search_suitable_block for class `c0`: the first non-empty list. */
  ghost predicate FirstFrom(lists: Lists, c0: nat, c: nat)
    requires |lists| == CLASSES
  {
    c0 <= c <= CLASSES && NoneIn(lists, c0, c) && (c < CLASSES ==> lists[c] != [])
  }

  lemma RowClear(fl: nat, sl: seq<nat>, lists: Lists, f: nat, s: nat, hi: nat)
    requires Mapped(fl, sl, lists) && f < FL_INDEX_COUNT && hi <= 32
    requires forall j :: s <= j < hi ==> !Bit(From(sl[f], s), j)
    ensures NoneIn(lists, 32 * f + s, 32 * f + hi)
  {
    forall d | 32 * f + s <= d < 32 * f + hi ensures lists[d] == [] {
      var j := d - 32 * f;
      Divide(f, j);
      assert Marked(sl, lists, d);
      FromOk(sl[f], s, j);
    }
  }

  lemma RowHit(fl: nat, sl: seq<nat>, lists: Lists, f: nat, s: nat)
    requires Mapped(fl, sl, lists) && f < FL_INDEX_COUNT && s < 32 && From(sl[f], s) != 0
    ensures var w := From(sl[f], s); s <= Ffs(w) < 32 && lists[32 * f + Ffs(w)] != []
  {
    var j: nat := Ffs(From(sl[f], s));
    assert Summary(fl, sl, f);
    FromOk(sl[f], s, j);
    BitBelow(sl[f], j, 32);
    Divide(f, j);
    assert Marked(sl, lists, 32 * f + j);
  }

  /** The lowest set second-level bit at or above `s` in row `f`. */
  lemma RowSearch(fl: nat, sl: seq<nat>, lists: Lists, f: nat, s: nat)
    requires Mapped(fl, sl, lists) && f < FL_INDEX_COUNT && s < 32
    ensures var w := From(sl[f], s);
      && (w == 0 ==> NoneIn(lists, 32 * f + s, 32 * f + 32))
      && (w != 0 ==> s <= Ffs(w) < 32 && lists[32 * f + Ffs(w)] != [] && NoneIn(lists, 32 * f + s, 32 * f + Ffs(w)))
  {
    var w := From(sl[f], s);
    assert Summary(fl, sl, f);
    if w != 0 {
      RowHit(fl, sl, lists, f, s);
      RowClear(fl, sl, lists, f, s, Ffs(w));
    } else {
      forall j | s <= j < 32 ensures !Bit(From(sl[f], s), j) { ZeroBit(j); }
      RowClear(fl, sl, lists, f, s, 32);
    }
  }

  /** Rows whose first-level bit is clear are empty. */
  lemma RowEmpty(fl: nat, sl: seq<nat>, lists: Lists, d: nat)
    requires Mapped(fl, sl, lists) && d < CLASSES && !Bit(fl, d / 32)
    ensures lists[d] == []
  {
    assert Summary(fl, sl, d / 32) && Marked(sl, lists, d);
    ZeroBit(d % 32);
  }

  /** The next row with any list, found in the first-level word. */
  lemma RowsSearch(fl: nat, sl: seq<nat>, lists: Lists, f: nat)
    requires Mapped(fl, sl, lists) && f <= FL_INDEX_COUNT
    ensures var w := From(fl, f);
      && (w == 0 ==> NoneIn(lists, 32 * f, CLASSES))
      && (w != 0 ==> f <= Ffs(w) < FL_INDEX_COUNT && sl[Ffs(w)] != 0 && NoneIn(lists, 32 * f, 32 * Ffs(w)))
  {
    var w := From(fl, f);
    FromFits(fl, f);
    if w != 0 {
      FromOk(fl, f, Ffs(w));
      BitBelow(fl, Ffs(w), FL_INDEX_COUNT);
      assert Summary(fl, sl, Ffs(w));
    }
    forall d | 32 * f <= d < CLASSES && (w != 0 ==> d < 32 * Ffs(w)) ensures lists[d] == [] {
      FromOk(fl, f, d / 32);
      if w == 0 { ZeroBit(d / 32); }
      RowEmpty(fl, sl, lists, d);
    }
  }
}
