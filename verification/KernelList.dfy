/**
  The intrusive circular lists of `include/koharu/list.h`: a head node and the nodes of the
  list linked both ways.  Each operation on the links is one on the sequence of nodes.
 */
module KernelList {

  type Ref = nat // 0 is NULL

  type Links = map<Ref, Ref>

  function Succ(n: nat, i: nat): nat { if i + 1 == n then 0 else i + 1 }

  ghost predicate Distinct(c: seq<Ref>) { forall i, j :: 0 <= i < j < |c| ==> c[i] != c[j] }

  /** Node i of the cycle and the one after it point at each other. */
  predicate Joined(next: Links, prev: Links, c: seq<Ref>, i: nat)
    requires i < |c|
  {
    var j := Succ(|c|, i);
    c[i] in next && c[j] in prev && next[c[i]] == c[j] && prev[c[j]] == c[i]
  }

  ghost predicate Cycle(next: Links, prev: Links, c: seq<Ref>) {
    c != [] && Distinct(c) && forall i {:trigger Joined(next, prev, c, i)} :: 0 <= i < |c| ==> Joined(next, prev, c, i)
  }

  /** The list with head `h` holds the nodes `l`, in this order. */
  ghost predicate Ring(next: Links, prev: Links, h: Ref, l: seq<Ref>) { Cycle(next, prev, [h] + l) }

  /** Links outside the cycle do not matter to it. */
  lemma CycleFrame(next: Links, prev: Links, next': Links, prev': Links, c: seq<Ref>)
    requires Cycle(next, prev, c)
    requires forall r :: r in c ==> (r in next ==> r in next' && next'[r] == next[r]) && (r in prev ==> r in prev' && prev'[r] == prev[r])
    ensures Cycle(next', prev', c)
  {
    forall i | 0 <= i < |c| ensures Joined(next', prev', c, i) {
      assert Joined(next, prev, c, i) && c[i] in c && c[Succ(|c|, i)] in c;
    }
  }

  ghost function Inserted(c: seq<Ref>, i: nat, x: Ref): seq<Ref>
    requires i < |c|
  {
    c[..i + 1] + [x] + c[i + 1..]
  }

  /** Linking `x` between node i and the one after it. */
  lemma InsertCycle(next: Links, prev: Links, c: seq<Ref>, i: nat, x: Ref)
    requires Cycle(next, prev, c) && i < |c| && x !in c
    ensures var p, n := c[i], c[Succ(|c|, i)];
      Cycle(next[x := n][p := x], prev[n := x][x := p], Inserted(c, i, x))
  {
    var p, n := c[i], c[Succ(|c|, i)];
    var next', prev', d := next[x := n][p := x], prev[n := x][x := p], Inserted(c, i, x);
    forall k | 0 <= k < |d| ensures Joined(next', prev', d, k) {
      if k <= i { assert Joined(next, prev, c, k); }
      if k > i + 1 { assert Joined(next, prev, c, k - 1); }
      assert Joined(next, prev, c, i);
    }
  }

  /** Unlinking node i, which is not the head. */
  lemma DeleteCycle(next: Links, prev: Links, c: seq<Ref>, i: nat)
    requires Cycle(next, prev, c) && 0 < i < |c|
    ensures var p, n := c[i - 1], c[Succ(|c|, i)];
      Cycle(next[p := n], prev[n := p], c[..i] + c[i + 1..])
  {
    var p, n := c[i - 1], c[Succ(|c|, i)];
    var next', prev', d := next[p := n], prev[n := p], c[..i] + c[i + 1..];
    forall k | 0 <= k < |d| ensures Joined(next', prev', d, k) {
      if k < i { assert Joined(next, prev, c, k); }
      if k >= i { assert Joined(next, prev, c, k + 1); }
      assert Joined(next, prev, c, i) && Joined(next, prev, c, i - 1);
    }
  }

  class Nodes {
    var next: Links
    var prev: Links

    ghost predicate Holds(h: Ref, l: seq<Ref>)
      reads this
    {
      Ring(next, prev, h, l)
    }

    /** list_init. */
    method Init(h: Ref)
      modifies this
      ensures Holds(h, [])
      ensures forall g: Ref, l: seq<Ref> {:trigger old(Holds(g, l))} :: old(Holds(g, l)) && h !in [g] + l ==> Holds(g, l)
    {
      next, prev := next[h := h], prev[h := h];
      assert Joined(next, prev, [h], 0);
      forall g: Ref, l: seq<Ref> | old(Holds(g, l)) && h !in [g] + l ensures Holds(g, l) {
        CycleFrame(old(next), old(prev), next, prev, [g] + l);
      }
    }

    /** __list_add: the four stores of the source, in its order. */
    method AddBetween(x: Ref, p: Ref, n: Ref, ghost c: seq<Ref>, ghost i: nat)
      requires Cycle(next, prev, c) && i < |c| && x !in c && p == c[i] && n == c[Succ(|c|, i)]
      modifies this
      ensures Cycle(next, prev, Inserted(c, i, x))
      ensures Others(old(next), old(prev), next, prev, [x, p, n])
    {
      InsertCycle(next, prev, c, i, x);
      prev := prev[n := x];
      next := next[x := n];
      prev := prev[x := p];
      next := next[p := x];
    }

    /** list_add: at the front. */
    method Add(x: Ref, h: Ref, ghost l: seq<Ref>)
      requires Holds(h, l) && x != h && x !in l
      modifies this
      ensures Holds(h, [x] + l)
      ensures forall g: Ref, m: seq<Ref> {:trigger old(Holds(g, m))} :: old(Holds(g, m)) && Apart([x, h] + l, [g] + m) ==> Holds(g, m)
    {
      ghost var c := [h] + l;
      assert Joined(next, prev, c, 0);
      AddBetween(x, h, next[h], c, 0);
      assert Inserted(c, 0, x) == [h] + ([x] + l);
      forall g: Ref, m: seq<Ref> | old(Holds(g, m)) && Apart([x, h] + l, [g] + m) ensures Holds(g, m) {
        ApartFrame(old(next), old(prev), next, prev, [x, h, c[Succ(|c|, 0)]], [x, h] + l, [g] + m);
      }
    }

    /** list_add_tail: at the back. */
    method AddTail(x: Ref, h: Ref, ghost l: seq<Ref>)
      requires Holds(h, l) && x != h && x !in l
      modifies this
      ensures Holds(h, l + [x])
      ensures forall g: Ref, m: seq<Ref> {:trigger old(Holds(g, m))} :: old(Holds(g, m)) && Apart([x, h] + l, [g] + m) ==> Holds(g, m)
    {
      ghost var c := [h] + l;
      ghost var k := |c| - 1;
      assert Joined(next, prev, c, k);
      AddBetween(x, prev[h], h, c, k);
      assert Inserted(c, k, x) == [h] + (l + [x]);
      forall g: Ref, m: seq<Ref> | old(Holds(g, m)) && Apart([x, h] + l, [g] + m) ensures Holds(g, m) {
        ApartFrame(old(next), old(prev), next, prev, [x, c[k], h], [x, h] + l, [g] + m);
      }
    }

    /** list_del: the node leaves its list and its own links become NULL. */
    method Delete(x: Ref, ghost h: Ref, ghost l: seq<Ref>, ghost k: nat)
      requires Holds(h, l) && k < |l| && l[k] == x
      modifies this
      ensures Holds(h, l[..k] + l[k + 1..])
      ensures x in next && x in prev && next[x] == 0 && prev[x] == 0
      ensures forall g: Ref, m: seq<Ref> {:trigger old(Holds(g, m))} :: old(Holds(g, m)) && Apart([h] + l, [g] + m) ==> Holds(g, m)
    {
      ghost var c := [h] + l;
      assert c[k + 1] == x;
      assert Joined(next, prev, c, k) && Joined(next, prev, c, k + 1);
      DeleteCycle(next, prev, c, k + 1);
      var p, n := prev[x], next[x];
      prev := prev[n := p];
      next := next[p := n];
      ghost var d := c[..k + 1] + c[k + 2..];
      assert d == [h] + (l[..k] + l[k + 1..]);
      assert Cycle(next, prev, d);
      assert x !in d by { NotIn(c, k + 1); }
      CycleFrame(next, prev, next[x := 0], prev[x := 0], d);
      next := next[x := 0];
      prev := prev[x := 0];
      forall g: Ref, m: seq<Ref> | old(Holds(g, m)) && Apart([h] + l, [g] + m) ensures Holds(g, m) {
        ApartFrame(old(next), old(prev), next, prev, [x, p, n], [h] + l, [g] + m);
      }
    }

    /** list_empty. */
    method Empty(h: Ref, ghost l: seq<Ref>) returns (r: bool)
      requires Holds(h, l)
      ensures r <==> l == []
    {
      ghost var c := [h] + l;
      assert Joined(next, prev, c, 0);
      return next[h] == h;
    }
  }

  ghost predicate Apart(a: seq<Ref>, b: seq<Ref>) { forall r :: r in a ==> r !in b }

  /** Only the nodes `touched` have other links. */
  ghost predicate Others(next: Links, prev: Links, next': Links, prev': Links, touched: seq<Ref>) {
    forall r :: r !in touched ==>
      (r in next ==> r in next' && next'[r] == next[r]) && (r in prev ==> r in prev' && prev'[r] == prev[r])
  }

  lemma ApartFrame(next: Links, prev: Links, next': Links, prev': Links, touched: seq<Ref>, a: seq<Ref>, c: seq<Ref>)
    requires Cycle(next, prev, c) && Others(next, prev, next', prev', touched) && Apart(a, c)
    requires forall r :: r in touched ==> r in a
    ensures Cycle(next', prev', c)
  {
    CycleFrame(next, prev, next', prev', c);
  }

  lemma NotIn(c: seq<Ref>, i: nat)
    requires Distinct(c) && i < |c|
    ensures c[i] !in c[..i] + c[i + 1..]
  {
  }
}
