/**
  The set of address intervals of `user/vma.c`: every interval is a node of a
  rank-balanced tree (module WavlTree, keyed by start address) and of a doubly linked
  list, and unused nodes are on a free list.  All nodes come from one fixed pool.
 */
module VmaSet {
  import opened WavlShape
  import opened WavlTree

  const VMA_POOL_MAX: nat := 256

  /** The fields of a node other than its start address and its links. */
  datatype Vma = Vma(end: int, prot: int, kind: int)

  type Infos = map<Ref, Vma>
  type Links = map<Ref, Ref>

  ghost predicate NoDup(s: seq<Ref>) {
    forall i, j :: 0 <= i < j < |s| ==> s[i] != s[j]
  }

  function At(s: seq<Ref>, i: int): Ref { if 0 <= i < |s| then s[i] else NULL }

  /** Following `next` from `head` visits exactly `s`. */
  ghost predicate Forward(next: Links, head: Ref, s: seq<Ref>) {
    && NoDup(s) && head == At(s, 0) && NULL !in s
    && (forall x :: x in s ==> x in next)
    && forall i {:trigger next[s[i]]} :: 0 <= i < |s| ==> next[s[i]] == At(s, i + 1)
  }

  /** Following `prev` from `tail` visits exactly `s`, backwards. */
  ghost predicate Backward(prev: Links, tail: Ref, s: seq<Ref>) {
    && NoDup(s) && tail == At(s, |s| - 1) && NULL !in s
    && (forall x :: x in s ==> x in prev)
    && forall i {:trigger prev[s[i]]} :: 0 <= i < |s| ==> prev[s[i]] == At(s, i - 1)
  }

  /** The intervals of `s` are not empty, sorted and disjoint. */
  ghost predicate Disjoint(key: Keys, info: Infos, s: seq<Ref>) {
    && (forall x :: x in s ==> x in key && x in info && key[x] < info[x].end)
    && (forall i, j {:trigger info[s[i]], key[s[j]]} :: 0 <= i < j < |s| ==> info[s[i]].end <= key[s[j]])
  }

  ghost predicate Overlaps(key: Keys, info: Infos, x: Ref, start: int, end: int)
    requires x in key && x in info
  {
    key[x] < end && start < info[x].end
  }

  ghost predicate Contains(key: Keys, info: Infos, x: Ref, addr: int)
    requires x in key && x in info
  {
    key[x] <= addr < info[x].end
  }

  ghost predicate AnyOverlap(key: Keys, info: Infos, s: seq<Ref>, start: int, end: int) {
    exists x :: x in s && x in key && x in info && Overlaps(key, info, x, start, end)
  }

  ghost predicate StartTaken(key: Keys, s: seq<Ref>, start: int) {
    exists x :: x in s && x in key && key[x] == start
  }

  ghost predicate NoneHolds(key: Keys, info: Infos, s: seq<Ref>, addr: int) {
    forall x :: x in s && x in key && x in info ==> !Contains(key, info, x, addr)
  }

  // ---- the two neighbour tests decide overlap --------------------------------------

  /** `at` splits the sorted nodes into those starting below `start` and the others. */
  ghost predicate SplitsAt(key: Keys, s: seq<Ref>, start: int, at: nat) {
    && at <= |s|
    && (forall x :: x in s ==> x in key)
    && (forall i :: 0 <= i < at ==> key[s[i]] < start)
    && (forall i :: at <= i < |s| ==> start <= key[s[i]])
  }

  lemma FirstFromSplits(key: Keys, s: seq<Ref>, k: int, res: Ref, at: nat)
    requires Ordered(key, s) && IsFirstFrom(key, s, k, res, at)
    ensures SplitsAt(key, s, k, at) && res == At(s, at)
  {
    forall i | 0 <= i < at ensures key[s[i]] < k {
      assert s[i] in s[..at];
    }
  }

  /** Looking only at the neighbours of the insertion point finds every overlap. */
  lemma NeighboursDecide(key: Keys, info: Infos, s: seq<Ref>, start: int, end: int, at: nat)
    requires Disjoint(key, info, s) && SplitsAt(key, s, start, at) && start < end
    ensures AnyOverlap(key, info, s, start, end) <==>
            || (at > 0 && info[s[at - 1]].end > start)
            || (at < |s| && key[s[at]] < end)
  {
    if at > 0 && info[s[at - 1]].end > start {
      assert s[at - 1] in s && Overlaps(key, info, s[at - 1], start, end);
    } else if at < |s| && key[s[at]] < end {
      assert s[at] in s && Overlaps(key, info, s[at], start, end);
    } else {
      forall x | x in s ensures !Overlaps(key, info, x, start, end) {
        var i :| 0 <= i < |s| && s[i] == x;
        if i < at {
          if i < at - 1 { assert info[s[i]].end <= key[s[at - 1]]; }
        } else {
          if i > at { assert info[s[at]].end <= key[s[i]]; assert s[at] in s; }
        }
      }
    }
  }

  /** Where there is no proper interval to insert, one that holds `start` beyond its first
      address is the only obstacle: the test of the node after the place never fails. */
  ghost predicate Straddled(key: Keys, info: Infos, s: seq<Ref>, start: int) {
    exists x :: x in s && x in key && x in info && key[x] < start < info[x].end
  }

  /** When vma_insert refuses an interval for its position. */
  ghost predicate Clashes(key: Keys, info: Infos, s: seq<Ref>, start: int, end: int) {
    if start < end then AnyOverlap(key, info, s, start, end) else Straddled(key, info, s, start)
  }

  lemma StraddleDecides(key: Keys, info: Infos, s: seq<Ref>, start: int, end: int, at: nat)
    requires Disjoint(key, info, s) && SplitsAt(key, s, start, at) && end <= start
    ensures Straddled(key, info, s, start) <==>
            || (at > 0 && info[s[at - 1]].end > start)
            || (at < |s| && key[s[at]] < end)
  {
    if at > 0 && info[s[at - 1]].end > start {
      assert s[at - 1] in s;
    } else {
      forall x | x in s ensures !(key[x] < start < info[x].end) {
        var i :| 0 <= i < |s| && s[i] == x;
        if i < at - 1 { assert info[s[i]].end <= key[s[at - 1]]; }
      }
    }
  }

  /** The two candidates of vma_find are the only intervals that can hold `addr`. */
  lemma CandidatesDecide(key: Keys, info: Infos, s: seq<Ref>, addr: int, at: nat)
    requires Disjoint(key, info, s) && SplitsAt(key, s, addr, at)
    ensures forall x :: x in s && Contains(key, info, x, addr) ==> x == At(s, at) || x == At(s, at - 1)
  {
    forall x | x in s && x != At(s, at) && x != At(s, at - 1) ensures !Contains(key, info, x, addr) {
      var i :| 0 <= i < |s| && s[i] == x;
      if i < at {
        assert info[s[i]].end <= key[s[at - 1]];
      }
    }
  }

  /** vma_find gives up only when no interval holds the address. */
  lemma FindMiss(key: Keys, info: Infos, s: seq<Ref>, addr: int, at: nat, p: nat)
    requires Disjoint(key, info, s) && SplitsAt(key, s, addr, at) && NULL !in s
    requires p < |s| && p == (if at < |s| then at else at - 1)
    requires !Contains(key, info, s[p], addr)
    requires p > 0 ==> !Contains(key, info, s[p - 1], addr)
    ensures NoneHolds(key, info, s, addr)
  {
    CandidatesDecide(key, info, s, addr, at);
  }

  lemma DisjointInsert(key: Keys, info: Infos, key': Keys, info': Infos, s: seq<Ref>, at: nat, v: Ref)
    requires Disjoint(key, info, s) && at <= |s|
    requires v in key' && v in info' && key'[v] < info'[v].end && v !in s
    requires forall x :: x in s ==> x in key' && key'[x] == key[x] && x in info' && info'[x].end == info[x].end
    requires SplitsAt(key, s, key'[v], at)
    requires at > 0 ==> info[s[at - 1]].end <= key'[v]
    requires at < |s| ==> info'[v].end <= key[s[at]]
    ensures Disjoint(key', info', InsertAt(s, at, v))
  {
    var u := InsertAt(s, at, v);
    forall x | x in u ensures x in key' && x in info' && key'[x] < info'[x].end {
      assert x == v || x in s[..at] || x in s[at..];
    }
    forall i | 0 <= i < at ensures info[s[i]].end <= key'[v] {
      if i < at - 1 { assert info[s[i]].end <= key[s[at - 1]] && s[at - 1] in s; }
    }
    forall i | at <= i < |s| ensures info'[v].end <= key[s[i]] {
      if i > at { assert info[s[at]].end <= key[s[i]] && s[at] in s; }
    }
    forall i, j | 0 <= i < j < |u| ensures info'[u[i]].end <= key'[u[j]] {
      InsertedPair(key, info, key', info', s, at, v, i, j);
    }
  }

  lemma InsertedPair(key: Keys, info: Infos, key': Keys, info': Infos, s: seq<Ref>, at: nat, v: Ref, i: nat, j: nat)
    requires Disjoint(key, info, s) && at <= |s| && v in key' && v in info'
    requires forall x :: x in s ==> x in key' && key'[x] == key[x] && x in info' && info'[x].end == info[x].end
    requires forall i :: 0 <= i < at ==> info[s[i]].end <= key'[v]
    requires forall i :: at <= i < |s| ==> info'[v].end <= key[s[i]]
    requires i < j <= |s|
    ensures var u := InsertAt(s, at, v);
      u[i] in info' && u[j] in key' && info'[u[i]].end <= key'[u[j]]
  {
    var u := InsertAt(s, at, v);
    assert i < at ==> u[i] == s[i] && s[i] in s;
    assert i > at ==> u[i] == s[i - 1] && s[i - 1] in s;
    assert j < at ==> u[j] == s[j] && s[j] in s;
    assert j > at ==> u[j] == s[j - 1] && s[j - 1] in s;
  }

  lemma DisjointRemove(key: Keys, info: Infos, info': Infos, s: seq<Ref>, at: nat)
    requires Disjoint(key, info, s) && at < |s|
    requires forall x :: x in s && x != s[at] ==> x in info' && info'[x].end == info[x].end
    requires NoDup(s)
    ensures Disjoint(key, info', RemoveAt(s, at))
  {
    var u := RemoveAt(s, at);
    forall x | x in u ensures x in s && x != s[at] {
      var i :| 0 <= i < |u| && u[i] == x;
      assert u[i] == s[if i < at then i else i + 1];
    }
    forall i, j | 0 <= i < j < |u| ensures info'[u[i]].end <= key[u[j]] {
      assert u[i] == s[if i < at then i else i + 1] && u[j] == s[if j < at then j else j + 1];
    }
  }

  /** An insertion between its neighbours meets no equal start address. */
  lemma NoEqualStart(key: Keys, s: seq<Ref>, start: int, end: int, at: nat, dup: Ref)
    requires SplitsAt(key, s, start, at) && Ordered(key, s) && start < end
    requires at < |s| ==> end <= key[s[at]]
    requires dup in s
    ensures key[dup] != start
  {
    var i :| 0 <= i < |s| && s[i] == dup;
    assert i > at ==> key[s[at]] < key[s[i]];
  }

  lemma OrderedRekey(key: Keys, s: seq<Ref>, v: Ref, k: int)
    requires Ordered(key, s) && v !in s
    ensures Ordered(key[v := k], s)
  {
    assert forall i :: 0 <= i < |s| ==> s[i] in s;
  }

  /** What a successful vma_insert has done to the tree walk `s'`: it agrees with the list
      and the intervals stay disjoint exactly when the new interval is not empty. */
  lemma PlaceOk(key0: Keys, info0: Infos, s: seq<Ref>, at: nat, v: Ref, start: int, rec: Vma,
                key: Keys, info: Infos, dup: Ref, at': nat, s': seq<Ref>)
    requires Disjoint(key0, info0, s) && SplitsAt(key0, s, start, at) && v !in s
    requires at > 0 ==> info0[s[at - 1]].end <= start
    requires at < |s| ==> rec.end <= key0[s[at]]
    requires key == key0[v := start] && info == info0[v := rec]
    requires Ordered(key, s) && Ordered(key, s')
    requires dup != NULL ==> dup in s && key[dup] == start && s' == s
    requires dup == NULL ==> at' <= |s| && s' == InsertAt(s, at', v) && forall x :: x in s ==> key[x] != start
    ensures (Disjoint(key, info, InsertAt(s, at, v)) && s' == InsertAt(s, at, v)) <==> start < rec.end
    ensures StartTaken(key0, s, start) ==> s' == s
  {
    assert InsertAt(s, at, v)[at] == v;
    assert v in InsertAt(s, at, v);
    assert SplitsAt(key, s, start, at);
    if start < rec.end {
      DisjointInsert(key0, info0, key, info, s, at, v);
      if dup != NULL { NoEqualStart(key, s, start, rec.end, at, dup); }
      InsertPositionUnique(key, s, start, at, at', v);
    }
  }

  // ---- list surgery ----------------------------------------------------------------

  lemma NoDupInsert(s: seq<Ref>, at: nat, v: Ref)
    requires NoDup(s) && at <= |s| && v !in s
    ensures NoDup(InsertAt(s, at, v))
    ensures forall x :: x in InsertAt(s, at, v) <==> x in s || x == v
  {
    var u := InsertAt(s, at, v);
    assert s == s[..at] + s[at..];
    forall i, j | 0 <= i < j < |u| ensures u[i] != u[j] {
      assert i != at ==> u[i] == s[if i < at then i else i - 1];
      assert j != at ==> u[j] == s[if j < at then j else j - 1];
    }
  }

  lemma NoDupRemove(s: seq<Ref>, at: nat)
    requires NoDup(s) && at < |s|
    ensures NoDup(RemoveAt(s, at))
    ensures forall x :: x in RemoveAt(s, at) <==> x in s && x != s[at]
  {
    var u := RemoveAt(s, at);
    assert s == s[..at] + [s[at]] + s[at + 1..];
    assert forall i :: 0 <= i < |u| ==> u[i] == s[if i < at then i else i + 1];
  }

  lemma SamePlace(s: seq<Ref>, i: nat, j: nat)
    requires NoDup(s) && i < |s| && j < |s| && s[i] == s[j]
    ensures i == j
  {
  }

  lemma ForwardInsert(next: Links, next': Links, head: Ref, s: seq<Ref>, at: nat, v: Ref)
    requires Forward(next, head, s) && at <= |s| && v != NULL && v !in s
    requires v in next' && next'[v] == At(s, at)
    requires at > 0 ==> s[at - 1] in next' && next'[s[at - 1]] == v
    requires forall x :: x in s && x != At(s, at - 1) ==> x in next' && next'[x] == next[x]
    ensures Forward(next', if at == 0 then v else head, InsertAt(s, at, v))
  {
    var u := InsertAt(s, at, v);
    NoDupInsert(s, at, v);
    forall i | 0 <= i < |u| ensures u[i] in next' && next'[u[i]] == At(u, i + 1) {
      assert i < at ==> u[i] == s[i] && s[i] in s;
      assert i > at ==> u[i] == s[i - 1] && s[i - 1] in s;
    }
  }

  lemma BackwardInsert(prev: Links, prev': Links, tail: Ref, s: seq<Ref>, at: nat, v: Ref)
    requires Backward(prev, tail, s) && at <= |s| && v != NULL && v !in s
    requires v in prev' && prev'[v] == At(s, at - 1)
    requires at < |s| ==> s[at] in prev' && prev'[s[at]] == v
    requires forall x :: x in s && x != At(s, at) ==> x in prev' && prev'[x] == prev[x]
    ensures Backward(prev', if at == |s| then v else tail, InsertAt(s, at, v))
  {
    var u := InsertAt(s, at, v);
    NoDupInsert(s, at, v);
    forall i | 0 <= i < |u| ensures u[i] in prev' && prev'[u[i]] == At(u, i - 1) {
      assert i < at ==> u[i] == s[i] && s[i] in s;
      assert i > at ==> u[i] == s[i - 1] && s[i - 1] in s;
    }
  }

  lemma ForwardRemove(next: Links, next': Links, head: Ref, s: seq<Ref>, at: nat)
    requires Forward(next, head, s) && at < |s|
    requires at > 0 ==> s[at - 1] in next' && next'[s[at - 1]] == At(s, at + 1)
    requires forall x :: x in s && x != At(s, at - 1) && x != s[at] ==> x in next' && next'[x] == next[x]
    ensures Forward(next', if at == 0 then At(s, 1) else head, RemoveAt(s, at))
  {
    var u := RemoveAt(s, at);
    NoDupRemove(s, at);
    forall i | 0 <= i < |u| ensures u[i] in next' && next'[u[i]] == At(u, i + 1) {
      var k := if i < at then i else i + 1;
      assert u[i] == s[k] && s[k] in s;
    }
  }

  lemma BackwardRemove(prev: Links, prev': Links, tail: Ref, s: seq<Ref>, at: nat)
    requires Backward(prev, tail, s) && at < |s|
    requires at < |s| - 1 ==> s[at + 1] in prev' && prev'[s[at + 1]] == At(s, at - 1)
    requires forall x :: x in s && x != At(s, at + 1) && x != s[at] ==> x in prev' && prev'[x] == prev[x]
    ensures Backward(prev', if at == |s| - 1 then At(s, at - 1) else tail, RemoveAt(s, at))
  {
    NoDupRemove(s, at);
    forall i | 0 <= i < |s| - 1 ensures BackAt(prev', RemoveAt(s, at), i) {
      BackwardRemoveAt(prev, prev', tail, s, at, i);
    }
    BackwardFrom(prev', if at == |s| - 1 then At(s, at - 1) else tail, RemoveAt(s, at));
  }

  ghost predicate BackAt(prev: Links, s: seq<Ref>, i: nat)
    requires i < |s|
  {
    s[i] in prev && prev[s[i]] == At(s, i - 1)
  }

  lemma BackwardFrom(prev: Links, tail: Ref, s: seq<Ref>)
    requires NoDup(s) && tail == At(s, |s| - 1) && NULL !in s
    requires forall i {:trigger BackAt(prev, s, i)} :: 0 <= i < |s| ==> BackAt(prev, s, i)
    ensures Backward(prev, tail, s)
  {
    forall i | 0 <= i < |s| ensures s[i] in prev && prev[s[i]] == At(s, i - 1) { assert BackAt(prev, s, i); }
  }

  lemma BackwardRemoveAt(prev: Links, prev': Links, tail: Ref, s: seq<Ref>, at: nat, i: nat)
    requires Backward(prev, tail, s) && at < |s| && i < |s| - 1
    requires at < |s| - 1 ==> s[at + 1] in prev' && prev'[s[at + 1]] == At(s, at - 1)
    requires forall x :: x in s && x != At(s, at + 1) && x != s[at] ==> x in prev' && prev'[x] == prev[x]
    ensures BackAt(prev', RemoveAt(s, at), i)
  {
    var u := RemoveAt(s, at);
    var k := if i < at then i else i + 1;
    assert u[i] == s[k] && s[k] in s;
    assert At(u, i - 1) == if i < at then At(s, i - 1) else if i == at then At(s, at - 1) else s[i];
  }

  lemma ForwardFrame(next: Links, next': Links, head: Ref, s: seq<Ref>)
    requires Forward(next, head, s)
    requires forall x :: x in s ==> x in next' && next'[x] == next[x]
    ensures Forward(next', head, s)
  {
    assert forall i :: 0 <= i < |s| ==> s[i] in s;
  }

  lemma ForwardTail(next: Links, head: Ref, s: seq<Ref>)
    requires Forward(next, head, s) && s != []
    ensures head == s[0] && head in next && Forward(next, next[head], s[1..]) && head !in s[1..]
  {
  }

  lemma InsertPositionUnique(key: Keys, s: seq<Ref>, k: int, at: nat, at': nat, v: Ref)
    requires SplitsAt(key, s, k, at) && v in key && key[v] == k && v !in s
    requires at' <= |s| && Ordered(key, InsertAt(s, at', v))
    ensures at == at'
  {
    var u := InsertAt(s, at', v);
    forall i | 0 <= i < at' ensures key[s[i]] < k {
      assert u[i] == s[i] && u[at'] == v;
    }
    forall i | at' <= i < |s| ensures k < key[s[i]] {
      assert u[i + 1] == s[i] && u[at'] == v;
    }
    var here := if at < |s| then key[s[at]] else k;
    var there := if at' < |s| then key[s[at']] else k;
  }

  /** The list and the free list are well formed and share the pool between them,
      except for `out` nodes on neither list. */
  ghost predicate Lists(prev: Links, next: Links, first: Ref, last: Ref, free: Ref, walk: seq<Ref>, spare: seq<Ref>, out: nat) {
    && Forward(next, first, walk) && Backward(prev, last, walk) && Forward(next, free, spare)
    && (forall x :: x in walk ==> x !in spare)
    && |walk| + |spare| + out == VMA_POOL_MAX
  }

  lemma ListsInsert(prev: Links, next: Links, first: Ref, last: Ref, free: Ref, walk: seq<Ref>, spare: seq<Ref>, at: nat, v: Ref)
    requires Lists(prev, next, first, last, free, walk, spare, 1)
    requires at <= |walk| && v != NULL && v !in walk && v !in spare
    ensures var b, a := At(walk, at - 1), At(walk, at);
      var n1 := next[v := a]; var n2 := if b == NULL then n1 else n1[b := v];
      var p1 := prev[v := b]; var p2 := if a == NULL then p1 else p1[a := v];
      Lists(p2, n2, if b == NULL then v else first, if a == NULL then v else last, free, InsertAt(walk, at, v), spare, 0)
  {
    var b, a := At(walk, at - 1), At(walk, at);
    assert (b != NULL ==> b in walk) && (a != NULL ==> a in walk);
    assert (at > 0 ==> walk[at - 1] in walk) && (at < |walk| ==> walk[at] in walk);
    var n1 := next[v := a];
    var n2 := if b == NULL then n1 else n1[b := v];
    var p1 := prev[v := b];
    var p2 := if a == NULL then p1 else p1[a := v];
    ForwardInsert(next, n2, first, walk, at, v);
    BackwardInsert(prev, p2, last, walk, at, v);
    ForwardFrame(next, n2, free, spare);
    NoDupInsert(walk, at, v);
  }

  lemma ListsRemove(prev: Links, next: Links, first: Ref, last: Ref, free: Ref, walk: seq<Ref>, spare: seq<Ref>, at: nat)
    requires Lists(prev, next, first, last, free, walk, spare, 0) && at < |walk|
    ensures walk[at] in prev && walk[at] in next && walk[at] != NULL && walk[at] !in spare
    ensures prev[walk[at]] == At(walk, at - 1) && next[walk[at]] == At(walk, at + 1)
    ensures var b, a := At(walk, at - 1), At(walk, at + 1);
      var n := if b == NULL then next else next[b := a];
      var p := if a == NULL then prev else prev[a := b];
      Lists(p, n, if b == NULL then a else first, if a == NULL then b else last, free, RemoveAt(walk, at), spare, 1)
    ensures forall x :: x in RemoveAt(walk, at) <==> x in walk && x != walk[at]
  {
    assert walk[at] in walk;
    var b, a := At(walk, at - 1), At(walk, at + 1);
    assert (b != NULL ==> b in walk) && (a != NULL ==> a in walk);
    assert (at > 0 ==> walk[at - 1] in walk) && (at < |walk| - 1 ==> walk[at + 1] in walk);
    var n := if b == NULL then next else next[b := a];
    var p := if a == NULL then prev else prev[a := b];
    ForwardRemove(next, n, first, walk, at);
    BackwardRemove(prev, p, last, walk, at);
    ForwardFrame(next, n, free, spare);
    NoDupRemove(walk, at);
  }

  /** The nodes of the pool in the order of the array. */
  ghost function PoolNodes(): (s: seq<Ref>)
    ensures |s| == VMA_POOL_MAX && forall i :: 0 <= i < VMA_POOL_MAX ==> s[i] == i + 1
  {
    seq(VMA_POOL_MAX, i => i + 1)
  }

  lemma PoolList(next: Links, s: seq<Ref>)
    requires |s| == VMA_POOL_MAX && forall i :: 0 <= i < VMA_POOL_MAX ==> s[i] == i + 1
    requires forall k :: 1 <= k <= VMA_POOL_MAX ==> k in next && next[k] == if k < VMA_POOL_MAX then k + 1 else NULL
    ensures Forward(next, 1, s)
  {
    forall x | x in s ensures x in next && x != NULL {}
  }

  class Set {
    const tree: RbTree
    var info: Infos
    var prev: Links
    var next: Links
    var first: Ref
    var last: Ref
    var free: Ref
    ghost var walk: seq<Ref>
    ghost var spare: seq<Ref>

    ghost predicate Shared(out: nat)
      reads this
    {
      Lists(prev, next, first, last, free, walk, spare, out)
    }

    /** The list is the tree's in-order walk over sorted, disjoint intervals. */
    ghost predicate Valid()
      reads this, tree
    {
      Shared(0) && tree.Valid() && InOrder(tree.tree) == walk && Disjoint(tree.key, info, walk)
    }

    /** vma_set_init on an unused pool. */
    constructor ()
      ensures Valid() && walk == [] && fresh(tree)
    {
      tree := new RbTree.Init();
      info, prev, next := map[], map[], map[];
      first, last, free := NULL, NULL, 1;
      walk := [];
      spare := PoolNodes();
      new;
      for i := 1 to VMA_POOL_MAX
        invariant forall k :: 1 <= k < i ==> k in next && next[k] == k + 1
        invariant walk == [] && first == last == NULL && free == 1 && spare == PoolNodes()
        invariant tree.Valid() && tree.tree == Empty && fresh(tree)
      {
        next := next[i := i + 1];
      }
      next := next[VMA_POOL_MAX := NULL];
      PoolList(next, spare);
    }

    /** vma_find on a non-empty set: the interval that holds `addr`, as a scan would find it. */
    method Find(addr: int) returns (v: Ref)
      requires Valid() && walk != []
      ensures v != NULL ==> v in walk && Contains(tree.key, info, v, addr)
      ensures v == NULL ==> NoneHolds(tree.key, info, walk, addr)
    {
      ghost var at, p;
      v, at := tree.NFind(addr);
      p := at;
      FirstFromSplits(tree.key, walk, addr, v, at);
      if v == NULL {
        v := tree.MinMax(1);
        p := |walk| - 1;
      }
      assert walk[p] == v && v in walk;
      if v != NULL && tree.key[v] <= addr && addr < info[v].end {
        return;
      }
      var before := tree.Prev(v, p);
      assert p > 0 ==> walk[p - 1] == before && before in walk;
      if before != NULL && tree.key[before] <= addr && addr < info[before].end {
        return before;
      }
      FindMiss(tree.key, info, walk, addr, at, p);
      v := NULL;
    }

    /** vma_alloc */
    method Alloc() returns (v: Ref)
      requires Shared(0)
      modifies this`free, this`spare
      ensures v == NULL <==> old(spare) == []
      ensures v == NULL ==> Shared(0) && free == old(free) && spare == old(spare)
      ensures v != NULL ==> Shared(1) && old(spare) == [v] + spare && v !in walk && v !in spare
    {
      v := free;
      if v != NULL {
        ForwardTail(next, free, spare);
        free := next[v];
        spare := spare[1..];
      }
    }

    /** vma_release */
    method Release(v: Ref)
      requires Shared(1) && v != NULL && v !in walk && v !in spare
      modifies this`free, this`spare, this`next
      ensures Shared(0) && spare == [v] + old(spare)
    {
      next := next[v := free];
      free := v;
      ForwardFrame(old(next), next, first, walk);
      ForwardFrame(old(next), next, old(free), spare);
      spare := [v] + spare;
    }

    /** The pointer writes of vma_insert that put `v` between `before` and `after`. */
    method Link(v: Ref, before: Ref, after: Ref, ghost at: nat)
      requires Shared(1) && v != NULL && v !in walk && v !in spare
      requires at <= |walk| && before == At(walk, at - 1) && after == At(walk, at)
      modifies this`prev, this`next, this`first, this`last, this`walk
      ensures walk == InsertAt(old(walk), at, v)
      ensures Shared(0)
    {
      ListsInsert(prev, next, first, last, free, walk, spare, at, v);
      prev := prev[v := before];
      next := next[v := after];
      if before != NULL {
        next := next[before := v];
      } else {
        first := v;
      }
      if after != NULL {
        prev := prev[after := v];
      } else {
        last := v;
      }
      walk := InsertAt(walk, at, v);
    }

    /** The pointer writes of vma_remove that take `v` out of the list. */
    method Unlink(v: Ref, ghost at: nat)
      requires Shared(0) && at < |walk| && walk[at] == v
      modifies this`prev, this`next, this`first, this`last, this`walk
      ensures walk == RemoveAt(old(walk), at) && v !in walk && v !in spare && v != NULL
      ensures forall x :: x in walk ==> x in old(walk) && x != v
      ensures Shared(1)
    {
      ListsRemove(prev, next, first, last, free, walk, spare, at);
      var before, after := prev[v], next[v];
      if before != NULL {
        next := next[before := after];
      } else {
        first := after;
      }
      if after != NULL {
        prev := prev[after := before];
      } else {
        last := before;
      }
      walk := RemoveAt(walk, at);
    }

    /** The search half of vma_insert: the neighbours of the place where `start` belongs. */
    method Neighbours(start: int) returns (before: Ref, after: Ref, ghost at: nat)
      requires Valid()
      ensures SplitsAt(tree.key, walk, start, at) && before == At(walk, at - 1) && after == At(walk, at)
      ensures (before == NULL <==> at == 0) && (after == NULL <==> at == |walk|)
    {
      after, at := tree.NFind(start);
      FirstFromSplits(tree.key, walk, start, after, at);
      if after != NULL {
        before := tree.Prev(after, at);
      } else {
        before := tree.MinMax(1);
      }
    }

    /** The second half of vma_insert, once a node `v` has been taken. */
    method Place(v: Ref, start: int, end: int, prot: int, kind: int, before: Ref, after: Ref, ghost at: nat)
      requires Shared(1) && v != NULL && v !in walk && v !in spare
      requires tree.Valid() && InOrder(tree.tree) == walk && Disjoint(tree.key, info, walk)
      requires SplitsAt(tree.key, walk, start, at) && before == At(walk, at - 1) && after == At(walk, at)
      requires at > 0 ==> info[walk[at - 1]].end <= start
      requires at < |walk| ==> end <= tree.key[walk[at]]
      modifies this`info, this`prev, this`next, this`first, this`last, this`walk, tree
      ensures Shared(0) && walk == InsertAt(old(walk), at, v)
      ensures tree.key == old(tree.key)[v := start] && info == old(info)[v := Vma(end, prot, kind)]
      ensures Valid() <==> start < end
      ensures StartTaken(old(tree.key), old(walk), start) ==> InOrder(tree.tree) == old(walk)
    {
      OrderedRekey(tree.key, walk, v, start);
      InOrderIds(tree.tree);
      tree.key := tree.key[v := start];
      info := info[v := Vma(end, prot, kind)];
      Link(v, before, after, at);
      var dup;
      ghost var at';
      dup, at' := tree.Insert(v);
      PlaceOk(old(tree.key), old(info), old(walk), at, v, start, Vma(end, prot, kind),
              tree.key, info, dup, at', InOrder(tree.tree));
    }

    /** vma_insert. */
    method Insert(start: int, end: int, prot: int, kind: int) returns (r: int, ghost at: nat, ghost v: Ref)
      requires Valid()
      modifies this, tree
      ensures Shared(0)
      ensures r == 0 || r == -1
      ensures r == -1 <==> old(spare) == [] || Clashes(old(tree.key), old(info), old(walk), start, end)
      ensures r == -1 ==>
        Valid() && walk == old(walk) && spare == old(spare) && info == old(info) && tree.key == old(tree.key)
      ensures r == 0 ==>
        && old(spare) == [v] + spare
        && at <= |old(walk)| && walk == InsertAt(old(walk), at, v)
        && tree.key == old(tree.key)[v := start] && info == old(info)[v := Vma(end, prot, kind)]
      ensures Valid() <==> start < end || old(spare) == [] || Straddled(old(tree.key), old(info), old(walk), start)
      ensures r == 0 && StartTaken(old(tree.key), old(walk), start) ==> InOrder(tree.tree) == old(walk)
    {
      var clash, before, after;
      clash, before, after, at := Probe(start, end);
      v := NULL;
      if clash { return -1, at, v; }
      var n := TakeAndPlace(start, end, prot, kind, before, after, at);
      v := n;
      r := if n == NULL then -1 else 0;
    }

    /** The overlap tests of vma_insert. */
    method Probe(start: int, end: int) returns (clash: bool, before: Ref, after: Ref, ghost at: nat)
      requires Valid()
      ensures clash <==> Clashes(tree.key, info, walk, start, end)
      ensures SplitsAt(tree.key, walk, start, at) && before == At(walk, at - 1) && after == At(walk, at)
      ensures !clash ==> at > 0 ==> info[walk[at - 1]].end <= start
      ensures !clash ==> at < |walk| ==> end <= tree.key[walk[at]]
    {
      before, after, at := Neighbours(start);
      if start < end {
        NeighboursDecide(tree.key, info, walk, start, end, at);
      } else {
        StraddleDecides(tree.key, info, walk, start, end, at);
      }
      assert before != NULL ==> before in walk;
      if before != NULL && info[before].end > start { return true, before, after, at; }
      if after != NULL && tree.key[after] < end { return true, before, after, at; }
      clash := false;
    }

    /** The rest of vma_insert; NULL when the pool is exhausted. */
    method TakeAndPlace(start: int, end: int, prot: int, kind: int, before: Ref, after: Ref, ghost at: nat) returns (v: Ref)
      requires Valid() && SplitsAt(tree.key, walk, start, at) && before == At(walk, at - 1) && after == At(walk, at)
      requires at > 0 ==> info[walk[at - 1]].end <= start
      requires at < |walk| ==> end <= tree.key[walk[at]]
      modifies this, tree
      ensures Shared(0)
      ensures v == NULL <==> old(spare) == []
      ensures v == NULL ==> Valid() && walk == old(walk) && spare == old(spare) && info == old(info) && tree.key == old(tree.key)
      ensures v != NULL ==> old(spare) == [v] + spare && walk == InsertAt(old(walk), at, v)
      ensures v != NULL ==> tree.key == old(tree.key)[v := start] && info == old(info)[v := Vma(end, prot, kind)]
      ensures v != NULL ==> (Valid() <==> start < end)
      ensures v != NULL && StartTaken(old(tree.key), old(walk), start) ==> InOrder(tree.tree) == old(walk)
    {
      v := Alloc();
      if v == NULL { return; }
      Place(v, start, end, prot, kind, before, after, at);
    }

    /** Removing `v` from the tree whose walk is `s`. */
    method Uproot(v: Ref, ghost s: seq<Ref>, ghost at: nat)
      requires tree.Valid() && InOrder(tree.tree) == s && NoDup(s) && at < |s| && s[at] == v
      modifies tree
      ensures tree.Valid() && InOrder(tree.tree) == RemoveAt(s, at) && tree.key == old(tree.key)
    {
      InOrderIds(tree.tree);
      assert v in s;
      var out;
      ghost var at';
      out, at' := tree.Remove(v);
      SamePlace(s, at, at');
    }

    /** vma_remove: `v`, a node of the set, leaves the list and the tree and becomes free. */
    method Remove(v: Ref, ghost at: nat)
      requires Valid() && at < |walk| && walk[at] == v
      modifies this, tree
      ensures Valid() && walk == RemoveAt(old(walk), at) && spare == [v] + old(spare)
      ensures info == old(info) && tree.key == old(tree.key)
    {
      Detach(v, at);
      Release(v);
    }

    method Detach(v: Ref, ghost at: nat)
      requires Valid() && at < |walk| && walk[at] == v
      modifies this`prev, this`next, this`first, this`last, this`walk, tree
      ensures Shared(1) && v != NULL && v !in walk && v !in spare && walk == RemoveAt(old(walk), at)
      ensures tree.Valid() && InOrder(tree.tree) == walk && Disjoint(tree.key, info, walk)
      ensures tree.key == old(tree.key)
    {
      DisjointRemove(tree.key, info, info, walk, at);
      Unlink(v, at);
      Uproot(v, old(walk), at);
    }
  }

  lemma StartedAt(key: Keys, v: Ref, start: int)
    requires v in key && key[v] == start
    ensures StartTaken(key, [v], start)
  {
    assert v in [v];
  }

  /** [5, 9) and then [5, 5): both calls succeed, and the second node is on the list but not
      in the tree. */
  method EmptyInterval() returns (s: Set)
    ensures fresh(s) && |s.walk| == 2 && |InOrder(s.tree.tree)| == 1 && !s.Valid()
  {
    s := new Set();
    var first, at, v := s.Insert(5, 9, 0, 0);
    assert s.walk == [v] && |InOrder(s.tree.tree)| == 1;
    StartedAt(s.tree.key, v, 5);
    var second, at', w := s.Insert(5, 5, 0, 0);
    assert second == 0;
  }
}
