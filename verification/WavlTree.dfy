/**
  The rank-balanced tree operations of `user/include/tree.h`, on the memory cells
  of module WavlShape.

  `RbTree` keeps the head (`root`), the cells of its nodes (`mem`) and the key that
  `vma_cmp` compares (`key`).  `tree` is the functional tree the cells hold.  A tree has the
  cells of its own nodes only, so no operation can touch the node of another tree; insertion
  takes over the cell of the new node and removal gives it up.
 */
module WavlTree {
  import opened Powers
  import opened WavlShape

  // ---- ranks -----------------------------------------------------------------------

  function Diff(red: bool): int { if red then 2 else 1 }

  /** The rank that the red bits on the leftmost path give; NULL has rank -1. */
  function Rank(t: Tree): int {
    if t.Empty? then -1 else Rank(t.l) + Diff(t.rl)
  }

  predicate IsLeaf(t: Tree) { t.Node? && t.l.Empty? && t.r.Empty? }

  /** The weak-AVL rule: both sides give the same rank, and a leaf has clear bits. */
  predicate Wavl(t: Tree) {
    t.Node? ==>
      && Wavl(t.l) && Wavl(t.r)
      && Rank(t.l) + Diff(t.rl) == Rank(t.r) + Diff(t.rr)
      && (IsLeaf(t) ==> !t.rl && !t.rr)
  }

  /** The rule for a path whose hole is filled by a subtree of rank `k`. */
  predicate WavlC(c: Ctx, k: int) {
    match c
    case Top => true
    case InL(_, rl, rr, s, up) =>
      && Wavl(s) && k + Diff(rl) == Rank(s) + Diff(rr)
      && (k == -1 && s.Empty? ==> !rl && !rr) && WavlC(up, k + Diff(rl))
    case InR(_, rl, rr, s, up) =>
      && Wavl(s) && k + Diff(rr) == Rank(s) + Diff(rl)
      && (k == -1 && s.Empty? ==> !rl && !rr) && WavlC(up, k + Diff(rr))
  }

  lemma RankBound(t: Tree)
    ensures Rank(t) >= -1 && (t.Node? ==> Rank(t) >= 0)
  {
  }

  lemma {:induction false} PlugWavl(c: Ctx, t: Tree)
    requires Wavl(t) && WavlC(c, Rank(t))
    ensures Wavl(Plug(c, t))
    decreases c
  {
    RankBound(t);
    if !c.Top? {
      RankBound(c.sib);
      PlugWavl(c.up, Join(c, t));
    }
  }

  lemma {:induction false} UnplugWavl(c: Ctx, t: Tree)
    requires Wavl(Plug(c, t))
    ensures Wavl(t) && WavlC(c, Rank(t))
    decreases c
  {
    RankBound(t);
    if !c.Top? {
      RankBound(c.sib);
      UnplugWavl(c.up, Join(c, t));
    }
  }

  // ---- single steps on the cells ---------------------------------------------------

  function SetParent(mem: Mem, dst: Ref, src: Ref): Mem
    requires dst in mem
  {
    mem[dst := mem[dst].(parent := src)]
  }

  function SetBits(mem: Mem, x: Ref, redL: bool, redR: bool): Mem
    requires x in mem
  {
    mem[x := mem[x].(redL := redL, redR := redR)]
  }

  function FlipLeft(mem: Mem, x: Ref): Mem
    requires x in mem
  {
    SetBits(mem, x, !mem[x].redL, mem[x].redR)
  }

  function FlipRight(mem: Mem, x: Ref): Mem
    requires x in mem
  {
    SetBits(mem, x, mem[x].redL, !mem[x].redR)
  }

  function RotatedLeft(t: Tree): Tree
    requires t.Node? && t.r.Node?
  {
    t.r.(l := t.(r := t.r.l))
  }

  function RotatedRight(t: Tree): Tree
    requires t.Node? && t.l.Node?
  {
    t.l.(r := t.(l := t.l.r))
  }

  /** Setting the red bits of the focused node. */
  lemma {:induction false} BitsFocus(mem: Mem, root: Ref, c: Ctx, t: Tree, rl: bool, rr: bool)
    requires Focus(mem, root, c, t) && t.Node?
    ensures Focus(SetBits(mem, t.id, rl, rr), root, c, t.(rl := rl, rr := rr))
  {
    var mem' := SetBits(mem, t.id, rl, rr);
    RepFrame(mem, mem', t.id, t.l);
    RepFrame(mem, mem', t.id, t.r);
    RepCFrame(mem, mem', root, c, t.id);
  }

  /** Setting the red bits of the node directly above the focus. */
  lemma {:induction false} BitsAbove(mem: Mem, root: Ref, c: Ctx, t: Tree, rl: bool, rr: bool)
    requires Focus(mem, root, c, t) && !c.Top?
    ensures Focus(SetBits(mem, c.id, rl, rr), root, c.(rl := rl, rr := rr), t)
  {
    FocusUp(mem, root, c, t);
    BitsFocus(mem, root, c.up, Join(c, t), rl, rr);
    FocusUp(SetBits(mem, c.id, rl, rr), root, c.(rl := rl, rr := rr), t);
  }

  lemma {:induction false} RotatedIds(t: Tree)
    requires t.Node? && Distinct(t)
    ensures t.r.Node? ==> Ids(RotatedLeft(t)) == Ids(t) && Distinct(RotatedLeft(t))
    ensures t.l.Node? ==> Ids(RotatedRight(t)) == Ids(t) && Distinct(RotatedRight(t))
  {
    if t.r.Node? {
      var s := t.(r := t.r.l);
      assert Ids(t.r) == Ids(t.r.l) + {t.r.id} + Ids(t.r.r);
      assert Ids(s) == Ids(t.l) + {t.id} + Ids(t.r.l) && Distinct(s);
    }
    if t.l.Node? {
      var s := t.(l := t.l.r);
      assert Ids(t.l) == Ids(t.l.l) + {t.l.id} + Ids(t.l.r);
      assert Ids(s) == Ids(t.l.r) + {t.id} + Ids(t.r) && Distinct(s);
    }
  }

  /** What a rotation below `c` leaves in memory: `up` replaces `down` as the child of
      `c`'s end, `inner` moves from `up` to `down`, and nothing else changes. */
  ghost predicate Rotated(m0: Mem, r0: Ref, m: Mem, r: Ref, c: Ctx, down: Ref, up: Ref, inner: Ref, left: bool) {
    && down in m0 && up in m0 && m.Keys == m0.Keys
    && down in m && up in m
    && m[down] == (if left then m0[down].(right := inner, parent := up) else m0[down].(left := inner, parent := up))
    && m[up] == (if left then m0[up].(left := down, parent := Hook(c)) else m0[up].(right := down, parent := Hook(c)))
    && (inner != NULL ==> inner in m0 && inner in m && m[inner] == m0[inner].(parent := down))
    && (c.Top? ==> r == up)
    && (!c.Top? ==>
          && r == r0 && c.id in m0 && c.id in m
          && m[c.id] == if c.InL? then m0[c.id].(left := up) else m0[c.id].(right := up))
    && (forall x :: x in m0 && x != down && x != up && x != Hook(c) && (inner == NULL || x != inner) ==> x in m && m[x] == m0[x])
  }

  /** The subtrees and the path around a rotation, in the new memory. */
  lemma {:induction false} RotatedLeftParts(m0: Mem, r0: Ref, m: Mem, r: Ref, c: Ctx, t: Tree)
    requires Focus(m0, r0, c, t) && t.Node? && t.r.Node?
    requires Rotated(m0, r0, m, r, c, t.id, t.r.id, Ptr(t.r.l), true)
    ensures Rep(m, t.id, t.l) && Rep(m, t.id, t.r.l) && Rep(m, t.r.id, t.r.r) && RepC(m, r, c, t.r.id)
  {
    var b := t.r.l;
    assert Rep(m0, t.id, t.r) && Rep(m0, t.r.id, b) && Rep(m0, t.r.id, t.r.r);
    assert Distinct(t.r) && Ids(t.r) == Ids(b) + {t.r.id} + Ids(t.r.r);
    RepCIds(m0, r0, c, t.id);
    RepIds(m0, Hook(c), t);
    assert !c.Top? ==> c.id in IdsC(c);
    assert b.Node? ==> b.id in Ids(b);
    RepFrame(m0, m, t.id, t.l);
    RepHang(m0, m, t.r.id, t.id, b);
    RepFrame(m0, m, t.r.id, t.r.r);
    RepCHole(m0, m, r0, r, c, t.id, t.r.id);
  }

  lemma {:induction false} RotatedLeftFocus(m0: Mem, r0: Ref, m: Mem, r: Ref, c: Ctx, t: Tree)
    requires Focus(m0, r0, c, t) && t.Node? && t.r.Node?
    requires Rotated(m0, r0, m, r, c, t.id, t.r.id, Ptr(t.r.l), true)
    ensures Focus(m, r, c, RotatedLeft(t))
  {
    RotatedLeftParts(m0, r0, m, r, c, t);
    RotatedIds(t);
    assert Rep(m0, Hook(c), t) && Rep(m0, t.id, t.r);
    assert Rep(m, t.r.id, t.(r := t.r.l));
  }

  /** The subtrees and the path around a rotation, in the new memory. */
  lemma {:induction false} RotatedRightParts(m0: Mem, r0: Ref, m: Mem, r: Ref, c: Ctx, t: Tree)
    requires Focus(m0, r0, c, t) && t.Node? && t.l.Node?
    requires Rotated(m0, r0, m, r, c, t.id, t.l.id, Ptr(t.l.r), false)
    ensures Rep(m, t.id, t.r) && Rep(m, t.id, t.l.r) && Rep(m, t.l.id, t.l.l) && RepC(m, r, c, t.l.id)
  {
    var b := t.l.r;
    assert Rep(m0, t.id, t.l) && Rep(m0, t.l.id, b) && Rep(m0, t.l.id, t.l.l);
    assert Distinct(t.l) && Ids(t.l) == Ids(t.l.l) + {t.l.id} + Ids(b);
    RepCIds(m0, r0, c, t.id);
    RepIds(m0, Hook(c), t);
    assert !c.Top? ==> c.id in IdsC(c);
    assert b.Node? ==> b.id in Ids(b);
    RepFrame(m0, m, t.id, t.r);
    RepHang(m0, m, t.l.id, t.id, b);
    RepFrame(m0, m, t.l.id, t.l.l);
    RepCHole(m0, m, r0, r, c, t.id, t.l.id);
  }

  lemma {:induction false} RotatedRightFocus(m0: Mem, r0: Ref, m: Mem, r: Ref, c: Ctx, t: Tree)
    requires Focus(m0, r0, c, t) && t.Node? && t.l.Node?
    requires Rotated(m0, r0, m, r, c, t.id, t.l.id, Ptr(t.l.r), false)
    ensures Focus(m, r, c, RotatedRight(t))
  {
    RotatedRightParts(m0, r0, m, r, c, t);
    RotatedIds(t);
    assert Rep(m0, Hook(c), t) && Rep(m0, t.id, t.l);
    assert Rep(m, t.l.id, t.(l := t.l.r));
  }

  /** The four nodes a rotation touches are different nodes, all present. */
  ghost predicate RotationAt(mem: Mem, c: Ctx, down: Ref, up: Ref, inner: Ref, left: bool) {
    && down in mem && up in mem && down != up && down != NULL && up != NULL
    && mem[down].parent == Hook(c) && (if left then mem[down].right == up else mem[down].left == up)
    && (if left then mem[up].left == inner else mem[up].right == inner)
    && (inner != NULL ==> inner in mem && inner !in {down, up, Hook(c)})
    && (!c.Top? ==> c.id in mem && c.id !in {NULL, down, up} && (c.InL? <==> mem[c.id].left == down))
  }

  lemma {:induction false} RotationSite(mem: Mem, root: Ref, c: Ctx, t: Tree, left: bool)
    requires Focus(mem, root, c, t) && t.Node? && (if left then t.r.Node? else t.l.Node?)
    ensures var s := if left then t.r else t.l; var b := if left then s.l else s.r;
      RotationAt(mem, c, t.id, s.id, Ptr(b), left)
  {
    var s := if left then t.r else t.l;
    var b := if left then s.l else s.r;
    assert Rep(mem, t.id, s) && Rep(mem, s.id, b);
    assert s.id in Ids(s) && Ids(s) <= Ids(t);
    assert b.Node? ==> b.id in Ids(b) && Ids(b) <= Ids(s) && Distinct(s);
    if !c.Top? {
      assert c.id in IdsC(c);
      if c.InR? && c.sib.Node? { assert c.sib.id in Ids(c.sib) && Ids(c.sib) <= IdsC(c); }
    }
  }

  /** A node that insertion has just raised: a new leaf, or one red and one plain side. */
  predicate Lopsided(t: Tree) {
    t.Node? && (t.rl != t.rr || (IsLeaf(t) && !t.rl && !t.rr))
  }

  /** ... and then its plain side is the node that was raised before it. */
  predicate Raised(t: Tree) {
    && Lopsided(t)
    && (t.rl && !t.rr ==> Lopsided(t.r))
    && (t.rr && !t.rl ==> Lopsided(t.l))
  }

  lemma {:induction false} Regroup(a: seq<Ref>, x: Ref, b: seq<Ref>, y: Ref, d: seq<Ref>)
    ensures a + [x] + (b + [y] + d) == (a + [x] + b) + [y] + d
  {
  }

  /** What RB_INSERT_COLOR's rotations make of `Node(t, p, false, false, sib)`. */
  function RaisedL(t: Tree, p: Ref, sib: Tree): Tree
    requires Raised(t) && (!t.rr ==> t.r.Node?)
  {
    if t.rr then
      Node(t.l, t.id, false, false, Node(t.r, p, false, false, sib))
    else
      var ch := t.r;
      Node(Node(t.l, t.id, !t.rl, ch.rl, ch.l), ch.id, false, false, Node(ch.r, p, !ch.rl && ch.rr, false, sib))
  }

  function RaisedR(t: Tree, p: Ref, sib: Tree): Tree
    requires Raised(t) && (!t.rl ==> t.l.Node?)
  {
    if t.rl then
      Node(Node(sib, p, false, false, t.l), t.id, false, false, t.r)
    else
      var ch := t.l;
      Node(Node(sib, p, false, !ch.rr && ch.rl, ch.l), ch.id, false, false, Node(ch.r, t.id, ch.rr, !t.rr, t.r))
  }

  /** A raised node has children on both sides once its sibling is two ranks below it. */
  lemma {:induction false} RaisedInner(t: Tree, sib: Tree)
    requires Wavl(t) && Raised(t) && Rank(sib) == Rank(t) - 2
    ensures (!t.rr ==> t.r.Node?) && (!t.rl ==> t.l.Node?) && !IsLeaf(t)
  {
    RankBound(sib);
    RankBound(t.l);
    RankBound(t.r);
  }

  lemma {:induction false} RaiseLOk(t: Tree, p: Ref, sib: Tree)
    requires Wavl(t) && Wavl(sib) && Raised(t) && Rank(sib) == Rank(t) - 2 && (!t.rr ==> t.r.Node?)
    ensures var t' := RaisedL(t, p, sib);
      Wavl(t') && Rank(t') == Rank(t) && InOrder(t') == InOrder(t) + [p] + InOrder(sib)
  {
    RaisedInner(t, sib);
    var t' := RaisedL(t, p, sib);
    if t.rr {
      assert Wavl(t'.r);
      Regroup(InOrder(t.l), t.id, InOrder(t.r), p, InOrder(sib));
    } else {
      var ch := t.r;
      assert Wavl(ch);
      RankBound(ch.l);
      RankBound(ch.r);
      assert Wavl(t'.l) && Wavl(t'.r);
      Regroup(InOrder(t.l), t.id, InOrder(ch.l), ch.id, InOrder(ch.r));
      Regroup(InOrder(t'.l), ch.id, InOrder(ch.r), p, InOrder(sib));
    }
  }

  lemma {:induction false} RaiseROk(t: Tree, p: Ref, sib: Tree)
    requires Wavl(t) && Wavl(sib) && Raised(t) && Rank(sib) == Rank(t) - 2 && (!t.rl ==> t.l.Node?)
    ensures var t' := RaisedR(t, p, sib);
      Wavl(t') && Rank(t') == Rank(t) && InOrder(t') == InOrder(sib) + [p] + InOrder(t)
  {
    RaisedInner(t, sib);
    var t' := RaisedR(t, p, sib);
    if t.rl {
      assert Wavl(t'.l);
      Regroup(InOrder(sib), p, InOrder(t.l), t.id, InOrder(t.r));
    } else {
      var ch := t.l;
      assert Wavl(ch);
      RankBound(ch.l);
      RankBound(ch.r);
      assert Wavl(t'.l) && Wavl(t'.r);
      Regroup(InOrder(ch.l), ch.id, InOrder(ch.r), t.id, InOrder(t.r));
      Regroup(InOrder(sib), p, InOrder(ch.l), ch.id, InOrder(t'.r));
    }
  }

  /** The parent's left pointer tells on which side the focus hangs. */
  lemma {:induction false} Side(mem: Mem, root: Ref, c: Ctx, t: Tree)
    requires Focus(mem, root, c, t) && !c.Top? && (t.Node? || c.sib.Node?)
    ensures c.id in mem && (mem[c.id].left == Ptr(t) <==> c.InL?)
  {
    if t.Node? && c.sib.Node? {
      assert t.id in Ids(t) && c.sib.id in Ids(c.sib) && Ids(c.sib) <= IdsC(c);
    }
  }

  /** The in-order walk of the whole tree, read off the focus. */
  function Whole(c: Ctx, t: Tree): seq<Ref> { Before(c) + InOrder(t) + After(c) }

  /** The ranks fit everywhere. */
  predicate Fits(c: Ctx, t: Tree) { Wavl(t) && WavlC(c, Rank(t)) }

  /** The ranks fit everywhere but above the focus, which has just grown by one rank. */
  predicate Grown(c: Ctx, t: Tree) { Wavl(t) && Raised(t) && WavlC(c, Rank(t) - 1) }

  /** Once the ranks fit, the whole tree is in order and balanced. */
  lemma {:induction false} Settle(mem: Mem, root: Ref, c: Ctx, t: Tree)
    requires Focus(mem, root, c, t) && Fits(c, t)
    ensures Focus(mem, root, Top, Plug(c, t)) && Wavl(Plug(c, t))
    ensures InOrder(Plug(c, t)) == Whole(c, t)
  {
    FocusTop(mem, root, c, t);
    PlugWavl(c, t);
    PlugInOrder(c, t);
  }

  /** The last step of a walk along one edge of the tree. */
  lemma {:induction false} EdgeEnds(c: Ctx)
    requires (c.InR? && After(c) == []) || (c.InL? && Before(c) == [])
    ensures var s := Whole(c, Empty); s != [] && c.id == if c.InR? then s[|s| - 1] else s[0]
  {
    assert Whole(c, Empty) == Before(c) + After(c);
  }

  lemma {:induction false} UpInOrder(c: Ctx, t: Tree)
    requires !c.Top?
    ensures Whole(c.up, Join(c, t)) == Whole(c, t)
  {
    if c.InL? {
      RegroupLeft(Before(c.up), InOrder(t), c.id, InOrder(c.sib), After(c.up));
    } else {
      RegroupRight(Before(c.up), InOrder(c.sib), c.id, InOrder(t), After(c.up));
    }
  }

  lemma {:induction false} RegroupLeft(a: seq<Ref>, b: seq<Ref>, x: Ref, e: seq<Ref>, f: seq<Ref>)
    ensures a + (b + [x] + e) + f == a + b + ([x] + e + f)
  {
  }

  lemma {:induction false} RegroupRight(a: seq<Ref>, b: seq<Ref>, x: Ref, e: seq<Ref>, f: seq<Ref>)
    ensures a + (b + [x] + e) + f == (a + b + [x]) + e + f
  {
  }

  lemma {:induction false} ReplaceInOrder(c: Ctx, t: Tree, t': Tree)
    requires !c.Top? && InOrder(t') == InOrder(Join(c, t))
    ensures Whole(c.up, t') == Whole(c, t)
  {
    UpInOrder(c, t);
  }

  /** The three ways a grown left child is dealt with. */
  lemma {:induction false} GrowLeft(c: Ctx, t: Tree)
    requires c.InL? && Grown(c, t)
    ensures c.rl ==> Fits(InL(c.id, false, c.rr, c.sib, c.up), t)
    ensures !c.rl && !c.rr ==> Grown(c.up, Node(t, c.id, false, true, c.sib))
    ensures !c.rl && c.rr ==> Wavl(c.sib) && Rank(c.sib) == Rank(t) - 2 && WavlC(c.up, Rank(t))
  {
    RankBound(t);
    RankBound(c.sib);
  }

  lemma {:induction false} GrowRight(c: Ctx, t: Tree)
    requires c.InR? && Grown(c, t)
    ensures c.rr ==> Fits(InR(c.id, c.rl, false, c.sib, c.up), t)
    ensures !c.rr && !c.rl ==> Grown(c.up, Node(c.sib, c.id, true, false, t))
    ensures !c.rr && c.rl ==> Wavl(c.sib) && Rank(c.sib) == Rank(t) - 2 && WavlC(c.up, Rank(t))
  {
    RankBound(t);
    RankBound(c.sib);
  }

  // ---- shrinking -------------------------------------------------------------------

  /** The ranks fit everywhere but above the focus, which has just lost one rank. */
  predicate Shrunk(c: Ctx, t: Tree) { Wavl(t) && WavlC(c, Rank(t) + 1) }

  /** The focus moved over to the sibling. */
  function Across(c: Ctx, t: Tree): Ctx
    requires !c.Top?
  {
    if c.InL? then InR(c.id, c.rl, c.rr, t, c.up) else InL(c.id, c.rl, c.rr, t, c.up)
  }

  lemma {:induction false} FocusAcross(mem: Mem, root: Ref, c: Ctx, t: Tree)
    requires !c.Top?
    ensures Focus(mem, root, c, t) <==> Focus(mem, root, Across(c, t), c.sib)
  {
    FocusUp(mem, root, c, t);
    FocusUp(mem, root, Across(c, t), c.sib);
  }

  /** What RB_REMOVE_COLOR's rotations make of `Node(t, p, true, false, s)`. */
  function LoweredL(t: Tree, p: Ref, s: Tree): Tree
    requires s.Node? && (s.rr && !s.rl ==> s.l.Node?)
  {
    if s.rl then
      Node(Node(t, p, false, false, s.l), s.id, true, true, s.r)
    else if s.rr then
      var m := s.l;
      Node(Node(t, p, false, m.rl, m.l), m.id, true, true, Node(m.r, s.id, m.rr, false, s.r))
    else
      Node(Node(t, p, true, false, s.l), s.id, false, true, s.r)
  }

  function LoweredR(t: Tree, p: Ref, s: Tree): Tree
    requires s.Node? && (s.rl && !s.rr ==> s.r.Node?)
  {
    if s.rr then
      Node(s.l, s.id, true, true, Node(s.r, p, false, false, t))
    else if s.rl then
      var m := s.r;
      Node(Node(s.l, s.id, false, m.rl, m.l), m.id, true, true, Node(m.r, p, m.rr, false, t))
    else
      Node(s.l, s.id, true, false, Node(s.r, p, false, true, t))
  }

  lemma {:induction false} LowerLOk(t: Tree, p: Ref, s: Tree)
    requires Wavl(t) && Wavl(s) && Rank(s) == Rank(t) + 2 && s.Node? && !(s.rl && s.rr) && (s.rr ==> s.l.Node?)
    ensures var t' := LoweredL(t, p, s);
      Wavl(t') && Rank(t') == Rank(t) + 3 && InOrder(t') == InOrder(t) + [p] + InOrder(s)
  {
    var t' := LoweredL(t, p, s);
    RankBound(t);
    RankBound(s.l);
    RankBound(s.r);
    if !s.rl && s.rr {
      var m := s.l;
      assert Wavl(m);
      RankBound(m.l);
      RankBound(m.r);
      assert Wavl(t'.l) && Wavl(t'.r);
      Regroup(InOrder(m.l), m.id, InOrder(m.r), s.id, InOrder(s.r));
      Regroup(InOrder(t), p, InOrder(m.l), m.id, InOrder(t'.r));
    } else {
      assert Wavl(t'.l);
      Regroup(InOrder(t), p, InOrder(s.l), s.id, InOrder(s.r));
    }
  }

  lemma {:induction false} LowerROk(t: Tree, p: Ref, s: Tree)
    requires Wavl(t) && Wavl(s) && Rank(s) == Rank(t) + 2 && s.Node? && !(s.rl && s.rr) && (s.rl ==> s.r.Node?)
    ensures var t' := LoweredR(t, p, s);
      Wavl(t') && Rank(t') == Rank(t) + 3 && InOrder(t') == InOrder(s) + [p] + InOrder(t)
  {
    var t' := LoweredR(t, p, s);
    RankBound(t);
    RankBound(s.l);
    RankBound(s.r);
    if !s.rr && s.rl {
      var m := s.r;
      assert Wavl(m);
      RankBound(m.l);
      RankBound(m.r);
      assert Wavl(t'.l) && Wavl(t'.r);
      Regroup(InOrder(s.l), s.id, InOrder(m.l), m.id, InOrder(m.r));
      Regroup(InOrder(t'.l), m.id, InOrder(m.r), p, InOrder(t));
    } else {
      assert Wavl(t'.r);
      Regroup(InOrder(s.l), s.id, InOrder(s.r), p, InOrder(t));
    }
  }

  /** The four ways a shrunk left child is dealt with. */
  lemma {:induction false} ShrinkLeft(c: Ctx, t: Tree)
    requires c.InL? && Shrunk(c, t) && (t.Node? || c.sib.Node?)
    ensures !c.rl ==> Fits(InL(c.id, true, c.rr, c.sib, c.up), t)
    ensures c.rl && c.rr ==> Shrunk(c.up, Node(t, c.id, true, false, c.sib))
    ensures c.rl && !c.rr ==>
      && c.sib.Node? && Wavl(c.sib) && Rank(c.sib) == Rank(t) + 2 && WavlC(c.up, Rank(t) + 3)
      && (c.sib.rr && !c.sib.rl ==> c.sib.l.Node?)
  {
    RankBound(t);
    RankBound(c.sib);
    if c.sib.Node? { RankBound(c.sib.l); RankBound(c.sib.r); }
  }

  /** After the rotations the ranks fit and the walk is the same. */
  lemma {:induction false} LowerLeftFits(c: Ctx, t: Tree)
    requires c.InL? && Shrunk(c, t) && (t.Node? || c.sib.Node?) && c.rl && !c.rr
    ensures c.sib.Node? && (!(c.sib.rl && c.sib.rr) ==>
      && (c.sib.rr ==> c.sib.l.Node?)
      && Fits(c.up, LoweredL(t, c.id, c.sib)) && Whole(c.up, LoweredL(t, c.id, c.sib)) == Whole(c, t))
  {
    ShrinkLeft(c, t);
    if !(c.sib.rl && c.sib.rr) {
      LowerLOk(t, c.id, c.sib);
      ReplaceInOrder(c, t, LoweredL(t, c.id, c.sib));
    }
  }

  lemma {:induction false} DemoteBothLeft(c: Ctx, t: Tree)
    requires c.InL? && Shrunk(c, t) && c.rl && !c.rr && c.sib.Node? && c.sib.rl && c.sib.rr
    ensures Shrunk(c.up, Node(t, c.id, true, false, c.sib.(rl := false, rr := false)))
  {
    RankBound(t);
    assert Wavl(c.sib);
    assert Wavl(c.sib.(rl := false, rr := false));
  }

  lemma {:induction false} ShrinkRight(c: Ctx, t: Tree)
    requires c.InR? && Shrunk(c, t) && (t.Node? || c.sib.Node?)
    ensures !c.rr ==> Fits(InR(c.id, c.rl, true, c.sib, c.up), t)
    ensures c.rr && c.rl ==> Shrunk(c.up, Node(c.sib, c.id, false, true, t))
    ensures c.rr && !c.rl ==>
      && c.sib.Node? && Wavl(c.sib) && Rank(c.sib) == Rank(t) + 2 && WavlC(c.up, Rank(t) + 3)
      && (c.sib.rl && !c.sib.rr ==> c.sib.r.Node?)
  {
    RankBound(t);
    RankBound(c.sib);
    if c.sib.Node? { RankBound(c.sib.l); RankBound(c.sib.r); }
  }

  /** After the rotations the ranks fit and the walk is the same. */
  lemma {:induction false} LowerRightFits(c: Ctx, t: Tree)
    requires c.InR? && Shrunk(c, t) && (t.Node? || c.sib.Node?) && c.rr && !c.rl
    ensures c.sib.Node? && (!(c.sib.rl && c.sib.rr) ==>
      && (c.sib.rl ==> c.sib.r.Node?)
      && Fits(c.up, LoweredR(t, c.id, c.sib)) && Whole(c.up, LoweredR(t, c.id, c.sib)) == Whole(c, t))
  {
    ShrinkRight(c, t);
    if !(c.sib.rl && c.sib.rr) {
      LowerROk(t, c.id, c.sib);
      ReplaceInOrder(c, t, LoweredR(t, c.id, c.sib));
    }
  }

  lemma {:induction false} DemoteBothRight(c: Ctx, t: Tree)
    requires c.InR? && Shrunk(c, t) && c.rr && !c.rl && c.sib.Node? && c.sib.rl && c.sib.rr
    ensures Shrunk(c.up, Node(c.sib.(rl := false, rr := false), c.id, false, true, t))
  {
    RankBound(t);
    assert Wavl(c.sib);
    assert Wavl(c.sib.(rl := false, rr := false));
  }

  // ---- keys ------------------------------------------------------------------------

  type Keys = map<Ref, int>

  /** vma_cmp on the start addresses. */
  function Cmp(a: int, b: int): int { if a < b then -1 else if a > b then 1 else 0 }

  ghost predicate Ordered(key: Keys, s: seq<Ref>) {
    && (forall x :: x in s ==> x in key)
    && (forall i, j {:trigger key[s[i]], key[s[j]]} :: 0 <= i < j < |s| ==> key[s[i]] < key[s[j]])
  }

  ghost predicate Below(key: Keys, s: seq<Ref>, k: int) { forall x :: x in s ==> x in key && key[x] < k }

  ghost predicate Above(key: Keys, s: seq<Ref>, k: int) { forall x :: x in s ==> x in key && k < key[x] }

  lemma {:induction false} OrderedSplit(key: Keys, a: seq<Ref>, x: Ref, b: seq<Ref>)
    requires Ordered(key, a + [x] + b)
    ensures x in key && Below(key, a, key[x]) && Above(key, b, key[x]) && Ordered(key, a + b)
  {
    var s := a + [x] + b;
    assert s[|a|] == x;
    forall y | y in a ensures y in key && key[y] < key[x] {
      var i :| 0 <= i < |a| && a[i] == y;
      assert s[i] == y;
    }
    forall y | y in b ensures y in key && key[x] < key[y] {
      var i :| 0 <= i < |b| && b[i] == y;
      assert s[|a| + 1 + i] == y;
    }
    forall i, j | 0 <= i < j < |a + b| ensures (a + b)[i] in key && (a + b)[j] in key && key[(a + b)[i]] < key[(a + b)[j]] {
      var i', j' := if i < |a| then i else i + 1, if j < |a| then j else j + 1;
      assert s[i'] == (a + b)[i] && s[j'] == (a + b)[j];
    }
  }

  lemma {:induction false} OrderedInsert(key: Keys, a: seq<Ref>, x: Ref, b: seq<Ref>)
    requires Ordered(key, a + b) && x in key && Below(key, a, key[x]) && Above(key, b, key[x])
    ensures Ordered(key, a + [x] + b)
  {
    var s, u := a + [x] + b, a + b;
    forall i, j | 0 <= i < j < |s| ensures s[i] in key && s[j] in key && key[s[i]] < key[s[j]] {
      if i < |a| { assert s[i] == u[i] && s[i] in a; }
      if i > |a| { assert s[i] == u[i - 1] && s[i] in b; }
      if j < |a| { assert s[j] == u[j] && s[j] in a; }
      if j > |a| { assert s[j] == u[j - 1] && s[j] in b; }
    }
    forall y | y in s ensures y in key {
      assert y in a || y == x || y in b;
    }
  }

  /** What a step down one side leaves on the two sides of the focus. */
  lemma {:induction false} StepDown(key: Keys, c: Ctx, t: Tree)
    requires t.Node? && Ordered(key, Whole(c, t))
    ensures t.id in key
    ensures Below(key, Before(c) + InOrder(t.l), key[t.id]) && Above(key, InOrder(t.r) + After(c), key[t.id])
    ensures Whole(InL(t.id, t.rl, t.rr, t.r, c), t.l) == Whole(c, t)
    ensures Whole(InR(t.id, t.rl, t.rr, t.l, c), t.r) == Whole(c, t)
  {
    var dl, dr := InL(t.id, t.rl, t.rr, t.r, c), InR(t.id, t.rl, t.rr, t.l, c);
    assert Whole(dl, t.l) == Whole(c, t) by { UpInOrder(dl, t.l); }
    assert Whole(dr, t.r) == Whole(c, t) by { UpInOrder(dr, t.r); }
    Flatten(Before(c), InOrder(t.l), t.id, InOrder(t.r), After(c));
    OrderedSplit(key, Before(c) + InOrder(t.l), t.id, InOrder(t.r) + After(c));
  }

  lemma {:induction false} InsertedAt(key: Keys, a: seq<Ref>, x: Ref, b: seq<Ref>)
    requires Ordered(key, a + b) && x in key && Below(key, a, key[x]) && Above(key, b, key[x])
    ensures Ordered(key, a + [x] + b)
    ensures (a + b)[..|a|] == a && (a + b)[|a|..] == b
    ensures forall y :: y in a + b ==> y in key && key[y] != key[x]
  {
    OrderedInsert(key, a, x, b);
    forall y | y in a + b ensures y in key && key[y] != key[x] {
      assert y in a || y in b;
    }
  }

  /** Every key before the hole is below `k` and every key after it is above. */
  ghost predicate Around(key: Keys, c: Ctx, k: int) {
    Below(key, Before(c), k) && Above(key, After(c), k)
  }

  /** A search for `k` has come down to the subtree `t` of `whole`. */
  ghost predicate Searching(key: Keys, whole: Tree, c: Ctx, t: Tree, k: int) {
    && Whole(c, t) == InOrder(whole) && Ordered(key, InOrder(whole))
    && Around(key, c, k)
  }

  lemma {:induction false} SearchLeft(key: Keys, whole: Tree, c: Ctx, t: Tree, k: int)
    requires Searching(key, whole, c, t, k) && t.Node? && t.id in key && k < key[t.id]
    ensures Searching(key, whole, InL(t.id, t.rl, t.rr, t.r, c), t.l, k)
  {
    StepDown(key, c, t);
    var d := InL(t.id, t.rl, t.rr, t.r, c);
    forall x | x in After(d) ensures x in key && k < key[x] {
      assert After(d) == [t.id] + InOrder(t.r) + After(c);
      assert x == t.id || x in InOrder(t.r) + After(c);
    }
  }

  lemma {:induction false} SearchRight(key: Keys, whole: Tree, c: Ctx, t: Tree, k: int)
    requires Searching(key, whole, c, t, k) && t.Node? && t.id in key && key[t.id] < k
    ensures Searching(key, whole, InR(t.id, t.rl, t.rr, t.l, c), t.r, k)
  {
    StepDown(key, c, t);
    var d := InR(t.id, t.rl, t.rr, t.l, c);
    forall x | x in Before(d) ensures x in key && key[x] < k {
      assert Before(d) == Before(c) + InOrder(t.l) + [t.id];
      assert x == t.id || x in Before(c) + InOrder(t.l);
    }
  }

  lemma {:induction false} SearchHere(key: Keys, whole: Tree, c: Ctx, t: Tree, k: int)
    requires Searching(key, whole, c, t, k) && t.Node?
    ensures t.id in key && t.id in InOrder(whole)
  {
    StepDown(key, c, t);
    assert t.id in Whole(c, t);
  }

  /** `res` is the node right after the hole, or NULL if the hole is at the end. */
  ghost predicate NextUp(c: Ctx, res: Ref) {
    if After(c) == [] then res == NULL else res == After(c)[0]
  }

  /** `res` is the first node of `s` whose key is at least `k`, at position `at`. */
  ghost predicate IsFirstFrom(key: Keys, s: seq<Ref>, k: int, res: Ref, at: nat) {
    && at <= |s| && Below(key, s[..at], k) && (res == NULL <==> at == |s|)
    && (res != NULL ==> s[at] == res && res in key && k <= key[res])
  }

  /** The state of RB_NFIND: at subtree `t`, with `res` the best node so far. */
  ghost predicate Hunting(mem: Mem, root: Ref, key: Keys, whole: Tree, c: Ctx, t: Tree, k: int, res: Ref) {
    Focus(mem, root, c, t) && Searching(key, whole, c, t, k) && NextUp(c, res)
  }

  lemma {:induction false} HuntHere(mem: Mem, root: Ref, key: Keys, whole: Tree, c: Ctx, t: Tree, k: int, res: Ref)
    requires Hunting(mem, root, key, whole, c, t, k, res) && t.Node?
    ensures t.id != NULL && t.id in mem && t.id in key && mem[t.id].left == Ptr(t.l) && mem[t.id].right == Ptr(t.r)
  {
    SearchHere(key, whole, c, t, k);
  }

  lemma {:induction false} HuntLeft(mem: Mem, root: Ref, key: Keys, whole: Tree, c: Ctx, t: Tree, k: int, res: Ref)
    requires Hunting(mem, root, key, whole, c, t, k, res) && t.Node? && t.id in key && k < key[t.id]
    ensures Hunting(mem, root, key, whole, InL(t.id, t.rl, t.rr, t.r, c), t.l, k, t.id)
  {
    SearchLeft(key, whole, c, t, k);
    FocusUp(mem, root, InL(t.id, t.rl, t.rr, t.r, c), t.l);
  }

  lemma {:induction false} HuntRight(mem: Mem, root: Ref, key: Keys, whole: Tree, c: Ctx, t: Tree, k: int, res: Ref)
    requires Hunting(mem, root, key, whole, c, t, k, res) && t.Node? && t.id in key && key[t.id] < k
    ensures Hunting(mem, root, key, whole, InR(t.id, t.rl, t.rr, t.l, c), t.r, k, res)
  {
    SearchRight(key, whole, c, t, k);
    FocusUp(mem, root, InR(t.id, t.rl, t.rr, t.l, c), t.r);
  }

  /** Where a search for `k` ends that found no equal key. */
  lemma {:induction false} SearchEnd(key: Keys, whole: Tree, c: Ctx, k: int, res: Ref)
    requires Searching(key, whole, c, Empty, k) && NextUp(c, res) && NULL !in InOrder(whole)
    ensures IsFirstFrom(key, InOrder(whole), k, res, |Before(c)|)
  {
    var s := InOrder(whole);
    assert s == Before(c) + After(c);
    assert s[..|Before(c)|] == Before(c);
    if After(c) != [] { assert After(c)[0] in s; }
  }

  /** Where a search for `k` ends that found an equal key at `t`. */
  lemma {:induction false} SearchHit(key: Keys, whole: Tree, c: Ctx, t: Tree, k: int)
    requires Searching(key, whole, c, t, k) && t.Node? && t.id != NULL && t.id in key && key[t.id] == k
    ensures IsFirstFrom(key, InOrder(whole), k, t.id, |Before(c)| + |InOrder(t.l)|)
  {
    StepDown(key, c, t);
    var a := Before(c) + InOrder(t.l);
    Flatten(Before(c), InOrder(t.l), t.id, InOrder(t.r), After(c));
    assert InOrder(whole)[..|a|] == a;
  }

  /** In an ordered walk a node has only one position. */
  lemma {:induction false} PositionUnique(key: Keys, a: seq<Ref>, x: Ref, b: seq<Ref>, s: seq<Ref>, at: nat)
    requires Ordered(key, s) && s == a + [x] + b && at < |s| && s[at] == x
    ensures at == |a| && s[..at] == a
  {
    assert s[|a|] == x && x in s;
    assert key[s[at]] == key[s[|a|]];
  }

  lemma {:induction false} LastBefore(key: Keys, b: seq<Ref>, a: seq<Ref>, x: Ref, w: seq<Ref>, s: seq<Ref>, at: nat)
    requires Ordered(key, s) && s == (b + a) + [x] + w && at < |s| && s[at] == x
    ensures a != [] ==> at > 0 && s[at - 1] == a[|a| - 1]
    ensures a == [] && b != [] ==> at > 0 && s[at - 1] == b[|b| - 1]
    ensures a == [] && b == [] ==> at == 0
  {
    PositionUnique(key, b + a, x, w, s, at);
    assert at > 0 ==> s[at - 1] == (b + a)[at - 1];
  }

  /** The node before the focused one: the last of its left subtree, or of the path. */
  lemma {:induction false} Predecessor(key: Keys, whole: Tree, c: Ctx, t: Tree, at: nat)
    requires Plug(c, t) == whole && t.Node? && Ordered(key, InOrder(whole))
    requires at < |InOrder(whole)| && InOrder(whole)[at] == t.id
    ensures var s, a, b := InOrder(whole), InOrder(t.l), Before(c);
      && (a != [] ==> at > 0 && s[at - 1] == a[|a| - 1])
      && (a == [] && b != [] ==> at > 0 && s[at - 1] == b[|b| - 1])
      && (a == [] && b == [] ==> at == 0)
  {
    PlugInOrder(c, t);
    Flatten(Before(c), InOrder(t.l), t.id, InOrder(t.r), After(c));
    LastBefore(key, Before(c), InOrder(t.l), t.id, InOrder(t.r) + After(c), InOrder(whole), at);
  }

  /** Hanging a new leaf into the empty hole of a path. */
  lemma {:induction false} AttachFocus(m0: Mem, r0: Ref, m: Mem, r: Ref, c: Ctx, x: Ref)
    requires Focus(m0, r0, c, Empty) && x != NULL && x !in IdsC(c)
    requires x in m && m[x] == Cell(NULL, NULL, Hook(c), false, false)
    requires c.Top? ==> r == x
    requires !c.Top? ==>
      && r == r0 && c.id in m0 && c.id in m
      && m[c.id] == if c.InL? then m0[c.id].(left := x) else m0[c.id].(right := x)
    requires forall z :: z in m0 && z != x && z != Hook(c) ==> z in m && m[z] == m0[z]
    ensures Focus(m, r, c, Node(Empty, x, false, false, Empty))
  {
    RepCIds(m0, r0, c, NULL);
    RepCHole(m0, m, r0, r, c, NULL, x);
  }

  // ---- removing --------------------------------------------------------------------

  /** A node with at most one child is exactly one rank above that child. */
  lemma {:induction false} OneChild(c: Ctx, s: Tree, u: Tree)
    requires Fits(c, s) && s.Node?
    requires (s.l.Empty? && u == s.r) || (s.r.Empty? && u == s.l)
    ensures Shrunk(c, u)
  {
    RankBound(s.l);
    RankBound(s.r);
  }

  lemma {:induction false} OverWavl(d: Ctx, base: Ctx, base': Ctx, k: int)
    requires WavlC(Over(d, base), k)
    requires base.InR? && base'.InR? && base' == InR(base'.id, base.rl, base.rr, base.sib, base.up)
    ensures WavlC(Over(d, base'), k)
  {
    match d
    case Top =>
    case InL(_, rl, _, _, up) => OverWavl(up, base, base', k + Diff(rl));
    case InR(_, _, rr, _, up) => OverWavl(up, base, base', k + Diff(rr));
  }

  lemma {:induction false} Flatten(a: seq<Ref>, b: seq<Ref>, x: Ref, m: seq<Ref>, d: seq<Ref>)
    ensures a + (b + [x] + m) + d == (a + b) + [x] + (m + d)
  {
  }

  lemma {:induction false} Flatten2(a: seq<Ref>, b: seq<Ref>, x: Ref, y: seq<Ref>, z: seq<Ref>, e: seq<Ref>)
    ensures (a + b + [x]) + y + (z + e) == (a + b) + ([x] + y + z + e)
  {
  }

  /** The walk around a node and its in-order successor `t`. */
  lemma {:induction false} SuccessorBefore(c: Ctx, s: Tree, d: Ctx, t: Tree)
    requires s.Node? && AllLeft(d) && t.Node? && t.l.Empty? && Plug(d, t) == s.r
    ensures Whole(c, s) == (Before(c) + InOrder(s.l)) + [s.id] + ([t.id] + InOrder(t.r) + After(d) + After(c))
  {
    PlugInOrder(d, t);
    AllLeftBefore(d);
    assert InOrder(t) == [t.id] + InOrder(t.r);
    assert InOrder(s.r) == [t.id] + InOrder(t.r) + After(d);
    Flatten(Before(c), InOrder(s.l), s.id, InOrder(s.r), After(c));
  }

  /** ... loses exactly the node once the successor has taken its place. */
  lemma {:induction false} SuccessorAfter(c: Ctx, s: Tree, d: Ctx, x: Ref, y: Tree)
    requires s.Node? && AllLeft(d)
    ensures Whole(Over(d, InR(x, s.rl, s.rr, s.l, c)), y)
         == (Before(c) + InOrder(s.l)) + ([x] + InOrder(y) + After(d) + After(c))
  {
    var base := InR(x, s.rl, s.rr, s.l, c);
    OverInOrder(d, base);
    AllLeftBefore(d);
    assert Before(Over(d, base)) == Before(c) + InOrder(s.l) + [x];
    assert After(base) == After(c);
    Flatten2(Before(c), InOrder(s.l), x, InOrder(y), After(d), After(c));
  }

  /** The nodes that change when the successor `t`, found down the path `d`, takes the
      place of `s`: which they are, and that they are different nodes. */
  ghost predicate SuccessorSite(mem: Mem, c: Ctx, s: Tree, d: Ctx, t: Tree)
    requires s.Node? && s.l.Node? && s.r.Node? && t.Node?
  {
    var o, x, L, R, y := s.id, t.id, s.l.id, s.r.id, Ptr(t.r);
    && o in mem && x in mem && L in mem && R in mem
    && NULL !in {o, x, L, R} && o != x && L !in {o, x, R} && o != R
    && mem[o] == Cell(L, R, Hook(c), s.rl, s.rr)
    && mem[x].left == NULL && mem[x].right == y && mem[x].parent == (if d.Top? then o else d.id)
    && (d.Top? <==> R == x)
    && (!d.Top? ==> d.id in mem && mem[d.id].left == x && NULL != d.id && d.id !in {o, x, L, Hook(c), y} && R !in {Hook(c), y})
    && (y != NULL ==> y in mem && y !in {o, x, L, R, Hook(c)})
    && (!c.Top? ==> c.id in mem && c.id !in {NULL, o, x, L, R} && (c.InL? <==> mem[c.id].left == o))
  }

  lemma {:induction false} SuccessorSiteHolds(mem: Mem, root: Ref, c: Ctx, s: Tree, d: Ctx, t: Tree)
    requires Focus(mem, root, c, s) && s.Node? && s.l.Node? && s.r.Node?
    requires AllLeft(d) && t.Node? && t.l.Empty? && Plug(d, t) == s.r && (d.Top? <==> s.r.l.Empty?)
    ensures SuccessorSite(mem, c, s, d, t)
    ensures Focus(mem, root, Over(d, InR(s.id, s.rl, s.rr, s.l, c)), t)
  {
    var base := InR(s.id, s.rl, s.rr, s.l, c);
    FocusUp(mem, root, base, s.r);
    FocusOver(mem, root, d, base, t);
    RepIds(mem, Hook(c), s);
    RepCIds(mem, root, c, s.id);
    PlugIds(d, t);
    assert t.id in Ids(t) && (t.r.Node? ==> t.r.id in Ids(t.r));
    assert s.l.id in Ids(s.l) && s.r.id in Ids(s.r);
    assert !d.Top? ==> d.id in IdsC(d);
    if !c.Top? { Side(mem, root, c, s); assert c.id in IdsC(c); }
    SuccessorApart(mem, root, d, base, t);
    if !d.Top? { TopOfPath(d, t); }
  }

  lemma {:induction false} SuccessorApart(mem: Mem, root: Ref, d: Ctx, base: Ctx, t: Tree)
    requires Focus(mem, root, Over(d, base), t)
    ensures IdsC(d) !! Ids(t)
  {
    OverIds(d, base);
  }

  lemma {:induction false} OverIds(d: Ctx, base: Ctx)
    ensures IdsC(Over(d, base)) == IdsC(d) + IdsC(base)
  {
    if !d.Top? { OverIds(d.up, base); }
  }

  /** The tree a path is part of has its root on that path. */
  lemma {:induction false} TopOfPath(d: Ctx, t: Tree)
    requires !d.Top?
    ensures Plug(d, t).Node? && Plug(d, t).id in IdsC(d)
    decreases d
  {
    if !d.up.Top? { TopOfPath(d.up, Join(d, t)); }
  }

  /** Memory after RB_REMOVE has put the successor `t` in the place of `s`. */
  ghost predicate Succeeded(m0: Mem, r0: Ref, m: Mem, r: Ref, c: Ctx, s: Tree, d: Ctx, t: Tree)
    requires s.Node? && s.l.Node? && s.r.Node? && t.Node? && SuccessorSite(m0, c, s, d, t)
  {
    var o, x, L, R, y := s.id, t.id, s.l.id, s.r.id, Ptr(t.r);
    && m.Keys == m0.Keys
    && m[x] == Cell(L, if d.Top? then y else R, Hook(c), s.rl, s.rr)
    && m[o] == (if d.Top? then m0[o].(right := y) else m0[o])
    && m[L] == m0[L].(parent := x)
    && (!d.Top? ==> m[d.id] == m0[d.id].(left := y, parent := if d.id == R then x else m0[d.id].parent))
    && (!d.Top? && d.id != R ==> m[R] == m0[R].(parent := x))
    && (y != NULL ==> m[y] == m0[y].(parent := if d.Top? then x else d.id))
    && (c.Top? ==> r == x)
    && (!c.Top? ==> r == r0 && m[c.id] == if c.InL? then m0[c.id].(left := x) else m0[c.id].(right := x))
    && (forall z :: z in m0 && z !in {o, x, L, R, y, Hook(c), Hook(d)} ==> m[z] == m0[z])
  }

  /** Memory with the successor `t` of `s` taken out of its place. */
  ghost function TakenOut(m0: Mem, s: Tree, d: Ctx, t: Tree): Mem
    requires s.Node? && s.id in m0 && t.Node? && (!d.Top? ==> d.id in m0) && (Ptr(t.r) != NULL ==> Ptr(t.r) in m0)
  {
    var y := Ptr(t.r);
    var m := if d.Top? then m0[s.id := m0[s.id].(right := y)] else m0[d.id := m0[d.id].(left := y)];
    if y == NULL then m else SetParent(m, y, if d.Top? then s.id else d.id)
  }

  lemma {:induction false} TakenOutFocus(m0: Mem, r0: Ref, c: Ctx, s: Tree, d: Ctx, t: Tree)
    requires s.Node? && s.l.Node? && s.r.Node? && t.Node? && t.l.Empty? && AllLeft(d)
    requires SuccessorSite(m0, c, s, d, t)
    requires Focus(m0, r0, Over(d, InR(s.id, s.rl, s.rr, s.l, c)), t)
    ensures Focus(TakenOut(m0, s, d, t), r0, c, Node(s.l, s.id, s.rl, s.rr, Plug(d, t.r)))
    ensures t.id !in IdsC(c) + Ids(s.l) + {s.id} + Ids(Plug(d, t.r))
  {
    var base := InR(s.id, s.rl, s.rr, s.l, c);
    var m1 := TakenOut(m0, s, d, t);
    SplicedFocus(m0, r0, m1, r0, Over(d, base), t, t.r);
    FocusOver(m1, r0, d, base, t.r);
    FocusUp(m1, r0, base, Plug(d, t.r));
    OverIds(d, base);
    PlugIds(d, t.r);
  }

  /** Taking the successor out first and then putting it in the place of `s` gives that memory:
      when the successor is the right child itself, */
  lemma {:induction false} SucceededNear(m0: Mem, r0: Ref, m: Mem, r: Ref, c: Ctx, s: Tree, d: Ctx, t: Tree, s1: Tree)
    requires s.Node? && s.l.Node? && s.r.Node? && t.Node? && d.Top?
    requires SuccessorSite(m0, c, s, d, t) && Succeeded(m0, r0, m, r, c, s, d, t)
    requires s1.Node? && s1.id == s.id && s1.l == s.l && Ptr(s1.r) == Ptr(t.r)
    requires (t.r.Node? ==> t.r.id != NULL) && (s1.r.Node? ==> s1.r.id != NULL)
    ensures Replaced(TakenOut(m0, s, d, t), r0, m, r, c, s1, t.id)
  {
    var m1, y := TakenOut(m0, s, d, t), Ptr(t.r);
    assert m1.Keys == m0.Keys;
    assert m[t.id] == m1[s.id];
    assert m[s.l.id] == m1[s.l.id].(parent := t.id);
    assert y != NULL ==> m[y] == m1[y].(parent := t.id);
    forall z | z in m1 && z !in {NULL, Hook(c), t.id, s.l.id, y} ensures m[z] == m1[z] {}
  }

  /** and when it lies further down. */
  lemma {:induction false} SucceededFar(m0: Mem, r0: Ref, m: Mem, r: Ref, c: Ctx, s: Tree, d: Ctx, t: Tree, s1: Tree)
    requires s.Node? && s.l.Node? && s.r.Node? && t.Node? && !d.Top?
    requires SuccessorSite(m0, c, s, d, t) && Succeeded(m0, r0, m, r, c, s, d, t)
    requires s1.Node? && s1.id == s.id && s1.l == s.l && Ptr(s1.r) == s.r.id
    requires (t.r.Node? ==> t.r.id != NULL) && (s1.r.Node? ==> s1.r.id != NULL)
    ensures Replaced(TakenOut(m0, s, d, t), r0, m, r, c, s1, t.id)
  {
    var m1, y := TakenOut(m0, s, d, t), Ptr(t.r);
    assert m1.Keys == m0.Keys;
    assert m[t.id] == m1[s.id];
    assert m[s.l.id] == m1[s.l.id].(parent := t.id);
    assert m[s.r.id] == m1[s.r.id].(parent := t.id);
    assert y != NULL ==> m[y] == m1[y];
    assert d.id != s.r.id ==> m[d.id] == m1[d.id];
    forall z | z in m1 && z !in {NULL, Hook(c), t.id, s.l.id, s.r.id} ensures m[z] == m1[z] {}
  }

  lemma {:induction false} SucceededFocus(m0: Mem, r0: Ref, m: Mem, r: Ref, c: Ctx, s: Tree, d: Ctx, t: Tree)
    requires s.Node? && s.l.Node? && s.r.Node? && t.Node? && t.l.Empty? && AllLeft(d)
    requires SuccessorSite(m0, c, s, d, t) && Plug(d, t) == s.r
    requires Focus(m0, r0, Over(d, InR(s.id, s.rl, s.rr, s.l, c)), t)
    requires Succeeded(m0, r0, m, r, c, s, d, t)
    ensures Focus(m, r, Over(d, InR(t.id, s.rl, s.rr, s.l, c)), t.r)
  {
    var base' := InR(t.id, s.rl, s.rr, s.l, c);
    var s1 := Node(s.l, s.id, s.rl, s.rr, Plug(d, t.r));
    var m1 := TakenOut(m0, s, d, t);
    TakenOutFocus(m0, r0, c, s, d, t);
    if !d.Top? { SameTop(d, t, t.r); }
    assert Rep(m0, t.id, t.r) && Rep(m1, s.id, s1.r);
    if d.Top? { SucceededNear(m0, r0, m, r, c, s, d, t, s1); } else { SucceededFar(m0, r0, m, r, c, s, d, t, s1); }
    ReplacedFocus(m1, r0, m, r, c, s1, t.id);
    FocusUp(m, r, base', Plug(d, t.r));
    FocusOver(m, r, d, base', t.r);
  }

  lemma {:induction false} SameTop(d: Ctx, t: Tree, t': Tree)
    requires !d.Top?
    ensures Plug(d, t).Node? && Plug(d, t').Node? && Plug(d, t).id == Plug(d, t').id
    decreases d
  {
    if !d.up.Top? { SameTop(d.up, Join(d, t), Join(d, t')); }
  }

  lemma {:induction false} RightFits(c: Ctx, s: Tree)
    requires Fits(c, s) && s.Node?
    ensures Fits(InR(s.id, s.rl, s.rr, s.l, c), s.r)
  {
    RankBound(s.l);
    RankBound(s.r);
  }

  lemma {:induction false} SuccessorShrunk(c: Ctx, s: Tree, d: Ctx, t: Tree)
    requires Fits(c, s) && s.Node? && t.Node? && t.l.Empty? && Plug(d, t) == s.r
    ensures Shrunk(Over(d, InR(t.id, s.rl, s.rr, s.l, c)), t.r)
  {
    var base := InR(s.id, s.rl, s.rr, s.l, c);
    RightFits(c, s);
    UnplugOver(d, base, t);
    OneChild(Over(d, base), t, t.r);
    OverWavl(d, base, InR(t.id, s.rl, s.rr, s.l, c), Rank(t.r) + 1);
  }

  lemma {:induction false} UnplugOver(d: Ctx, base: Ctx, t: Tree)
    requires Fits(base, Plug(d, t))
    ensures Fits(Over(d, base), t)
    decreases d
  {
    RankBound(t);
    if !d.Top? {
      RankBound(d.sib);
      UnplugOver(d.up, base, Join(d, t));
    }
  }

  lemma {:induction false} RemovedAt(key: Keys, a: seq<Ref>, x: Ref, b: seq<Ref>)
    requires Ordered(key, a + [x] + b)
    ensures var s := a + [x] + b; s[|a|] == x && s[..|a|] + s[|a| + 1..] == a + b
    ensures Ordered(key, a + b)
  {
    OrderedSplit(key, a, x, b);
  }

  lemma {:induction false} InsertedIds(t: Tree, t': Tree, a: seq<Ref>, x: Ref, b: seq<Ref>)
    requires InOrder(t) == a + b && InOrder(t') == a + [x] + b && x !in a + b
    ensures Ids(t') == Ids(t) + {x}
    ensures |a| <= |InOrder(t)| && InOrder(t') == InsertAt(InOrder(t), |a|, x)
  {
    RemovedIds(t', t, a, x, b);
  }

  /** The walk around the focused node, and without it when it has at most one child. */
  lemma {:induction false} WholeAround(c: Ctx, s: Tree)
    requires s.Node?
    ensures var a, b := Before(c) + InOrder(s.l), InOrder(s.r) + After(c);
      && Whole(c, s) == a + [s.id] + b
      && (s.l.Empty? ==> Whole(c, s.r) == a + b) && (s.r.Empty? ==> Whole(c, s.l) == a + b)
  {
    Flatten(Before(c), InOrder(s.l), s.id, InOrder(s.r), After(c));
  }

  /** The nodes of two trees whose walks differ in one node. */
  lemma {:induction false} RemovedIds(t: Tree, t': Tree, a: seq<Ref>, x: Ref, b: seq<Ref>)
    requires InOrder(t) == a + [x] + b && InOrder(t') == a + b && x !in a + b
    ensures Ids(t') == Ids(t) - {x} && x in Ids(t)
  {
    InOrderIds(t);
    InOrderIds(t');
    forall y ensures y in Ids(t') <==> y in Ids(t) && y != x {
      assert y in a + [x] + b <==> y in a + b || y == x;
    }
  }

  // ---- height ----------------------------------------------------------------------

  function Size(t: Tree): nat { if t.Empty? then 0 else Size(t.l) + 1 + Size(t.r) }

  function Height(t: Tree): nat {
    if t.Empty? then 0 else 1 + (if Height(t.l) > Height(t.r) then Height(t.l) else Height(t.r))
  }

  lemma {:induction false} SquareStep(x: nat, a: nat, b: nat)
    requires x <= a * a && x <= b * b
    ensures 4 * x <= (a + b) * (a + b)
  {
    if a <= b { MulMono(a, b, a); } else { MulMono(b, a, b); }
    assert (a + b) * (a + b) == a * a + 2 * (a * b) + b * b;
  }

  lemma {:induction false} SquareMono(a: nat, b: nat)
    requires a <= b
    ensures a * a <= b * b
  {
  }

  lemma {:induction false} RankBySize(t: Tree)
    requires Wavl(t)
    ensures Rank(t) >= -1 && Pow2(Rank(t) + 1) <= (Size(t) + 1) * (Size(t) + 1)
  {
    if t.Node? {
      RankBySize(t.l);
      RankBySize(t.r);
      RankBound(t);
      var k := Rank(t) - 1;
      if k >= 0 {
        Pow2Mono(k, Rank(t.l) + 1);
        Pow2Mono(k, Rank(t.r) + 1);
        SquareStep(Pow2(k), Size(t.l) + 1, Size(t.r) + 1);
        assert Pow2(k + 2) == 2 * Pow2(k + 1) == 4 * Pow2(k);
      } else {
        assert Pow2(1) == 2;
        SquareMono(2, Size(t) + 1);
      }
    }
  }

  lemma {:induction false} HeightByRank(t: Tree)
    requires Wavl(t)
    ensures Height(t) <= Rank(t) + 1
  {
    if t.Node? {
      HeightByRank(t.l);
      HeightByRank(t.r);
    }
  }

  /** The number of nodes on the longest path grows at most with twice the logarithm of the
      number of nodes: 2^height <= (n + 1)^2 for a tree whose walk has n nodes. */
  lemma {:induction false} HeightBound(t: Tree)
    requires Wavl(t)
    ensures Pow2(Height(t)) <= (|InOrder(t)| + 1) * (|InOrder(t)| + 1)
  {
    HeightByRank(t);
    RankBySize(t);
    SizeInOrder(t);
    Pow2Mono(Height(t), Rank(t) + 1);
  }

  lemma {:induction false} SizeInOrder(t: Tree)
    ensures Size(t) == |InOrder(t)|
  {
    if t.Node? {
      SizeInOrder(t.l);
      SizeInOrder(t.r);
    }
  }

  class RbTree {
    var root: Ref
    var mem: Mem
    var key: map<Ref, int>
    ghost var tree: Tree

    ghost predicate Valid()
      reads this
    {
      At(Top, tree) && Wavl(tree) && Ordered(key, InOrder(tree)) && mem.Keys == Ids(tree)
    }

    ghost predicate At(c: Ctx, t: Tree)
      reads this
    {
      Focus(mem, root, c, t)
    }

    constructor Init()
      ensures Valid() && tree == Empty && mem == map[] && key == map[]
    {
      root, mem, key, tree := NULL, map[], map[], Empty;
    }

    method SwapChild(out: Ref, in': Ref)
      requires out in mem
      requires mem[out].parent != NULL ==> mem[out].parent in mem
      modifies this`root, this`mem
      ensures var p := old(mem[out].parent);
        if p == NULL then root == in' && mem == old(mem)
        else
          && root == old(root)
          && mem == old(mem)[p := if out == old(mem)[p].left then old(mem)[p].(left := in')
                                  else old(mem)[p].(right := in')]
    {
      var p := mem[out].parent;
      if p == NULL {
        root := in';
      } else if out == mem[p].left {
        mem := mem[p := mem[p].(left := in')];
      } else {
        mem := mem[p := mem[p].(right := in')];
      }
    }

    method RotateLeft(e: Ref, ghost c: Ctx, ghost t: Tree) returns (tmp: Ref)
      requires At(c, t) && t.Node? && t.id == e && t.r.Node?
      modifies this`root, this`mem
      ensures tmp == t.r.id
      ensures At(c, RotatedLeft(t))
      ensures mem.Keys == old(mem.Keys)
    {
      RotationSite(mem, root, c, t, true);
      tmp := TurnLeft(e, c, t.r.id, Ptr(t.r.l));
      RotatedLeftFocus(old(mem), old(root), mem, root, c, t);
    }

    /** The stores of RB_ROTATE_LEFT. */
    method TurnLeft(e: Ref, ghost c: Ctx, ghost up: Ref, ghost inner: Ref) returns (tmp: Ref)
      requires RotationAt(mem, c, e, up, inner, true)
      modifies this`root, this`mem
      ensures tmp == up && Rotated(old(mem), old(root), mem, root, c, e, up, inner, true)
    {
      tmp := mem[e].right;
      mem := mem[e := mem[e].(right := mem[tmp].left)];
      if mem[e].right != NULL {
        mem := SetParent(mem, mem[e].right, e);
      }
      mem := SetParent(mem, tmp, mem[e].parent);
      SwapChild(e, tmp);
      mem := mem[tmp := mem[tmp].(left := e)];
      mem := SetParent(mem, e, tmp);
    }

    method RotateRight(e: Ref, ghost c: Ctx, ghost t: Tree) returns (tmp: Ref)
      requires At(c, t) && t.Node? && t.id == e && t.l.Node?
      modifies this`root, this`mem
      ensures tmp == t.l.id
      ensures At(c, RotatedRight(t))
      ensures mem.Keys == old(mem.Keys)
    {
      RotationSite(mem, root, c, t, false);
      tmp := TurnRight(e, c, t.l.id, Ptr(t.l.r));
      RotatedRightFocus(old(mem), old(root), mem, root, c, t);
    }

    /** The stores of RB_ROTATE_RIGHT. */
    method TurnRight(e: Ref, ghost c: Ctx, ghost up: Ref, ghost inner: Ref) returns (tmp: Ref)
      requires RotationAt(mem, c, e, up, inner, false)
      modifies this`root, this`mem
      ensures tmp == up && Rotated(old(mem), old(root), mem, root, c, e, up, inner, false)
    {
      tmp := mem[e].left;
      mem := mem[e := mem[e].(left := mem[tmp].right)];
      if mem[e].left != NULL {
        mem := SetParent(mem, mem[e].left, e);
      }
      mem := SetParent(mem, tmp, mem[e].parent);
      SwapChild(e, tmp);
      mem := mem[tmp := mem[tmp].(right := e)];
      mem := SetParent(mem, e, tmp);
    }

    /** The rotations of RB_INSERT_COLOR for a raised left child `elm0` of `parent`. */
    method InsertRotateLeftCase(elm0: Ref, parent: Ref, ghost c: Ctx, ghost t: Tree)
      requires At(c, t) && c.InL? && c.id == parent && Raised(t) && t.id == elm0
      requires !c.rl && !c.rr && (!t.rr ==> t.r.Node?)
      modifies this`root, this`mem
      ensures At(c.up, RaisedL(t, parent, c.sib))
      ensures mem.Keys == old(mem.Keys)
    {
      var elm := elm0;
      ghost var s, d := t, c;
      if !mem[elm].redR {
        BitsFocus(mem, root, d, s, !s.rl, s.rr);
        mem := FlipLeft(mem, elm);
        s := s.(rl := !s.rl);
        var child := RotateLeft(elm, d, s);
        s := RotatedLeft(s);
        if mem[child].redL {
          ghost var e := InL(s.id, s.rl, s.rr, s.r, d);
          FocusUp(mem, root, e, s.l);
          BitsFocus(mem, root, e, s.l, s.l.rl, !s.l.rr);
          mem := FlipRight(mem, elm);
          s := s.(l := s.l.(rr := !s.l.rr));
          FocusUp(mem, root, e, s.l);
        } else if mem[child].redR {
          BitsAbove(mem, root, d, s, !d.rl, d.rr);
          mem := FlipLeft(mem, parent);
          d := InL(d.id, !d.rl, d.rr, d.sib, d.up);
        }
        elm := child;
      }
      FocusUp(mem, root, d, s);
      ghost var p := Join(d, s);
      elm := RotateRight(parent, d.up, p);
      p := RotatedRight(p);
      BitsFocus(mem, root, d.up, p, false, false);
      mem := SetBits(mem, elm, false, false);
      assert p.(rl := false, rr := false) == RaisedL(t, parent, c.sib);
    }

    /** The rotations of RB_INSERT_COLOR for a raised right child `elm0` of `parent`. */
    method InsertRotateRightCase(elm0: Ref, parent: Ref, ghost c: Ctx, ghost t: Tree)
      requires At(c, t) && c.InR? && c.id == parent && Raised(t) && t.id == elm0
      requires !c.rr && !c.rl && (!t.rl ==> t.l.Node?)
      modifies this`root, this`mem
      ensures At(c.up, RaisedR(t, parent, c.sib))
      ensures mem.Keys == old(mem.Keys)
    {
      var elm := elm0;
      ghost var s, d := t, c;
      if !mem[elm].redL {
        BitsFocus(mem, root, d, s, s.rl, !s.rr);
        mem := FlipRight(mem, elm);
        s := s.(rr := !s.rr);
        var child := RotateRight(elm, d, s);
        s := RotatedRight(s);
        if mem[child].redR {
          ghost var e := InR(s.id, s.rl, s.rr, s.l, d);
          FocusUp(mem, root, e, s.r);
          BitsFocus(mem, root, e, s.r, !s.r.rl, s.r.rr);
          mem := FlipLeft(mem, elm);
          s := s.(r := s.r.(rl := !s.r.rl));
          FocusUp(mem, root, e, s.r);
        } else if mem[child].redL {
          BitsAbove(mem, root, d, s, d.rl, !d.rr);
          mem := FlipRight(mem, parent);
          d := InR(d.id, d.rl, !d.rr, d.sib, d.up);
        }
        elm := child;
      }
      FocusUp(mem, root, d, s);
      ghost var p := Join(d, s);
      elm := RotateLeft(parent, d.up, p);
      p := RotatedLeft(p);
      BitsFocus(mem, root, d.up, p, false, false);
      mem := SetBits(mem, elm, false, false);
      assert p.(rl := false, rr := false) == RaisedR(t, parent, c.sib);
    }

    /** One round of RB_INSERT_COLOR's loop for a left child. */
    method InsertStepLeft(elm: Ref, parent: Ref, ghost c: Ctx, ghost t: Tree) returns (done: bool, ghost c': Ctx, ghost t': Tree)
      requires At(c, t) && Grown(c, t) && c.InL? && t.id == elm && c.id == parent
      modifies this`root, this`mem
      ensures At(c', t') && mem.Keys == old(mem.Keys)
      ensures Whole(c', t') == Whole(c, t)
      ensures if done then Fits(c', t') else Grown(c', t') && c' == c.up && t'.id == parent
    {
      GrowLeft(c, t);
      if mem[parent].redL {
        BitsAbove(mem, root, c, t, !c.rl, c.rr);
        mem := FlipLeft(mem, parent);
        return true, InL(c.id, false, c.rr, c.sib, c.up), t;
      }
      BitsAbove(mem, root, c, t, c.rl, !c.rr);
      mem := FlipRight(mem, parent);
      ghost var d := InL(c.id, c.rl, !c.rr, c.sib, c.up);
      if mem[parent].redR {
        FocusUp(mem, root, d, t);
        UpInOrder(d, t);
        return false, c.up, Join(d, t);
      }
      RaisedInner(t, c.sib);
      InsertRotateLeftCase(elm, parent, d, t);
      RaiseLOk(t, parent, c.sib);
      done, c', t' := true, c.up, RaisedL(t, parent, c.sib);
      ReplaceInOrder(c, t, t');
    }

    /** One round of RB_INSERT_COLOR's loop for a right child. */
    method InsertStepRight(elm: Ref, parent: Ref, ghost c: Ctx, ghost t: Tree) returns (done: bool, ghost c': Ctx, ghost t': Tree)
      requires At(c, t) && Grown(c, t) && c.InR? && t.id == elm && c.id == parent
      modifies this`root, this`mem
      ensures At(c', t') && mem.Keys == old(mem.Keys)
      ensures Whole(c', t') == Whole(c, t)
      ensures if done then Fits(c', t') else Grown(c', t') && c' == c.up && t'.id == parent
    {
      GrowRight(c, t);
      if mem[parent].redR {
        BitsAbove(mem, root, c, t, c.rl, !c.rr);
        mem := FlipRight(mem, parent);
        return true, InR(c.id, c.rl, false, c.sib, c.up), t;
      }
      BitsAbove(mem, root, c, t, !c.rl, c.rr);
      mem := FlipLeft(mem, parent);
      ghost var d := InR(c.id, !c.rl, c.rr, c.sib, c.up);
      if mem[parent].redL {
        FocusUp(mem, root, d, t);
        UpInOrder(d, t);
        return false, c.up, Join(d, t);
      }
      RaisedInner(t, c.sib);
      InsertRotateRightCase(elm, parent, d, t);
      RaiseROk(t, parent, c.sib);
      done, c', t' := true, c.up, RaisedR(t, parent, c.sib);
      ReplaceInOrder(c, t, t');
    }

    /** RB_INSERT_COLOR: climb from the new leaf `x` until the ranks fit again. */
    method InsertColor(x: Ref, ghost c0: Ctx, ghost t0: Tree) returns (ghost t': Tree)
      requires At(c0, t0) && t0 == Node(Empty, x, false, false, Empty) && WavlC(c0, -1)
      modifies this`root, this`mem
      ensures At(Top, t') && Wavl(t')
      ensures InOrder(t') == Whole(c0, t0)
      ensures mem.Keys == old(mem.Keys)
    {
      var elm, done := x, false;
      ghost var c, t := c0, t0;
      while mem[elm].parent != NULL
        invariant At(c, t) && Grown(c, t) && t.id == elm
        invariant Whole(c, t) == Whole(c0, t0)
        invariant mem.Keys == old(mem.Keys)
        decreases c
      {
        var parent := mem[elm].parent;
        Side(mem, root, c, t);
        if mem[parent].left == elm {
          done, c, t := InsertStepLeft(elm, parent, c, t);
        } else {
          done, c, t := InsertStepRight(elm, parent, c, t);
        }
        if done {
          Settle(mem, root, c, t);
          return Plug(c, t);
        }
        elm := parent;
      }
      t' := t;
    }

    /** The first of two rotations for a shrunk left child: the inner grandchild replaces the
        sibling, and the red bits are set for the second. */
    method PullUpLeft(sib: Ref, parent: Ref, ghost d0: Ctx, ghost s0: Tree) returns (elm: Ref, ghost d: Ctx, ghost s: Tree)
      requires At(d0, s0) && d0.InR? && d0.id == parent && s0.Node? && s0.id == sib && s0.l.Node?
      modifies this`root, this`mem
      ensures At(d, s) && mem.Keys == old(mem.Keys)
      ensures var u := RotatedRight(s0);
        && elm == u.id && s == (if u.rr then u.(r := u.r.(rl := !u.r.rl)) else u).(rl := true, rr := true)
        && d == if u.rl then InR(d0.id, d0.rl, !d0.rr, d0.sib, d0.up) else d0
    {
      elm := RotateRight(sib, d0, s0);
      d, s := d0, RotatedRight(s0);
      if mem[elm].redR {
        ghost var e := InR(s.id, s.rl, s.rr, s.l, d);
        FocusUp(mem, root, e, s.r);
        BitsFocus(mem, root, e, s.r, !s.r.rl, s.r.rr);
        mem := FlipLeft(mem, sib);
        s := s.(r := s.r.(rl := !s.r.rl));
        FocusUp(mem, root, e, s.r);
      }
      if mem[elm].redL {
        BitsAbove(mem, root, d, s, d.rl, !d.rr);
        mem := FlipRight(mem, parent);
        d := InR(d.id, d.rl, !d.rr, d.sib, d.up);
      }
      BitsFocus(mem, root, d, s, true, true);
      mem := SetBits(mem, elm, true, true);
      s := s.(rl := true, rr := true);
    }

    /** The rotations of RB_REMOVE_COLOR for a shrunk left child of `parent`. */
    method RemoveRotateLeftCase(parent: Ref, ghost c: Ctx, ghost t: Tree)
      requires At(c, t) && c.InL? && c.id == parent && c.rl && !c.rr
      requires c.sib.Node? && !(c.sib.rl && c.sib.rr) && (c.sib.rr ==> c.sib.l.Node?)
      modifies this`root, this`mem
      ensures At(c.up, LoweredL(t, parent, c.sib))
      ensures mem.Keys == old(mem.Keys)
    {
      FocusAcross(mem, root, c, t);
      ghost var d, s := Across(c, t), c.sib;
      var sib := mem[parent].right;
      BitsFocus(mem, root, d, s, s.rl, !s.rr);
      mem := FlipRight(mem, sib);
      s := s.(rr := !s.rr);
      if mem[sib].redL {
        BitsAbove(mem, root, d, s, !d.rl, d.rr);
        mem := FlipLeft(mem, parent);
        d := InR(d.id, !d.rl, d.rr, d.sib, d.up);
      } else if !mem[sib].redR {
        BitsAbove(mem, root, d, s, !d.rl, d.rr);
        mem := FlipLeft(mem, parent);
        d := InR(d.id, !d.rl, d.rr, d.sib, d.up);
        sib, d, s := PullUpLeft(sib, parent, d, s);
      }
      FocusUp(mem, root, d, s);
      sib := RotateLeft(parent, d.up, Join(d, s));
      assert RotatedLeft(Join(d, s)) == LoweredL(t, parent, c.sib);
    }

    /** The sibling of a shrunk left child loses one rank as well. */
    method DemoteLeft(parent: Ref, sib: Ref, ghost c: Ctx, ghost t: Tree)
      requires At(c, t) && c.InL? && c.id == parent && c.sib.Node? && c.sib.id == sib && sib in mem
      modifies this`mem
      ensures mem.Keys == old(mem.Keys)
      ensures var d := InL(c.id, c.rl, c.rr, c.sib.(rl := false, rr := false), c.up);
        At(c.up, Join(d, t)) && Whole(c.up, Join(d, t)) == Whole(c, t)
    {
      ghost var d := InL(c.id, c.rl, c.rr, c.sib.(rl := false, rr := false), c.up);
      FocusAcross(mem, root, c, t);
      BitsFocus(mem, root, Across(c, t), c.sib, false, false);
      mem := SetBits(mem, sib, false, false);
      FocusAcross(mem, root, d, t);
      FocusUp(mem, root, d, t);
      UpInOrder(d, t);
    }

    /** One round of RB_REMOVE_COLOR's loop for a left child. */
    method RemoveStepLeft(elm: Ref, parent: Ref, ghost c: Ctx, ghost t: Tree) returns (done: bool, ghost c': Ctx, ghost t': Tree)
      requires At(c, t) && Shrunk(c, t) && c.InL? && Ptr(t) == elm && c.id == parent && (t.Node? || c.sib.Node?)
      modifies this`root, this`mem
      ensures At(c', t') && mem.Keys == old(mem.Keys)
      ensures Whole(c', t') == Whole(c, t)
      ensures if done then Fits(c', t') else Shrunk(c', t') && c' == c.up && t'.Node? && t'.id == parent
    {
      ShrinkLeft(c, t);
      if !mem[parent].redL {
        BitsAbove(mem, root, c, t, !c.rl, c.rr);
        mem := FlipLeft(mem, parent);
        return true, InL(c.id, true, c.rr, c.sib, c.up), t;
      }
      if mem[parent].redR {
        BitsAbove(mem, root, c, t, c.rl, !c.rr);
        mem := FlipRight(mem, parent);
        ghost var d := InL(c.id, c.rl, !c.rr, c.sib, c.up);
        FocusUp(mem, root, d, t);
        UpInOrder(d, t);
        return false, c.up, Join(d, t);
      }
      FocusAcross(mem, root, c, t);
      var sib := mem[parent].right;
      if mem[sib].redL && mem[sib].redR {
        DemoteBothLeft(c, t);
        DemoteLeft(parent, sib, c, t);
        return false, c.up, Join(InL(c.id, c.rl, c.rr, c.sib.(rl := false, rr := false), c.up), t);
      }
      LowerLeftFits(c, t);
      RemoveRotateLeftCase(parent, c, t);
      done, c', t' := true, c.up, LoweredL(t, parent, c.sib);
    }

    /** The first of two rotations for a shrunk right child: the inner grandchild replaces the
        sibling, and the red bits are set for the second. */
    method PullUpRight(sib: Ref, parent: Ref, ghost d0: Ctx, ghost s0: Tree) returns (elm: Ref, ghost d: Ctx, ghost s: Tree)
      requires At(d0, s0) && d0.InL? && d0.id == parent && s0.Node? && s0.id == sib && s0.r.Node?
      modifies this`root, this`mem
      ensures At(d, s) && mem.Keys == old(mem.Keys)
      ensures var u := RotatedLeft(s0);
        && elm == u.id && s == (if u.rl then u.(l := u.l.(rr := !u.l.rr)) else u).(rl := true, rr := true)
        && d == if u.rr then InL(d0.id, !d0.rl, d0.rr, d0.sib, d0.up) else d0
    {
      elm := RotateLeft(sib, d0, s0);
      d, s := d0, RotatedLeft(s0);
      if mem[elm].redL {
        ghost var e := InL(s.id, s.rl, s.rr, s.r, d);
        FocusUp(mem, root, e, s.l);
        BitsFocus(mem, root, e, s.l, s.l.rl, !s.l.rr);
        mem := FlipRight(mem, sib);
        s := s.(l := s.l.(rr := !s.l.rr));
        FocusUp(mem, root, e, s.l);
      }
      if mem[elm].redR {
        BitsAbove(mem, root, d, s, !d.rl, d.rr);
        mem := FlipLeft(mem, parent);
        d := InL(d.id, !d.rl, d.rr, d.sib, d.up);
      }
      BitsFocus(mem, root, d, s, true, true);
      mem := SetBits(mem, elm, true, true);
      s := s.(rl := true, rr := true);
    }

    /** The rotations of RB_REMOVE_COLOR for a shrunk right child of `parent`. */
    method RemoveRotateRightCase(parent: Ref, ghost c: Ctx, ghost t: Tree)
      requires At(c, t) && c.InR? && c.id == parent && c.rr && !c.rl
      requires c.sib.Node? && !(c.sib.rr && c.sib.rl) && (c.sib.rl ==> c.sib.r.Node?)
      modifies this`root, this`mem
      ensures At(c.up, LoweredR(t, parent, c.sib))
      ensures mem.Keys == old(mem.Keys)
    {
      FocusAcross(mem, root, c, t);
      ghost var d, s := Across(c, t), c.sib;
      var sib := mem[parent].left;
      BitsFocus(mem, root, d, s, !s.rl, s.rr);
      mem := FlipLeft(mem, sib);
      s := s.(rl := !s.rl);
      if mem[sib].redR {
        BitsAbove(mem, root, d, s, d.rl, !d.rr);
        mem := FlipRight(mem, parent);
        d := InL(d.id, d.rl, !d.rr, d.sib, d.up);
      } else if !mem[sib].redL {
        BitsAbove(mem, root, d, s, d.rl, !d.rr);
        mem := FlipRight(mem, parent);
        d := InL(d.id, d.rl, !d.rr, d.sib, d.up);
        sib, d, s := PullUpRight(sib, parent, d, s);
      }
      FocusUp(mem, root, d, s);
      sib := RotateRight(parent, d.up, Join(d, s));
      assert RotatedRight(Join(d, s)) == LoweredR(t, parent, c.sib);
    }

    /** The sibling of a shrunk right child loses one rank as well. */
    method DemoteRight(parent: Ref, sib: Ref, ghost c: Ctx, ghost t: Tree)
      requires At(c, t) && c.InR? && c.id == parent && c.sib.Node? && c.sib.id == sib && sib in mem
      modifies this`mem
      ensures mem.Keys == old(mem.Keys)
      ensures var d := InR(c.id, c.rl, c.rr, c.sib.(rl := false, rr := false), c.up);
        At(c.up, Join(d, t)) && Whole(c.up, Join(d, t)) == Whole(c, t)
    {
      ghost var d := InR(c.id, c.rl, c.rr, c.sib.(rl := false, rr := false), c.up);
      FocusAcross(mem, root, c, t);
      BitsFocus(mem, root, Across(c, t), c.sib, false, false);
      mem := SetBits(mem, sib, false, false);
      FocusAcross(mem, root, d, t);
      FocusUp(mem, root, d, t);
      UpInOrder(d, t);
    }

    /** One round of RB_REMOVE_COLOR's loop for a right child. */
    method RemoveStepRight(elm: Ref, parent: Ref, ghost c: Ctx, ghost t: Tree) returns (done: bool, ghost c': Ctx, ghost t': Tree)
      requires At(c, t) && Shrunk(c, t) && c.InR? && Ptr(t) == elm && c.id == parent && (t.Node? || c.sib.Node?)
      modifies this`root, this`mem
      ensures At(c', t') && mem.Keys == old(mem.Keys)
      ensures Whole(c', t') == Whole(c, t)
      ensures if done then Fits(c', t') else Shrunk(c', t') && c' == c.up && t'.Node? && t'.id == parent
    {
      ShrinkRight(c, t);
      if !mem[parent].redR {
        BitsAbove(mem, root, c, t, c.rl, !c.rr);
        mem := FlipRight(mem, parent);
        return true, InR(c.id, c.rl, true, c.sib, c.up), t;
      }
      if mem[parent].redL {
        BitsAbove(mem, root, c, t, !c.rl, c.rr);
        mem := FlipLeft(mem, parent);
        ghost var d := InR(c.id, !c.rl, c.rr, c.sib, c.up);
        FocusUp(mem, root, d, t);
        UpInOrder(d, t);
        return false, c.up, Join(d, t);
      }
      FocusAcross(mem, root, c, t);
      var sib := mem[parent].left;
      if mem[sib].redR && mem[sib].redL {
        DemoteBothRight(c, t);
        DemoteRight(parent, sib, c, t);
        return false, c.up, Join(InR(c.id, c.rl, c.rr, c.sib.(rl := false, rr := false), c.up), t);
      }
      LowerRightFits(c, t);
      RemoveRotateRightCase(parent, c, t);
      done, c', t' := true, c.up, LoweredR(t, parent, c.sib);
    }

    /** The parent of a removed child has become a leaf: its bits are cleared and it is the
        node that lost a rank. */
    method DemoteLeaf(parent: Ref, ghost c: Ctx, ghost t: Tree) returns (ghost c': Ctx, ghost t': Tree)
      requires At(c, t) && Shrunk(c, t) && !c.Top? && c.id == parent && t.Empty? && c.sib.Empty?
      modifies this`mem
      ensures At(c', t') && Shrunk(c', t') && c' == c.up && t'.Node? && t'.id == parent
      ensures Whole(c', t') == Whole(c, t) && mem.Keys == old(mem.Keys)
    {
      BitsAbove(mem, root, c, t, false, false);
      mem := SetBits(mem, parent, false, false);
      ghost var d := if c.InL? then InL(c.id, false, false, c.sib, c.up) else InR(c.id, false, false, c.sib, c.up);
      FocusUp(mem, root, d, t);
      UpInOrder(d, t);
      c', t' := c.up, Join(d, t);
    }

    /** RB_REMOVE_COLOR: the child `elm0` of `parent0` has lost one rank. */
    method RemoveColor(parent0: Ref, elm0: Ref, ghost c0: Ctx, ghost t0: Tree) returns (ghost t': Tree)
      requires At(c0, t0) && Shrunk(c0, t0) && !c0.Top? && c0.id == parent0 && Ptr(t0) == elm0
      modifies this`root, this`mem
      ensures At(Top, t') && Wavl(t')
      ensures InOrder(t') == Whole(c0, t0)
      ensures mem.Keys == old(mem.Keys)
    {
      var parent, elm, done := parent0, elm0, false;
      ghost var c, t := c0, t0;
      if t.Node? || c.sib.Node? { Side(mem, root, c, t); }
      if mem[parent].left == elm && mem[parent].right == elm {
        c, t := DemoteLeaf(parent, c, t);
        elm := parent;
        parent := mem[elm].parent;
      }
      while parent != NULL
        invariant At(c, t) && Shrunk(c, t) && Ptr(t) == elm && Hook(c) == parent
        invariant c.Top? || t.Node? || c.sib.Node?
        invariant Whole(c, t) == Whole(c0, t0)
        invariant mem.Keys == old(mem.Keys)
        decreases c
      {
        Side(mem, root, c, t);
        if mem[parent].left == elm {
          done, c, t := RemoveStepLeft(elm, parent, c, t);
        } else {
          done, c, t := RemoveStepRight(elm, parent, c, t);
        }
        if done {
          Settle(mem, root, c, t);
          return Plug(c, t);
        }
        elm := parent;
        parent := mem[elm].parent;
      }
      t' := t;
    }

    /** The second half of RB_INSERT: hang `elm` below `parent` and rebalance. */
    method Attach(elm: Ref, parent: Ref, comp: int, ghost c: Ctx)
      requires At(c, Empty) && Plug(c, Empty) == tree && Wavl(tree)
      requires elm != NULL && elm !in Ids(tree) && parent == Hook(c)
      requires (c.InL? ==> comp < 0) && (c.InR? ==> comp > 0)
      modifies this`root, this`mem, this`tree
      ensures At(Top, tree) && Wavl(tree)
      ensures InOrder(tree) == Before(c) + [elm] + After(c)
      ensures mem.Keys == old(mem.Keys) + {elm}
    {
      PlugIds(c, Empty);
      UnplugWavl(c, Empty);
      mem := mem[elm := Cell(NULL, NULL, parent, false, false)];
      if parent == NULL {
        root := elm;
      } else if comp < 0 {
        mem := mem[parent := mem[parent].(left := elm)];
      } else {
        mem := mem[parent := mem[parent].(right := elm)];
      }
      ghost var leaf := Node(Empty, elm, false, false, Empty);
      AttachFocus(old(mem), old(root), mem, root, c, elm);
      tree := InsertColor(elm, c, leaf);
      assert InOrder(leaf) == [elm];
    }

    /** The search loop of RB_INSERT: `found` has the key of `elm`, or `c` is the path to its place. */
    method Descend(elm: Ref) returns (found: Ref, parent: Ref, comp: int, ghost c: Ctx)
      requires Valid() && elm in key
      ensures found != NULL ==> found in InOrder(tree) && key[found] == key[elm]
      ensures found == NULL ==>
        && At(c, Empty) && parent == Hook(c) && Plug(c, Empty) == tree && Searching(key, tree, c, Empty, key[elm])
        && (c.InL? ==> comp < 0) && (c.InR? ==> comp > 0)
    {
      var tmp := root;
      parent, comp, c := NULL, 0, Top;
      ghost var t := tree;
      while tmp != NULL
        invariant At(c, t) && tmp == Ptr(t) && parent == Hook(c) && Plug(c, t) == tree
        invariant Searching(key, tree, c, t, key[elm])
        invariant (c.InL? ==> comp < 0) && (c.InR? ==> comp > 0)
        decreases t
      {
        parent := tmp;
        SearchHere(key, tree, c, t, key[elm]);
        comp := Cmp(key[elm], key[parent]);
        if comp < 0 {
          SearchLeft(key, tree, c, t, key[elm]);
          c := InL(t.id, t.rl, t.rr, t.r, c);
          FocusUp(mem, root, c, t.l);
          tmp, t := mem[tmp].left, t.l;
        } else if comp > 0 {
          SearchRight(key, tree, c, t, key[elm]);
          c := InR(t.id, t.rl, t.rr, t.l, c);
          FocusUp(mem, root, c, t.r);
          tmp, t := mem[tmp].right, t.r;
        } else {
          return tmp, parent, comp, c;
        }
      }
      found := NULL;
    }

    /** RB_INSERT: returns a node with the same key, or NULL after inserting `elm`. */
    method Insert(elm: Ref) returns (dup: Ref, ghost at: nat)
      requires Valid() && elm != NULL && elm in key
      modifies this`root, this`mem, this`tree
      ensures Valid()
      ensures dup != NULL ==>
        && dup in InOrder(old(tree)) && key[dup] == key[elm]
        && root == old(root) && mem == old(mem) && tree == old(tree)
      ensures dup == NULL ==>
        && (forall x :: x in InOrder(old(tree)) ==> key[x] != key[elm])
        && at <= |InOrder(old(tree))|
        && InOrder(tree) == InsertAt(InOrder(old(tree)), at, elm)
        && mem.Keys == old(mem.Keys) + {elm}
    {
      var found, parent, comp;
      ghost var c;
      found, parent, comp, c := Descend(elm);
      if found != NULL {
        return found, 0;
      }
      ghost var s0 := InOrder(tree);
      assert s0 == Before(c) + After(c);
      InsertedAt(key, Before(c), elm, After(c));
      InOrderIds(tree);
      Attach(elm, parent, comp, c);
      dup, at := NULL, |Before(c)|;
      InsertedIds(old(tree), tree, Before(c), elm, After(c));
    }

    /** RB_REMOVE for a node with at most one child: `child` takes its place. */
    method RemoveOne(old': Ref, child: Ref, ghost c: Ctx, ghost s: Tree, ghost u: Tree)
      requires At(c, s) && Fits(c, s) && s.Node? && s.id == old' && Ptr(u) == child
      requires (s.l.Empty? && u == s.r) || (s.r.Empty? && u == s.l)
      modifies this`root, this`mem, this`tree
      ensures At(Top, tree) && Wavl(tree)
      ensures InOrder(tree) == Whole(c, u)
      ensures mem.Keys == old(mem.Keys)
    {
      var parent := SpliceOut(old', child, c, s, u);
      OneChild(c, s, u);
      if parent != NULL {
        tree := RemoveColor(parent, child, c, u);
      } else {
        tree := u;
      }
    }

    /** The only child `child` takes the place of `old'`. */
    method SpliceOut(old': Ref, child: Ref, ghost c: Ctx, ghost s: Tree, ghost u: Tree) returns (parent: Ref)
      requires At(c, s) && s.Node? && s.id == old' && Ptr(u) == child
      requires (s.l.Empty? && u == s.r) || (s.r.Empty? && u == s.l)
      modifies this`root, this`mem
      ensures At(c, u) && parent == Hook(c) && mem.Keys == old(mem.Keys)
    {
      RepCIds(mem, root, c, old');
      RepIds(mem, Hook(c), s);
      if !c.Top? { Side(mem, root, c, s); }
      assert u.Node? ==> u.id in Ids(u) && u.id in Ids(s);
      assert !c.Top? ==> c.id in IdsC(c);
      parent := mem[old'].parent;
      SwapChild(old', child);
      if child != NULL {
        mem := SetParent(mem, child, parent);
      }
      SplicedFocus(old(mem), old(root), mem, root, c, s, u);
    }

    /** The inner loop of RB_REMOVE: the leftmost node below `first`. */
    method Leftmost(first: Ref, ghost base: Ctx, ghost r: Tree) returns (elm: Ref, ghost d: Ctx, ghost t: Tree)
      requires At(base, r) && r.Node? && r.id == first
      ensures At(Over(d, base), t) && t.Node? && t.id == elm && t.l.Empty?
      ensures AllLeft(d) && Plug(d, t) == r
      ensures d.Top? <==> r.l.Empty?
    {
      elm, d, t := first, Top, r;
      var child := mem[elm].left;
      while child != NULL
        invariant At(Over(d, base), t) && t.Node? && t.id == elm && Ptr(t.l) == child
        invariant AllLeft(d) && Plug(d, t) == r
        invariant d.Top? ==> t == r
        invariant !d.Top? ==> r.l.Node?
        decreases t
      {
        d := InL(t.id, t.rl, t.rr, t.r, d);
        FocusUp(mem, root, Over(d, base), t.l);
        t := t.l;
        elm := child;
        child := mem[elm].left;
      }
      assert Rep(mem, t.id, t.l);
    }

    /** The last pointer writes of RB_REMOVE: `elm` gets all links of `old'`. */
    method CopyLinks(old': Ref, elm: Ref, child: Ref, parent: Ref)
      requires old' in mem && mem[old'].left in mem && elm in mem && mem[old'].left !in {old', elm}
      requires mem[old'].parent !in {old', elm, mem[old'].left}
      requires mem[old'].parent != NULL ==> mem[old'].parent in mem
      requires child != NULL ==> child in mem && child !in {old', elm, mem[old'].left, mem[old'].parent}
      modifies this`root, this`mem
      ensures var m0, p, L := old(mem), old(mem[old'].parent), old(mem[old'].left);
        && mem.Keys == m0.Keys
        && mem[elm] == m0[old'] && mem[L] == m0[L].(parent := elm)
        && (child != NULL ==> mem[child] == m0[child].(parent := parent))
        && (if p == NULL then root == elm else
              && root == old(root)
              && mem[p] == if old' == m0[p].left then m0[p].(left := elm) else m0[p].(right := elm))
        && (forall z :: z in m0 && z != elm && z != L && z != p && z != child ==> mem[z] == m0[z])
    {
      mem := SetParent(mem, mem[old'].left, elm);
      mem := mem[elm := mem[old']];
      SwapChild(old', elm);
      if child != NULL {
        mem := SetParent(mem, child, parent);
      }
    }

    /** The pointer writes of RB_REMOVE that put the successor `elm` in the place of `old'`. */
    method TakePlace(old': Ref, elm: Ref, ghost c: Ctx, ghost s: Tree, ghost d: Ctx, ghost t: Tree)
      returns (parent: Ref, child: Ref)
      requires s.Node? && s.l.Node? && s.r.Node? && t.Node? && s.id == old' && t.id == elm
      requires SuccessorSite(mem, c, s, d, t) && (mem[s.r.id].left == NULL <==> d.Top?)
      modifies this`root, this`mem
      ensures Succeeded(old(mem), old(root), mem, root, c, s, d, t)
      ensures child == Ptr(t.r) && parent == (if d.Top? then elm else d.id)
    {
      var right := mem[old'].right;
      child := mem[right].left;
      if child == NULL {
        parent, child := TakeNear(old', elm, c, s, d, t);
      } else {
        parent, child := TakeFar(old', elm, c, s, d, t);
      }
    }

    /** ... when the successor is the right child, */
    method TakeNear(old': Ref, elm: Ref, ghost c: Ctx, ghost s: Tree, ghost d: Ctx, ghost t: Tree)
      returns (parent: Ref, child: Ref)
      requires s.Node? && s.l.Node? && s.r.Node? && t.Node? && s.id == old' && t.id == elm
      requires SuccessorSite(mem, c, s, d, t) && d.Top?
      modifies this`root, this`mem
      ensures Succeeded(old(mem), old(root), mem, root, c, s, d, t)
      ensures child == Ptr(t.r) && parent == elm
    {
      var right := mem[old'].right;
      child := mem[right].right;
      mem := mem[old' := mem[old'].(right := child)];
      parent := right;
      CopyLinks(old', elm, child, parent);
    }

    /** ... and when it is further down. */
    method TakeFar(old': Ref, elm: Ref, ghost c: Ctx, ghost s: Tree, ghost d: Ctx, ghost t: Tree)
      returns (parent: Ref, child: Ref)
      requires s.Node? && s.l.Node? && s.r.Node? && t.Node? && s.id == old' && t.id == elm
      requires SuccessorSite(mem, c, s, d, t) && !d.Top?
      modifies this`root, this`mem
      ensures Succeeded(old(mem), old(root), mem, root, c, s, d, t)
      ensures child == Ptr(t.r) && parent == d.id
    {
      child := mem[elm].right;
      parent := mem[elm].parent;
      mem := mem[parent := mem[parent].(left := child)];
      mem := SetParent(mem, mem[old'].right, elm);
      CopyLinks(old', elm, child, parent);
    }

    method Succeed(old': Ref, elm: Ref, ghost c: Ctx, ghost s: Tree, ghost d: Ctx, ghost t: Tree)
      returns (parent: Ref, child: Ref)
      requires At(c, s) && s.Node? && s.l.Node? && s.r.Node? && s.id == old' && t.Node? && t.id == elm && t.l.Empty?
      requires AllLeft(d) && Plug(d, t) == s.r && (d.Top? <==> s.r.l.Empty?)
      modifies this`root, this`mem
      ensures At(Over(d, InR(elm, s.rl, s.rr, s.l, c)), t.r) && mem.Keys == old(mem.Keys)
      ensures child == Ptr(t.r) && parent == Hook(Over(d, InR(elm, s.rl, s.rr, s.l, c)))
    {
      SuccessorSiteHolds(mem, root, c, s, d, t);
      assert mem[s.r.id].left == NULL <==> d.Top? by { assert Rep(mem, s.id, s.r) && Rep(mem, s.r.id, s.r.l); }
      parent, child := TakePlace(old', elm, c, s, d, t);
      SucceededFocus(old(mem), old(root), mem, root, c, s, d, t);
    }

    /** RB_REMOVE for a node with two children: its successor takes its place. */
    method RemoveTwo(old': Ref, ghost c: Ctx, ghost s: Tree) returns (ghost a: seq<Ref>, ghost b: seq<Ref>)
      requires At(c, s) && Fits(c, s) && s.Node? && s.id == old' && s.l.Node? && s.r.Node?
      modifies this`root, this`mem, this`tree
      ensures At(Top, tree) && Wavl(tree)
      ensures Whole(c, s) == a + [old'] + b && InOrder(tree) == a + b
      ensures mem.Keys == old(mem.Keys)
    {
      ghost var base := InR(s.id, s.rl, s.rr, s.l, c);
      FocusUp(mem, root, base, s.r);
      var elm, parent, child;
      ghost var d, t;
      elm, d, t := Leftmost(mem[old'].right, base, s.r);
      parent, child := Succeed(old', elm, c, s, d, t);
      ghost var e := Over(d, InR(elm, s.rl, s.rr, s.l, c));
      SuccessorShrunk(c, s, d, t);
      tree := RemoveColor(parent, child, e, t.r);
      a, b := Before(c) + InOrder(s.l), [elm] + InOrder(t.r) + After(d) + After(c);
      assert Whole(c, s) == a + [old'] + b by { SuccessorBefore(c, s, d, t); }
      assert InOrder(tree) == a + b by { SuccessorAfter(c, s, d, elm, t.r); }
    }

    /** RB_REMOVE: `elm`, a node of the tree, leaves it and is returned. */
    method Remove(elm: Ref) returns (out: Ref, ghost at: nat)
      requires Valid() && elm in Ids(tree)
      modifies this`root, this`mem, this`tree
      ensures Valid() && out == elm
      ensures at < |InOrder(old(tree))| && InOrder(old(tree))[at] == elm
      ensures InOrder(tree) == RemoveAt(InOrder(old(tree)), at)
      ensures mem.Keys == old(mem.Keys) - {elm}
    {
      ghost var a, b := Unhook(elm);
      at := |a|;
      RemovedAt(key, a, elm, b);
      RemovedIds(old(tree), tree, a, elm, b);
      RepFrame(mem, mem - {elm}, NULL, tree);
      mem := mem - {elm};
      out := elm;
    }

    /** The tree without `elm`, whose cell is still at hand. */
    method Unhook(elm: Ref) returns (ghost a: seq<Ref>, ghost b: seq<Ref>)
      requires Valid() && elm in Ids(tree)
      modifies this`root, this`mem, this`tree
      ensures At(Top, tree) && Wavl(tree) && mem.Keys == old(mem.Keys)
      ensures InOrder(old(tree)) == a + [elm] + b && InOrder(tree) == a + b
    {
      ghost var c, s := Locate(Top, tree, elm);
      FocusTop(mem, root, c, s);
      UnplugWavl(c, s);
      PlugInOrder(c, s);
      assert Rep(mem, elm, s.l) && Rep(mem, elm, s.r);
      WholeAround(c, s);
      a, b := Before(c) + InOrder(s.l), InOrder(s.r) + After(c);
      if mem[elm].left == NULL {
        RemoveOne(elm, mem[elm].right, c, s, s.r);
      } else if mem[elm].right == NULL {
        RemoveOne(elm, mem[elm].left, c, s, s.l);
      } else {
        a, b := RemoveTwo(elm, c, s);
      }
    }

    // ---- searches ------------------------------------------------------------------

    /** RB_NFIND: the first node, in order, whose key is at least `k`. */
    method NFind(k: int) returns (res: Ref, ghost at: nat)
      requires Valid()
      ensures IsFirstFrom(key, InOrder(tree), k, res, at)
    {
      var tmp := root;
      ghost var c, t := Top, tree;
      res := NULL;
      while tmp != NULL
        invariant tmp == Ptr(t) && Hunting(mem, root, key, tree, c, t, k, res)
        decreases t
      {
        HuntHere(mem, root, key, tree, c, t, k, res);
        var comp := Cmp(k, key[tmp]);
        if comp < 0 {
          HuntLeft(mem, root, key, tree, c, t, k, res);
          res := tmp;
          c := InL(t.id, t.rl, t.rr, t.r, c);
          tmp, t := mem[tmp].left, t.l;
        } else if comp > 0 {
          HuntRight(mem, root, key, tree, c, t, k, res);
          c := InR(t.id, t.rl, t.rr, t.l, c);
          tmp, t := mem[tmp].right, t.r;
        } else {
          SearchHit(key, tree, c, t, k);
          return tmp, |Before(c)| + |InOrder(t.l)|;
        }
      }
      RepIds(mem, NULL, tree);
      InOrderIds(tree);
      SearchEnd(key, tree, c, k, res);
      at := |Before(c)|;
    }

    /** RB_MINMAX: the last node for `val >= 0`, the first for `val < 0`. */
    method MinMax(val: int) returns (parent: Ref)
      requires Valid()
      ensures parent == NULL <==> InOrder(tree) == []
      ensures parent != NULL ==> parent == if val < 0 then InOrder(tree)[0] else InOrder(tree)[|InOrder(tree)| - 1]
    {
      var tmp := root;
      ghost var c, t := Top, tree;
      parent := NULL;
      while tmp != NULL
        invariant At(c, t) && tmp == Ptr(t) && parent == Hook(c) && Whole(c, t) == InOrder(tree)
        invariant c.Top? || (if val < 0 then c.InL? else c.InR?)
        invariant if val < 0 then Before(c) == [] else After(c) == []
        decreases t
      {
        parent := tmp;
        if val < 0 {
          c := InL(t.id, t.rl, t.rr, t.r, c);
          FocusUp(mem, root, c, t.l);
          UpInOrder(c, t.l);
          tmp, t := mem[tmp].left, t.l;
        } else {
          c := InR(t.id, t.rl, t.rr, t.l, c);
          FocusUp(mem, root, c, t.r);
          UpInOrder(c, t.r);
          tmp, t := mem[tmp].right, t.r;
        }
      }
      if !c.Top? { EdgeEnds(c); }
    }

    /** The first loop of RB_PREV: the rightmost node below `first`. */
    method Rightmost(first: Ref, ghost base: Ctx, ghost l: Tree) returns (elm: Ref)
      requires At(base, l) && l.Node? && l.id == first
      ensures InOrder(l) != [] && elm == InOrder(l)[|InOrder(l)| - 1]
    {
      elm := first;
      ghost var c, t := base, l;
      while mem[elm].right != NULL
        invariant At(c, t) && t.Node? && t.id == elm
        invariant InOrder(t) != [] && InOrder(l) != [] && InOrder(t)[|InOrder(t)| - 1] == InOrder(l)[|InOrder(l)| - 1]
        decreases t
      {
        c := InR(t.id, t.rl, t.rr, t.l, c);
        FocusUp(mem, root, c, t.r);
        t := t.r;
        elm := mem[elm].right;
      }
      assert Rep(mem, t.id, t.r);
    }

    /** The second loop of RB_PREV: up to the first ancestor reached from its right. */
    method ClimbLeft(elm0: Ref, ghost c0: Ctx, ghost t0: Tree) returns (elm: Ref)
      requires At(c0, t0) && t0.Node? && t0.id == elm0
      ensures elm == if Before(c0) == [] then NULL else Before(c0)[|Before(c0)| - 1]
    {
      elm := elm0;
      ghost var c, t := c0, t0;
      while mem[elm].parent != NULL && elm == mem[mem[elm].parent].left
        invariant At(c, t) && t.Node? && t.id == elm && Before(c) == Before(c0)
        decreases c
      {
        Side(mem, root, c, t);
        FocusUp(mem, root, c, t);
        elm := mem[elm].parent;
        t, c := Join(c, t), c.up;
      }
      if !c.Top? { Side(mem, root, c, t); }
      elm := mem[elm].parent;
    }

    /** RB_PREV: the node before `elm0` in order, or NULL. */
    method Prev(elm0: Ref, ghost at: nat) returns (elm: Ref)
      requires Valid() && at < |InOrder(tree)| && InOrder(tree)[at] == elm0
      ensures elm == if at == 0 then NULL else InOrder(tree)[at - 1]
    {
      InOrderIds(tree);
      assert elm0 in InOrder(tree);
      ghost var c, t := Locate(Top, tree, elm0);
      FocusTop(mem, root, c, t);
      Predecessor(key, tree, c, t, at);
      if mem[elm0].left != NULL {
        ghost var d := InL(t.id, t.rl, t.rr, t.r, c);
        FocusUp(mem, root, d, t.l);
        elm := Rightmost(mem[elm0].left, d, t.l);
      } else {
        assert Rep(mem, t.id, t.l);
        elm := ClimbLeft(elm0, c, t);
      }
    }
  }
}
