/**
  Shape of the rank-balanced tree of `user/include/tree.h`.

  A node's memory cell holds its two child pointers and its parent word; the two
  low bits of the parent word are the "red" bits, kept here as two booleans.  A
  pointer is a number and 0 is NULL.  The pointer structure is related to a
  functional tree (`Tree`), and, while code climbs from a node towards the root,
  to a functional tree with a hole (`Ctx`) and the subtree that fills it.
 */
module WavlShape {

  type Ref = nat
  const NULL: Ref := 0

  datatype Cell = Cell(left: Ref, right: Ref, parent: Ref, redL: bool, redR: bool)

  type Mem = map<Ref, Cell>

  /** `rl` and `rr` say that the rank difference to the left/right child is 2, not 1. */
  datatype Tree = Empty | Node(l: Tree, id: Ref, rl: bool, rr: bool, r: Tree)

  /** The path from a hole up to the root: InL(..) has its hole on the left. */
  datatype Ctx =
    | Top
    | InL(id: Ref, rl: bool, rr: bool, sib: Tree, up: Ctx)
    | InR(id: Ref, rl: bool, rr: bool, sib: Tree, up: Ctx)

  function Ptr(t: Tree): Ref { if t.Empty? then NULL else t.id }

  function Hook(c: Ctx): Ref { if c.Top? then NULL else c.id }

  /** The node that `c` puts directly above the hole, with the hole filled by `t`. */
  function Join(c: Ctx, t: Tree): Tree
    requires !c.Top?
  {
    match c
    case InL(id, rl, rr, s, _) => Node(t, id, rl, rr, s)
    case InR(id, rl, rr, s, _) => Node(s, id, rl, rr, t)
  }

  function Plug(c: Ctx, t: Tree): Tree
    decreases c
  {
    if c.Top? then t else Plug(c.up, Join(c, t))
  }

  ghost function Ids(t: Tree): set<Ref> {
    if t.Empty? then {} else Ids(t.l) + {t.id} + Ids(t.r)
  }

  ghost function IdsC(c: Ctx): set<Ref> {
    if c.Top? then {} else Ids(c.sib) + {c.id} + IdsC(c.up)
  }

  function InOrder(t: Tree): seq<Ref> {
    if t.Empty? then [] else InOrder(t.l) + [t.id] + InOrder(t.r)
  }

  function Before(c: Ctx): seq<Ref> {
    match c
    case Top => []
    case InL(_, _, _, _, up) => Before(up)
    case InR(id, _, _, s, up) => Before(up) + InOrder(s) + [id]
  }

  function After(c: Ctx): seq<Ref> {
    match c
    case Top => []
    case InL(id, _, _, s, up) => [id] + InOrder(s) + After(up)
    case InR(_, _, _, _, up) => After(up)
  }

  /** No node occurs twice. */
  ghost predicate Distinct(t: Tree) {
    t.Empty? || (Distinct(t.l) && Distinct(t.r) && Ids(t.l) !! {t.id} !! Ids(t.r))
  }

  ghost predicate DistinctC(c: Ctx) {
    c.Top? || (DistinctC(c.up) && Distinct(c.sib) && Ids(c.sib) !! {c.id} !! IdsC(c.up))
  }

  /** `mem` holds exactly the tree `t`, hanging below `parent`. */
  ghost predicate Rep(mem: Mem, parent: Ref, t: Tree)
    decreases t
  {
    t.Node? ==>
      && t.id != NULL && t.id in mem
      && mem[t.id] == Cell(Ptr(t.l), Ptr(t.r), parent, t.rl, t.rr)
      && Rep(mem, t.id, t.l) && Rep(mem, t.id, t.r)
  }

  /** `mem` and `root` hold exactly the path `c`, whose hole is the pointer `hole`. */
  ghost predicate RepC(mem: Mem, root: Ref, c: Ctx, hole: Ref) {
    match c
    case Top => root == hole
    case InL(id, rl, rr, s, up) =>
      && id != NULL && id in mem
      && mem[id] == Cell(hole, Ptr(s), Hook(up), rl, rr)
      && Rep(mem, id, s) && RepC(mem, root, up, id)
    case InR(id, rl, rr, s, up) =>
      && id != NULL && id in mem
      && mem[id] == Cell(Ptr(s), hole, Hook(up), rl, rr)
      && Rep(mem, id, s) && RepC(mem, root, up, id)
  }

  /** The whole structure, seen with the path `c` around the subtree `t`. */
  ghost predicate Focus(mem: Mem, root: Ref, c: Ctx, t: Tree) {
    && RepC(mem, root, c, Ptr(t)) && Rep(mem, Hook(c), t)
    && DistinctC(c) && Distinct(t) && IdsC(c) !! Ids(t)
  }

  // ---- moving the focus ------------------------------------------------------------

  lemma FocusUp(mem: Mem, root: Ref, c: Ctx, t: Tree)
    requires !c.Top?
    ensures Focus(mem, root, c, t) <==> Focus(mem, root, c.up, Join(c, t))
  {
  }

  lemma {:induction false} FocusTop(mem: Mem, root: Ref, c: Ctx, t: Tree)
    ensures Focus(mem, root, c, t) <==> Focus(mem, root, Top, Plug(c, t))
    decreases c
  {
    if !c.Top? {
      FocusUp(mem, root, c, t);
      FocusTop(mem, root, c.up, Join(c, t));
    }
  }

  lemma {:induction false} PlugInOrder(c: Ctx, t: Tree)
    ensures InOrder(Plug(c, t)) == Before(c) + InOrder(t) + After(c)
    decreases c
  {
    if !c.Top? {
      PlugInOrder(c.up, Join(c, t));
    }
  }

  /** Any node of a tree can be focused on. */
  lemma {:induction false} Locate(c0: Ctx, t: Tree, x: Ref) returns (c: Ctx, s: Tree)
    requires x in Ids(t)
    ensures s.Node? && s.id == x && Plug(c, s) == Plug(c0, t)
    decreases t
  {
    if x == t.id {
      c, s := c0, t;
    } else if x in Ids(t.l) {
      c, s := Locate(InL(t.id, t.rl, t.rr, t.r, c0), t.l, x);
    } else {
      c, s := Locate(InR(t.id, t.rl, t.rr, t.l, c0), t.r, x);
    }
  }

  lemma {:induction false} InOrderIds(t: Tree)
    ensures forall x :: x in InOrder(t) <==> x in Ids(t)
  {
    if t.Node? {
      InOrderIds(t.l);
      InOrderIds(t.r);
    }
  }

  function InsertAt(s: seq<Ref>, at: nat, x: Ref): seq<Ref>
    requires at <= |s|
  {
    s[..at] + [x] + s[at..]
  }

  function RemoveAt(s: seq<Ref>, at: nat): seq<Ref>
    requires at < |s|
  {
    s[..at] + s[at + 1..]
  }

  // ---- frames ----------------------------------------------------------------------

  lemma {:induction false} RepFrame(mem: Mem, mem': Mem, parent: Ref, t: Tree)
    requires Rep(mem, parent, t)
    requires forall x :: x in Ids(t) && x in mem ==> x in mem' && mem'[x] == mem[x]
    ensures Rep(mem', parent, t)
    decreases t
  {
    if t.Node? {
      RepFrame(mem, mem', t.id, t.l);
      RepFrame(mem, mem', t.id, t.r);
    }
  }

  lemma {:induction false} RepCFrame(mem: Mem, mem': Mem, root: Ref, c: Ctx, hole: Ref)
    requires RepC(mem, root, c, hole)
    requires forall x :: x in IdsC(c) && x in mem ==> x in mem' && mem'[x] == mem[x]
    ensures RepC(mem', root, c, hole)
  {
    if !c.Top? {
      RepFrame(mem, mem', c.id, c.sib);
      RepCFrame(mem, mem', root, c.up, c.id);
    }
  }

  /** Changing the parent word of a subtree's root hangs it below another node. */
  lemma RepHang(mem: Mem, mem': Mem, parent: Ref, parent': Ref, t: Tree)
    requires Rep(mem, parent, t) && Distinct(t)
    requires t.Node? ==> t.id in mem' && mem'[t.id] == mem[t.id].(parent := parent')
    requires forall x :: x in Ids(t) && x in mem && x != Ptr(t) ==> x in mem' && mem'[x] == mem[x]
    ensures Rep(mem', parent', t)
  {
    if t.Node? {
      RepFrame(mem, mem', t.id, t.l);
      RepFrame(mem, mem', t.id, t.r);
    }
  }

  /** Redirecting the one pointer that leads into the hole. */
  lemma RepCHole(mem: Mem, mem': Mem, root: Ref, root': Ref, c: Ctx, hole: Ref, hole': Ref)
    requires RepC(mem, root, c, hole) && DistinctC(c)
    requires c.Top? ==> root' == hole'
    requires !c.Top? ==>
      && root' == root && c.id in mem'
      && mem'[c.id] == if c.InL? then mem[c.id].(left := hole') else mem[c.id].(right := hole')
    requires forall x :: x in IdsC(c) && x in mem && x != Hook(c) ==> x in mem' && mem'[x] == mem[x]
    ensures RepC(mem', root', c, hole')
  {
    if !c.Top? {
      RepFrame(mem, mem', c.id, c.sib);
      RepCFrame(mem, mem', root, c.up, c.id);
    }
  }

  lemma {:induction false} RepIds(mem: Mem, parent: Ref, t: Tree)
    requires Rep(mem, parent, t)
    ensures Ids(t) <= mem.Keys && NULL !in Ids(t)
    decreases t
  {
    if t.Node? {
      RepIds(mem, t.id, t.l);
      RepIds(mem, t.id, t.r);
    }
  }

  lemma {:induction false} RepCIds(mem: Mem, root: Ref, c: Ctx, hole: Ref)
    requires RepC(mem, root, c, hole)
    ensures IdsC(c) <= mem.Keys && NULL !in IdsC(c)
  {
    if !c.Top? {
      RepIds(mem, c.id, c.sib);
      RepCIds(mem, root, c.up, c.id);
    }
  }

  // ---- paths on top of paths -------------------------------------------------------

  /** The path `d` continued upwards by `base`. */
  function Over(d: Ctx, base: Ctx): Ctx {
    match d
    case Top => base
    case InL(id, rl, rr, s, up) => InL(id, rl, rr, s, Over(up, base))
    case InR(id, rl, rr, s, up) => InR(id, rl, rr, s, Over(up, base))
  }

  /** A path that only ever came down to the left. */
  predicate AllLeft(d: Ctx) { d.Top? || (d.InL? && AllLeft(d.up)) }

  lemma {:induction false} FocusOver(mem: Mem, root: Ref, d: Ctx, base: Ctx, t: Tree)
    ensures Focus(mem, root, Over(d, base), t) <==> Focus(mem, root, base, Plug(d, t))
    decreases d
  {
    if !d.Top? {
      FocusUp(mem, root, Over(d, base), t);
      assert Join(Over(d, base), t) == Join(d, t);
      FocusOver(mem, root, d.up, base, Join(d, t));
    }
  }

  lemma {:induction false} OverInOrder(d: Ctx, base: Ctx)
    ensures Before(Over(d, base)) == Before(base) + Before(d)
    ensures After(Over(d, base)) == After(d) + After(base)
    decreases d
  {
    if !d.Top? {
      OverInOrder(d.up, base);
    }
  }

  lemma {:induction false} AllLeftBefore(d: Ctx)
    requires AllLeft(d)
    ensures Before(d) == []
  {
    if !d.Top? {
      AllLeftBefore(d.up);
    }
  }

  lemma {:induction false} PlugIds(d: Ctx, t: Tree)
    ensures Ids(Plug(d, t)) == IdsC(d) + Ids(t)
    decreases d
  {
    if !d.Top? {
      PlugIds(d.up, Join(d, t));
    }
  }

  // ---- taking a node out, and putting one node in another's place ------------------

  /** Memory after the only child of the focused node `s` has taken its place. */
  ghost predicate Spliced(m0: Mem, r0: Ref, m: Mem, r: Ref, c: Ctx, only: Ref) {
    && m.Keys == m0.Keys
    && (only != NULL ==> only in m0 && m[only] == m0[only].(parent := Hook(c)))
    && (c.Top? ==> r == only)
    && (!c.Top? ==>
          && r == r0 && c.id in m0
          && m[c.id] == if c.InL? then m0[c.id].(left := only) else m0[c.id].(right := only))
    && (forall x :: x in m0 && x != Hook(c) && x != only ==> m[x] == m0[x])
  }

  lemma SplicedFocus(m0: Mem, r0: Ref, m: Mem, r: Ref, c: Ctx, s: Tree, u: Tree)
    requires Focus(m0, r0, c, s) && s.Node?
    requires (s.l.Empty? && u == s.r) || (s.r.Empty? && u == s.l)
    requires Spliced(m0, r0, m, r, c, Ptr(u))
    ensures Focus(m, r, c, u) && s.id !in IdsC(c) && s.id !in Ids(u)
  {
    RepIds(m0, Hook(c), s);
    RepCIds(m0, r0, c, s.id);
    assert s.id in Ids(s) && (u.Node? ==> u.id in Ids(u));
    assert !c.Top? ==> c.id in IdsC(c);
    RepHang(m0, m, s.id, Hook(c), u);
    RepCHole(m0, m, r0, r, c, s.id, Ptr(u));
  }

  /** Memory after `x` has been given the links of the focused node `s`. */
  ghost predicate Replaced(m0: Mem, r0: Ref, m: Mem, r: Ref, c: Ctx, s: Tree, x: Ref)
    requires s.Node?
  {
    && m.Keys == m0.Keys && s.id in m0 && x in m0
    && m[x] == m0[s.id]
    && (s.l.Node? ==> s.l.id in m0 && m[s.l.id] == m0[s.l.id].(parent := x))
    && (s.r.Node? ==> s.r.id in m0 && m[s.r.id] == m0[s.r.id].(parent := x))
    && (c.Top? ==> r == x)
    && (!c.Top? ==>
          && r == r0 && c.id in m0
          && m[c.id] == if c.InL? then m0[c.id].(left := x) else m0[c.id].(right := x))
    && (forall z :: z in m0 && z != NULL && z != Hook(c) && z != x && z != Ptr(s.l) && z != Ptr(s.r) ==> m[z] == m0[z])
  }

  lemma ReplacedFocus(m0: Mem, r0: Ref, m: Mem, r: Ref, c: Ctx, s: Tree, x: Ref)
    requires Focus(m0, r0, c, s) && s.Node? && x != NULL && x !in IdsC(c) && x !in Ids(s)
    requires Replaced(m0, r0, m, r, c, s, x)
    ensures Focus(m, r, c, s.(id := x))
  {
    RepIds(m0, Hook(c), s);
    RepCIds(m0, r0, c, s.id);
    assert !c.Top? ==> c.id in IdsC(c);
    assert s.l.Node? ==> s.l.id in Ids(s.l);
    assert s.r.Node? ==> s.r.id in Ids(s.r);
    RepHang(m0, m, s.id, x, s.l);
    RepHang(m0, m, s.id, x, s.r);
    RepCHole(m0, m, r0, r, c, s.id, x);
  }
}
