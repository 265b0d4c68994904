/**
  The four-level page table of `kernel/arch/x86_64/pmap.c` (Intel SDM volume 3A, section
  4.5), for 4 KiB mappings in the user half.

  A table is a frame of 512 entries.  `Dir` names the tables in use by level and region: a
  table of level 0 (a PT) maps the pages of one 2 MiB region, level 1 (a PD) one of 1 GiB,
  level 2 (a PDPT) one of 512 GiB, and the single table of level 3 is the PML4.
 */
module PageTree {

  type Frame = nat

  const ENTRIES: nat := 512
  const USER_ENTRIES: nat := 256 // of the PML4
  const USER_PAGES: nat := 0x8_0000_0000 // 2^35 pages, 2^47 bytes
  const PAGE_SIZE: nat := 4096

  /** The protection bits of an entry. */
  datatype Prot = Prot(write: bool, user: bool, wide: bool, noExec: bool, pat: bool)

  /** An entry: present bit, address bits and protection bits. */
  datatype Entry = Entry(present: bool, frame: Frame, prot: Prot)

  const EMPTY := Entry(false, 0, Prot(false, false, false, false, false))

  /** The entry that points to a lower table. */
  function TableEntry(f: Frame): Entry { Entry(true, f, Prot(true, true, false, false, false)) }

  type Table = seq<Entry>
  type Tables = map<Frame, Table>

  datatype Node = Node(level: nat, region: nat)

  const ROOT := Node(3, 0)

  type Dir = map<Node, Frame>

  function Parent(n: Node): Node { Node(n.level + 1, n.region / ENTRIES) }

  function Child(n: Node, i: nat): Node
    requires n.level > 0
  {
    Node(n.level - 1, ENTRIES * n.region + i)
  }

  /** The table that maps page `v` at each level. */
  function PtOf(v: nat): Node { Node(0, v / ENTRIES) }

  function PdOf(v: nat): Node { Node(1, v / ENTRIES / ENTRIES) }

  function PdptOf(v: nat): Node { Node(2, v / ENTRIES / ENTRIES / ENTRIES) }

  /** The index of a table's entry in the table above it. */
  function Index(n: Node): (i: nat)
    ensures i < ENTRIES
  {
    n.region % ENTRIES
  }

  lemma Ancestors(v: nat)
    requires v < USER_PAGES
    ensures Parent(PtOf(v)) == PdOf(v) && Parent(PdOf(v)) == PdptOf(v) && Parent(PdptOf(v)) == ROOT
    ensures PdptOf(v).region < USER_ENTRIES
  {
  }

  lemma ChildOfParent(n: Node)
    ensures Child(Parent(n), Index(n)) == n
  {
  }

  // ---- the tree invariant ----------------------------------------------------------

  predicate InUserHalf(n: Node, i: nat) { i < ENTRIES && (n.level == 3 ==> i < USER_ENTRIES) }

  /** Entry `i` of an upper table is present exactly when that lower table exists, and then
      points to it and takes no permission away. */
  ghost predicate Link(M: Tables, D: Dir, n: Node, i: nat)
    requires n in D && D[n] in M && |M[D[n]]| == ENTRIES && n.level > 0 && i < ENTRIES
  {
    var e := M[D[n]][i];
    (e.present <==> Child(n, i) in D) && (e.present ==> e.frame == D[Child(n, i)] && Open(e))
  }

  predicate Open(e: Entry) { e.prot.write && e.prot.user && !e.prot.noExec }

  ghost predicate Sound(M: Tables, D: Dir, n: Node)
    requires n in D
  {
    && n.level <= 3 && D[n] in M && |M[D[n]]| == ENTRIES
    && (n.level == 3 ==> n == ROOT) && (n.level == 2 ==> n.region < USER_ENTRIES)
    && (n.level < 3 ==> Parent(n) in D)
    && (n.level > 0 ==> forall i {:trigger Link(M, D, n, i)} :: 0 <= i && InUserHalf(n, i) ==> Link(M, D, n, i))
  }

  ghost predicate Apart(D: Dir, n: Node, m: Node)
    requires n in D && m in D
  {
    n != m ==> D[n] != D[m]
  }

  predicate NotFree(M: Tables, avail: set<Frame>, f: Frame) { f in M ==> f !in avail }

  ghost predicate Owned(D: Dir, f: Frame) { exists n :: n in D && D[n] == f }

  /** The tables form one tree, each in a frame of its own, none of them free. */
  ghost predicate TreeOk(M: Tables, D: Dir, avail: set<Frame>) {
    && ROOT in D
    && (forall n {:trigger Sound(M, D, n)} :: n in D ==> Sound(M, D, n))
    && (forall n, m {:trigger Apart(D, n, m)} :: n in D && m in D ==> Apart(D, n, m))
    && (forall f {:trigger Owned(D, f)} :: f in M <==> Owned(D, f))
    && (forall f {:trigger NotFree(M, avail, f)} :: NotFree(M, avail, f)) && 0 !in avail && 0 !in M
  }

  /** What page `v` maps to: the flat view. */
  ghost function Get(M: Tables, D: Dir, v: nat): Entry
  {
    if PtOf(v) in D && D[PtOf(v)] in M && v % ENTRIES < |M[D[PtOf(v)]]| && M[D[PtOf(v)]][v % ENTRIES].present then M[D[PtOf(v)]][v % ENTRIES] else EMPTY
  }

  /** Every table but the root has an entry in use. */
  ghost predicate Used(M: Tables, D: Dir, n: Node)
    requires n in D && D[n] in M && |M[D[n]]| == ENTRIES
  {
    exists i :: 0 <= i < ENTRIES && M[D[n]][i].present
  }

  ghost predicate NoWaste(M: Tables, D: Dir) {
    forall n {:trigger Used(M, D, n)} :: n in D && n != ROOT && D[n] in M && |M[D[n]]| == ENTRIES ==> Used(M, D, n)
  }

  // ---- the walk --------------------------------------------------------------------

  /** A walk finds a table exactly when the table and those above it exist. */
  lemma WalkStep(M: Tables, D: Dir, avail: set<Frame>, n: Node)
    requires TreeOk(M, D, avail) && Parent(n) in D && n.level < 3 && (n.level == 2 ==> n.region < USER_ENTRIES)
    ensures D[Parent(n)] in M && |M[D[Parent(n)]]| == ENTRIES
    ensures var e := M[D[Parent(n)]][Index(n)];
      (e.present <==> n in D) && (e.present ==> e.frame == D[n] && Open(e))
  {
    assert Sound(M, D, Parent(n));
    ChildOfParent(n);
    assert Link(M, D, Parent(n), Index(n));
  }

  // ---- adding a table --------------------------------------------------------------

  function NewTable(): Table { seq(ENTRIES, _ => EMPTY) }

  function AddTable(M: Tables, D: Dir, n: Node, f: Frame): Tables
    requires Parent(n) in D && D[Parent(n)] in M && |M[D[Parent(n)]]| == ENTRIES
  {
    var p := D[Parent(n)];
    M[f := NewTable()][p := M[p][Index(n) := TableEntry(f)]]
  }

  lemma AddTableOk(M: Tables, D: Dir, avail: set<Frame>, n: Node, f: Frame)
    requires TreeOk(M, D, avail) && n !in D && n.level < 3 && Parent(n) in D && (n.level == 2 ==> n.region < USER_ENTRIES)
    requires f in avail
    ensures D[Parent(n)] in M && |M[D[Parent(n)]]| == ENTRIES
    ensures TreeOk(AddTable(M, D, n, f), D[n := f], avail - {f})
  {
    var p := Parent(n);
    assert Sound(M, D, p);
    var M', D' := AddTable(M, D, n, f), D[n := f];
    ChildOfParent(n);
    assert f !in M by { assert NotFree(M, avail, f); }
    forall g ensures NotFree(M', avail - {f}, g) { assert NotFree(M, avail, g) && Sound(M, D, p); }
    forall k | k in D' ensures Sound(M', D', k) {
      AddTableSound(M, D, avail, n, f, k);
    }
    forall k, m | k in D' && m in D' ensures Apart(D', k, m) {
      if k in D && m in D && k != n && m != n { assert Apart(D, k, m); }
      if k != n { assert Sound(M, D, k); }
      if m != n { assert Sound(M, D, m); }
    }
    forall g ensures g in M' <==> Owned(D', g) {
      assert g in M <==> Owned(D, g);
      if g in M && g != f {
        var k :| k in D && D[k] == g;
        assert k in D' && D'[k] == g;
      } else if g == f {
        assert n in D' && D'[n] == g;
      }
      if k :| k in D' && D'[k] == g {
        if k != n { assert Sound(M, D, k); }
      }
    }
  }

  lemma AddTableSound(M: Tables, D: Dir, avail: set<Frame>, n: Node, f: Frame, k: Node)
    requires TreeOk(M, D, avail) && n !in D && n.level < 3 && Parent(n) in D && (n.level == 2 ==> n.region < USER_ENTRIES)
    requires f in avail && f !in M && (k in D || k == n)
    requires D[Parent(n)] in M && |M[D[Parent(n)]]| == ENTRIES
    ensures Sound(AddTable(M, D, n, f), D[n := f], k)
  {
    var p := Parent(n);
    var M', D' := AddTable(M, D, n, f), D[n := f];
    assert Sound(M, D, p);
    ChildOfParent(n);
    if k == n {
      if n.level > 0 {
        forall i | 0 <= i && InUserHalf(n, i) ensures Link(M', D', n, i) {
          NoOrphan(M, D, avail, n, i);
        }
      }
    } else {
      assert Sound(M, D, k) && Apart(D, k, p);
      if k.level > 0 {
        forall i | 0 <= i && InUserHalf(k, i) ensures Link(M', D', k, i) {
          assert Link(M, D, k, i);
          OneParent(k, i, n);
        }
      }
    }
  }

  /** A table that does not exist has no tables below it. */
  lemma NoOrphan(M: Tables, D: Dir, avail: set<Frame>, n: Node, i: nat)
    requires TreeOk(M, D, avail) && n !in D && 0 < n.level <= 3 && i < ENTRIES
    ensures Child(n, i) !in D
  {
    var c := Child(n, i);
    assert Parent(c) == n;
    assert c in D ==> Sound(M, D, c);
  }

  lemma OneParent(k: Node, i: nat, n: Node)
    requires k.level > 0 && i < ENTRIES
    ensures Child(k, i) == n <==> k == Parent(n) && i == Index(n)
  {
    ChildOfParent(n);
  }

  // ---- what each step does to the flat view and to the tables in use ----------------

  /** Every table but the root and `x` has an entry in use. */
  ghost predicate NoWasteBut(M: Tables, D: Dir, x: Node) {
    forall n {:trigger Used(M, D, n)} ::
      n in D && n != ROOT && n != x && D[n] in M && |M[D[n]]| == ENTRIES ==> Used(M, D, n)
  }

  lemma AddTableView(M: Tables, D: Dir, avail: set<Frame>, n: Node, f: Frame, v: nat)
    requires TreeOk(M, D, avail) && n !in D && n.level < 3 && Parent(n) in D && (n.level == 2 ==> n.region < USER_ENTRIES)
    requires f in avail
    ensures D[Parent(n)] in M && |M[D[Parent(n)]]| == ENTRIES
    ensures Get(AddTable(M, D, n, f), D[n := f], v) == Get(M, D, v)
  {
    AddTableOk(M, D, avail, n, f);
    assert NotFree(M, avail, f);
    var M', D' := AddTable(M, D, n, f), D[n := f];
    assert PtOf(v) in D' ==> Sound(M', D', PtOf(v));
    if PtOf(v) in D {
      assert Sound(M, D, PtOf(v)) && Apart(D, PtOf(v), Parent(n));
    }
  }

  /** A table added under a used one, or under the only unused one, is the only unused one. */
  lemma AddTableWaste(M: Tables, D: Dir, avail: set<Frame>, n: Node, f: Frame)
    requires TreeOk(M, D, avail) && n !in D && n.level < 3 && Parent(n) in D && (n.level == 2 ==> n.region < USER_ENTRIES)
    requires f in avail && NoWasteBut(M, D, Parent(n))
    ensures D[Parent(n)] in M && |M[D[Parent(n)]]| == ENTRIES
    ensures NoWasteBut(AddTable(M, D, n, f), D[n := f], n)
  {
    var p := Parent(n);
    assert Sound(M, D, p) && NotFree(M, avail, f);
    var M', D' := AddTable(M, D, n, f), D[n := f];
    forall k | k in D' && k != ROOT && k != n ensures D'[k] in M' && |M'[D'[k]]| == ENTRIES && Used(M', D', k) {
      assert Sound(M, D, k) && Apart(D, k, p);
      if k == p {
        assert M'[D'[k]][Index(n)].present;
      } else {
        assert Used(M, D, k);
        var i :| 0 <= i < ENTRIES && M[D[k]][i].present;
        assert M'[D'[k]][i].present;
      }
    }
  }

  function SetLeaf(M: Tables, f: Frame, i: nat, e: Entry): Tables
    requires f in M && i < |M[f]|
  {
    M[f := M[f][i := e]]
  }

  lemma SetLeafOk(M: Tables, D: Dir, avail: set<Frame>, v: nat, e: Entry)
    requires TreeOk(M, D, avail) && PtOf(v) in D
    ensures D[PtOf(v)] in M && |M[D[PtOf(v)]]| == ENTRIES
    ensures TreeOk(SetLeaf(M, D[PtOf(v)], v % ENTRIES, e), D, avail)
  {
    var n := PtOf(v);
    assert Sound(M, D, n);
    var M' := SetLeaf(M, D[n], v % ENTRIES, e);
    forall g ensures NotFree(M', avail, g) { assert NotFree(M, avail, g); }
    forall g ensures g in M' <==> Owned(D, g) { assert g in M <==> Owned(D, g); }
    forall k | k in D ensures Sound(M', D, k) {
      assert Sound(M, D, k) && Apart(D, k, n);
      if k.level > 0 {
        forall i | 0 <= i && InUserHalf(k, i) ensures Link(M', D, k, i) {
          assert Link(M, D, k, i);
        }
      }
    }
  }

  lemma SetLeafView(M: Tables, D: Dir, avail: set<Frame>, v: nat, e: Entry, w: nat)
    requires TreeOk(M, D, avail) && PtOf(v) in D && (!e.present ==> e == EMPTY)
    ensures D[PtOf(v)] in M && |M[D[PtOf(v)]]| == ENTRIES
    ensures Get(SetLeaf(M, D[PtOf(v)], v % ENTRIES, e), D, w) == if w == v then e else Get(M, D, w)
  {
    SetLeafOk(M, D, avail, v, e);
    var M' := SetLeaf(M, D[PtOf(v)], v % ENTRIES, e);
    assert PtOf(w) in D ==> Sound(M, D, PtOf(w)) && Sound(M', D, PtOf(w)) && Apart(D, PtOf(w), PtOf(v));
  }

  lemma SetLeafWaste(M: Tables, D: Dir, avail: set<Frame>, v: nat, e: Entry)
    requires TreeOk(M, D, avail) && PtOf(v) in D && NoWasteBut(M, D, PtOf(v))
    ensures D[PtOf(v)] in M && |M[D[PtOf(v)]]| == ENTRIES
    ensures var M' := SetLeaf(M, D[PtOf(v)], v % ENTRIES, e);
      NoWasteBut(M', D, PtOf(v)) && (e.present ==> NoWaste(M', D))
  {
    var n := PtOf(v);
    assert Sound(M, D, n);
    var M' := SetLeaf(M, D[n], v % ENTRIES, e);
    forall k | k in D && k != ROOT && k != n ensures D[k] in M' && |M'[D[k]]| == ENTRIES && Used(M', D, k) {
      assert Sound(M, D, k) && Apart(D, k, n) && Used(M, D, k);
      var i :| 0 <= i < ENTRIES && M[D[k]][i].present;
      assert M'[D[k]][i].present;
    }
    if e.present {
      assert M'[D[n]][v % ENTRIES].present;
    }
  }

  // ---- removing an empty table -----------------------------------------------------

  function RemoveTable(M: Tables, D: Dir, n: Node): Tables
    requires n in D && Parent(n) in D && D[Parent(n)] in M && |M[D[Parent(n)]]| == ENTRIES
  {
    var p := D[Parent(n)];
    M[p := M[p][Index(n) := EMPTY]] - {D[n]}
  }

  ghost predicate Removable(M: Tables, D: Dir, avail: set<Frame>, n: Node) {
    && TreeOk(M, D, avail) && n in D && n.level < 3
    && Parent(n) in D && D[Parent(n)] in M && |M[D[Parent(n)]]| == ENTRIES
    && D[n] in M && |M[D[n]]| == ENTRIES && !Used(M, D, n)
  }

  lemma RemoveTableOk(M: Tables, D: Dir, avail: set<Frame>, n: Node)
    requires Removable(M, D, avail, n)
    ensures TreeOk(RemoveTable(M, D, n), D - {n}, avail + {D[n]})
  {
    var M', D' := RemoveTable(M, D, n), D - {n};
    assert Apart(D, n, Parent(n));
    forall g ensures NotFree(M', avail + {D[n]}, g) { assert NotFree(M, avail, g); }
    forall k | k in D' ensures Sound(M', D', k) {
      RemoveTableSound(M, D, avail, n, k);
    }
    forall k, m | k in D' && m in D' ensures Apart(D', k, m) {
      assert Apart(D, k, m);
    }
    forall g ensures g in M' <==> Owned(D', g) {
      assert g in M <==> Owned(D, g);
      if g in M' {
        var k :| k in D && D[k] == g;
        assert k in D' && D'[k] == g;
      }
      if k :| k in D' && D'[k] == g {
        assert Sound(M, D, k) && Apart(D, k, n);
      }
    }
    assert ROOT in D';
  }

  lemma RemoveTableSound(M: Tables, D: Dir, avail: set<Frame>, n: Node, k: Node)
    requires Removable(M, D, avail, n) && k in D && k != n
    ensures Sound(RemoveTable(M, D, n), D - {n}, k)
  {
    var M', D' := RemoveTable(M, D, n), D - {n};
    var p := Parent(n);
    assert Sound(M, D, k) && Apart(D, k, n) && Apart(D, k, p) && Sound(M, D, n);
    ChildOfParent(k);
    assert k.level < 3 && Parent(k) == n ==> Link(M, D, n, Index(k));
    if k.level > 0 {
      forall i | 0 <= i && InUserHalf(k, i) ensures Link(M', D', k, i) {
        assert Link(M, D, k, i);
        OneParent(k, i, n);
        if Child(k, i) in D { assert Apart(D, Child(k, i), n); }
      }
    }
  }

  lemma RemoveTableView(M: Tables, D: Dir, avail: set<Frame>, n: Node, v: nat)
    requires Removable(M, D, avail, n)
    ensures Get(RemoveTable(M, D, n), D - {n}, v) == Get(M, D, v)
  {
    RemoveTableOk(M, D, avail, n);
    var M', D' := RemoveTable(M, D, n), D - {n};
    assert PtOf(v) in D' ==> Sound(M', D', PtOf(v));
    assert PtOf(v) in D ==> Sound(M, D, PtOf(v)) && Apart(D, PtOf(v), Parent(n)) && Apart(D, PtOf(v), n);
  }

  lemma RemoveTableWaste(M: Tables, D: Dir, avail: set<Frame>, n: Node)
    requires Removable(M, D, avail, n) && NoWasteBut(M, D, n)
    ensures NoWasteBut(RemoveTable(M, D, n), D - {n}, Parent(n))
  {
    var M', D' := RemoveTable(M, D, n), D - {n};
    var p := Parent(n);
    forall k | k in D' && k != ROOT && k != p ensures D'[k] in M' && |M'[D'[k]]| == ENTRIES && Used(M', D', k) {
      assert Sound(M, D, k) && Apart(D, k, n) && Apart(D, k, p) && Used(M, D, k);
      var i :| 0 <= i < ENTRIES && M[D[k]][i].present;
      assert M'[D'[k]][i].present;
    }
  }

  // ---- the kernel half of the root --------------------------------------------------

  /** The entries of the root from USER_ENTRIES on are `K`. */
  ghost predicate KernelHalf(M: Tables, D: Dir, K: seq<Entry>) {
    && ROOT in D && D[ROOT] in M && |M[D[ROOT]]| == ENTRIES && |K| == ENTRIES - USER_ENTRIES
    && forall i :: USER_ENTRIES <= i < ENTRIES ==> M[D[ROOT]][i] == K[i - USER_ENTRIES]
  }

  lemma KernelAdd(M: Tables, D: Dir, avail: set<Frame>, n: Node, f: Frame, K: seq<Entry>)
    requires TreeOk(M, D, avail) && n !in D && n.level < 3 && Parent(n) in D && (n.level == 2 ==> n.region < USER_ENTRIES)
    requires f in avail && KernelHalf(M, D, K)
    ensures D[Parent(n)] in M && |M[D[Parent(n)]]| == ENTRIES
    ensures KernelHalf(AddTable(M, D, n, f), D[n := f], K)
  {
    assert Sound(M, D, Parent(n)) && NotFree(M, avail, f) && Apart(D, Parent(n), ROOT);
  }

  lemma KernelLeaf(M: Tables, D: Dir, avail: set<Frame>, v: nat, e: Entry, K: seq<Entry>)
    requires TreeOk(M, D, avail) && PtOf(v) in D && KernelHalf(M, D, K)
    ensures D[PtOf(v)] in M && |M[D[PtOf(v)]]| == ENTRIES
    ensures KernelHalf(SetLeaf(M, D[PtOf(v)], v % ENTRIES, e), D, K)
  {
    assert Sound(M, D, PtOf(v)) && Apart(D, PtOf(v), ROOT);
  }

  lemma KernelRemove(M: Tables, D: Dir, avail: set<Frame>, n: Node, K: seq<Entry>)
    requires Removable(M, D, avail, n) && KernelHalf(M, D, K)
    ensures KernelHalf(RemoveTable(M, D, n), D - {n}, K)
  {
    assert Sound(M, D, n) && Sound(M, D, Parent(n)) && Apart(D, Parent(n), ROOT) && Apart(D, n, ROOT);
  }

  // ---- what the processor makes of it -----------------------------------------------

  /** The indexes of a walk are the nine-bit parts of the address. */
  lemma IndexesAre(va: nat)
    ensures var v := va / PAGE_SIZE;
      && Index(PdptOf(v)) == va / 0x80_0000_0000 % 512 && Index(PdOf(v)) == va / 0x4000_0000 % 512
      && Index(PtOf(v)) == va / 0x20_0000 % 512 && v % ENTRIES == va / 0x1000 % 512
  {
  }

  /** A processor walk, by those indexes, for page `v`: the four entries it reads, if each is
      present. */
  ghost predicate Walked(M: Tables, root: Frame, v: nat, e4: Entry, e3: Entry, e2: Entry, e1: Entry) {
    && At(M, root, Index(PdptOf(v)), e4) && At(M, e4.frame, Index(PdOf(v)), e3)
    && At(M, e3.frame, Index(PtOf(v)), e2) && At(M, e2.frame, v % ENTRIES, e1)
  }

  ghost predicate At(M: Tables, f: Frame, i: nat, e: Entry) { f in M && i < |M[f]| && M[f][i] == e && e.present }

  /** What the walk allows: writing and user access only if all four entries do, execution only
      if none forbids it. */
  predicate MayWrite(e4: Entry, e3: Entry, e2: Entry, e1: Entry) { e4.prot.write && e3.prot.write && e2.prot.write && e1.prot.write }

  predicate MayUser(e4: Entry, e3: Entry, e2: Entry, e1: Entry) { e4.prot.user && e3.prot.user && e2.prot.user && e1.prot.user }

  predicate MayExec(e4: Entry, e3: Entry, e2: Entry, e1: Entry) {
    !e4.prot.noExec && !e3.prot.noExec && !e2.prot.noExec && !e1.prot.noExec
  }

  /** A walk succeeds exactly if the view maps the page, and ends at the view's entry, whose
      permissions are those of the walk. */
  lemma WalkIsView(M: Tables, D: Dir, avail: set<Frame>, v: nat, e4: Entry, e3: Entry, e2: Entry, e1: Entry)
    requires TreeOk(M, D, avail) && v < USER_PAGES && Walked(M, D[ROOT], v, e4, e3, e2, e1)
    ensures Get(M, D, v) == e1
    ensures (MayWrite(e4, e3, e2, e1) <==> e1.prot.write) && (MayUser(e4, e3, e2, e1) <==> e1.prot.user)
    ensures MayExec(e4, e3, e2, e1) <==> !e1.prot.noExec
  {
    Ancestors(v);
    WalkStep(M, D, avail, PdptOf(v));
    WalkStep(M, D, avail, PdOf(v));
    WalkStep(M, D, avail, PtOf(v));
    assert Sound(M, D, PtOf(v));
  }

  lemma ViewIsWalk(M: Tables, D: Dir, avail: set<Frame>, v: nat) returns (e4: Entry, e3: Entry, e2: Entry, e1: Entry)
    requires TreeOk(M, D, avail) && v < USER_PAGES && Get(M, D, v).present
    ensures Walked(M, D[ROOT], v, e4, e3, e2, e1) && e1 == Get(M, D, v)
  {
    Ancestors(v);
    assert Sound(M, D, PtOf(v));
    assert Sound(M, D, PdOf(v));
    assert Sound(M, D, PdptOf(v));
    WalkStep(M, D, avail, PdptOf(v));
    WalkStep(M, D, avail, PdOf(v));
    WalkStep(M, D, avail, PtOf(v));
    e4 := M[D[ROOT]][Index(PdptOf(v))];
    e3 := M[D[PdptOf(v)]][Index(PdOf(v))];
    e2 := M[D[PdOf(v)]][Index(PtOf(v))];
    e1 := M[D[PtOf(v)]][v % ENTRIES];
  }

  // ---- which tables are in use, and how many ---------------------------------------

  predicate Under(n: Node, v: nat) { n == PtOf(v) || n == PdOf(v) || n == PdptOf(v) }

  ghost predicate Mapped(M: Tables, D: Dir, v: nat) { v < USER_PAGES && Get(M, D, v).present }

  /** When no table is wasted, the tables below the root are those over a mapped page. */
  lemma {:induction false} InUse(M: Tables, D: Dir, avail: set<Frame>, n: Node)
    requires TreeOk(M, D, avail) && NoWaste(M, D) && n.level < 3
    ensures n in D <==> exists v :: Mapped(M, D, v) && Under(n, v)
  {
    if v :| Mapped(M, D, v) && Under(n, v) {
      Ancestors(v);
      assert Sound(M, D, PtOf(v));
      assert Sound(M, D, PdOf(v));
    }
    if n in D {
      var _ := BelowMapped(M, D, avail, n);
    }
  }

  /** A mapped page below a table. */
  ghost function BelowMapped(M: Tables, D: Dir, avail: set<Frame>, n: Node): (v: nat)
    requires TreeOk(M, D, avail) && NoWaste(M, D) && n.level < 3 && n in D
    ensures Mapped(M, D, v) && Under(n, v)
    decreases n.level
  {
    assert Sound(M, D, n) && Used(M, D, n);
    RegionBound(M, D, avail, n);
    var i :| 0 <= i < ENTRIES && M[D[n]][i].present;
    if n.level == 0 then
      ENTRIES * n.region + i
    else
      assert Link(M, D, n, i);
      BelowMapped(M, D, avail, Child(n, i))
  }

  function Width(level: nat): nat { if level == 0 then 1 else ENTRIES * Width(level - 1) }

  lemma RegionBound(M: Tables, D: Dir, avail: set<Frame>, n: Node)
    requires TreeOk(M, D, avail) && n in D && n.level < 3
    ensures n.region < USER_ENTRIES * Width(2 - n.level)
    decreases 3 - n.level
  {
    assert Sound(M, D, n);
    if n.level < 2 { RegionBound(M, D, avail, Parent(n)); }
  }

  ghost function MappedPages(M: Tables, D: Dir): set<nat> {
    set v: nat | v < USER_PAGES && Mapped(M, D, v)
  }

  /** The distinct regions of `width` pages that hold a page of `P`. */
  ghost function Regions(P: set<nat>, width: nat): set<nat>
    requires width > 0
  {
    set v | v in P :: v / width
  }

  /** Without waste there is one table for the root and one for each 512 GiB, 1 GiB and
      2 MiB region that holds a mapped page. */
  lemma TableCount(M: Tables, D: Dir, avail: set<Frame>)
    requires TreeOk(M, D, avail) && NoWaste(M, D)
    ensures var P := MappedPages(M, D);
      |M| == 1 + |Regions(P, 0x800_0000)| + |Regions(P, 0x4_0000)| + |Regions(P, 0x200)|
  {
    var P := MappedPages(M, D);
    var a, b, c := Nodes(2, Regions(P, 0x800_0000)), Nodes(1, Regions(P, 0x4_0000)), Nodes(0, Regions(P, 0x200));
    forall n ensures n in D.Keys <==> n in {ROOT} + a + b + c {
      if n in D { assert Sound(M, D, n); }
      if n.level < 3 {
        InUse(M, D, avail, n);
        NodesOver(P, n);
        forall v ensures Mapped(M, D, v) <==> v in P {}
      }
    }
    assert D.Keys == {ROOT} + a + b + c;
    NodesCount(2, Regions(P, 0x800_0000));
    NodesCount(1, Regions(P, 0x4_0000));
    NodesCount(0, Regions(P, 0x200));
    assert |{ROOT} + a + b + c| == 1 + |a| + |b| + |c|;
    OneFrameEach(D, M.Keys);
  }

  ghost function Nodes(level: nat, R: set<nat>): set<Node> { set r | r in R :: Node(level, r) }

  lemma NodesOver(P: set<nat>, n: Node)
    requires n.level < 3
    ensures (exists v :: v in P && Under(n, v)) <==>
      n in Nodes(2, Regions(P, 0x800_0000)) + Nodes(1, Regions(P, 0x4_0000)) + Nodes(0, Regions(P, 0x200))
  {
    forall v | v in P ensures PdptOf(v).region == v / 0x800_0000 && PdOf(v).region == v / 0x4_0000 {}
    if v :| v in P && Under(n, v) {
      assert v / 0x800_0000 in Regions(P, 0x800_0000) && v / 0x4_0000 in Regions(P, 0x4_0000) && v / 0x200 in Regions(P, 0x200);
    }
    if n in Nodes(2, Regions(P, 0x800_0000)) {
      var v :| v in P && v / 0x800_0000 == n.region;
      assert Under(n, v);
    } else if n in Nodes(1, Regions(P, 0x4_0000)) {
      var v :| v in P && v / 0x4_0000 == n.region;
      assert Under(n, v);
    } else if n in Nodes(0, Regions(P, 0x200)) {
      var v :| v in P && v / 0x200 == n.region;
      assert Under(n, v);
    }
  }

  lemma {:induction false} NodesCount(level: nat, R: set<nat>)
    ensures |Nodes(level, R)| == |R|
  {
    if r :| r in R {
      NodesCount(level, R - {r});
      assert Nodes(level, R) == Nodes(level, R - {r}) + {Node(level, r)};
    } else {
      assert Nodes(level, R) == {};
    }
  }

  lemma {:induction false} OneFrameEach(D: Dir, F: set<Frame>)
    requires forall n, m {:trigger Apart(D, n, m)} :: n in D && m in D ==> Apart(D, n, m)
    requires forall f {:trigger Owned(D, f)} :: f in F <==> Owned(D, f)
    ensures |D| == |F|
    decreases |D|
  {
    if n :| n in D {
      var D', F' := D - {n}, F - {D[n]};
      assert Owned(D, D[n]);
      forall k, m | k in D' && m in D' ensures Apart(D', k, m) { assert Apart(D, k, m); }
      forall f ensures f in F' <==> Owned(D', f) {
        assert f in F <==> Owned(D, f);
        if f in F' {
          var k :| k in D && D[k] == f;
          assert k in D' && D'[k] == f;
        }
        if k :| k in D' && D'[k] == f { assert Apart(D, k, n) && Owned(D, f); }
      }
      assert |D'| == |D| - 1 by { assert D'.Keys == D.Keys - {n}; }
      OneFrameEach(D', F');
    } else {
      forall f ensures f !in F { assert f in F <==> Owned(D, f); }
      assert F == {};
    }
  }

  lemma Disjoint(M: Tables, D: Dir, avail: set<Frame>)
    requires TreeOk(M, D, avail)
    ensures M.Keys !! avail
  {
    forall f | f in M ensures f !in avail { assert NotFree(M, avail, f); }
  }

  /** Two trees without waste and with the same flat view use equally many tables. */
  lemma SameCount(M: Tables, D: Dir, avail: set<Frame>, M': Tables, D': Dir, avail': set<Frame>)
    requires TreeOk(M, D, avail) && NoWaste(M, D) && TreeOk(M', D', avail') && NoWaste(M', D')
    requires forall v: nat :: Get(M', D', v) == Get(M, D, v)
    ensures |M'| == |M|
    ensures M.Keys + avail == M'.Keys + avail' ==> |avail'| == |avail|
  {
    TableCount(M, D, avail);
    TableCount(M', D', avail');
    assert MappedPages(M, D) == MappedPages(M', D');
    Disjoint(M, D, avail);
    Disjoint(M', D', avail');
    if M.Keys + avail == M'.Keys + avail' {
      assert |M.Keys + avail| == |M| + |avail| && |M'.Keys + avail'| == |M'| + |avail'|;
    }
  }
}
