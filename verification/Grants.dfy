/**
  The frame grants of `kernel/task/grant.c` and the system calls of `kernel/task/syscall.c`
  that use them.  An address space (pmap) has a list of grants, one frame each; `g_refs`
  counts the address spaces that hold a frame, in 16 bits.
 */
module Grants {
  import opened PageTree
  import opened Pmap

  datatype Right = Read | Write | Regrant

  type Rights = set<Right>
  type Pfn = nat
  type Space = nat // identity of a pmap

  datatype Grant = Grant(pfn: Pfn, rights: Rights)

  const REF_WRAP: nat := 0x1_0000

  // ---- one list ----------------------------------------------------------------------

  /** The position of the first grant of `p`, or the length of the list. */
  function Position(l: seq<Grant>, p: Pfn): (i: nat)
    ensures i <= |l| && (i < |l| ==> l[i].pfn == p) && forall k :: 0 <= k < i ==> l[k].pfn != p
  {
    if l == [] || l[0].pfn == p then 0 else 1 + Position(l[1..], p)
  }

  predicate Has(l: seq<Grant>, p: Pfn) { Position(l, p) < |l| }

  function RightsIn(l: seq<Grant>, p: Pfn): Rights { if Has(l, p) then l[Position(l, p)].rights else {} }

  ghost predicate OneEach(l: seq<Grant>) { forall i, j :: 0 <= i < j < |l| ==> l[i].pfn != l[j].pfn }

  lemma {:induction false} PositionAt(l: seq<Grant>, i: nat)
    requires i < |l| && forall k :: 0 <= k < i ==> l[k].pfn != l[i].pfn
    ensures Position(l, l[i].pfn) == i
  {
    if i > 0 { PositionAt(l[1..], i - 1); }
  }

  lemma PositionNone(l: seq<Grant>, p: Pfn)
    requires forall k :: 0 <= k < |l| ==> l[k].pfn != p
    ensures Position(l, p) == |l|
  {
  }

  /** The list after grant_add. */
  function Added(l: seq<Grant>, p: Pfn, r: Rights): seq<Grant> {
    var i := Position(l, p);
    if i < |l| then l[i := Grant(p, l[i].rights + r)] else l + [Grant(p, r)]
  }

  lemma AddedOk(l: seq<Grant>, p: Pfn, r: Rights, q: Pfn)
    requires OneEach(l)
    ensures OneEach(Added(l, p, r))
    ensures Has(Added(l, p, r), q) <==> Has(l, q) || q == p
    ensures RightsIn(Added(l, p, r), q) == if q == p then RightsIn(l, p) + r else RightsIn(l, q)
  {
    var l', k := Added(l, p, r), Position(l, q);
    if k < |l| {
      PositionAt(l', k);
    } else if q == p {
      PositionAt(l', |l|);
    } else {
      PositionNone(l', q);
    }
  }

  /** The list after grant_drop. */
  function Dropped(l: seq<Grant>, p: Pfn): seq<Grant> {
    var i := Position(l, p);
    if i < |l| then l[..i] + l[i + 1..] else l
  }

  lemma DroppedOne(l: seq<Grant>, p: Pfn)
    requires OneEach(l)
    ensures OneEach(Dropped(l, p))
  {
    var i, l' := Position(l, p), Dropped(l, p);
    assert i < |l| ==> forall j :: 0 <= j < |l'| ==> l'[j] == l[if j < i then j else j + 1];
  }

  lemma DroppedOk(l: seq<Grant>, p: Pfn, q: Pfn)
    requires OneEach(l)
    ensures Has(Dropped(l, p), q) <==> Has(l, q) && q != p
    ensures q != p ==> RightsIn(Dropped(l, p), q) == RightsIn(l, q)
  {
    var l', i, k := Dropped(l, p), Position(l, p), Position(l, q);
    if i < |l| {
      assert forall j :: 0 <= j < |l'| ==> l'[j] == l[if j < i then j else j + 1];
      if q == p || k == |l| {
        PositionNone(l', q);
      } else {
        var j := if k < i then k else k - 1;
        assert l'[j] == l[k];
        PositionAt(l', j);
      }
    }
  }

  // ---- all address spaces --------------------------------------------------------------

  type Lists = map<Space, seq<Grant>>

  ghost function Holders(L: Lists, p: Pfn): set<Space> { set m | m in L && Has(L[m], p) }

  /** What the holders of a frame may do with it, taken together. */
  ghost function Union(L: Lists, p: Pfn): Rights { set m, r | m in L && r in RightsIn(L[m], p) :: r }

  ghost predicate RefOk(L: Lists, refs: seq<nat>, p: Pfn)
    requires p < |refs|
  {
    refs[p] == |Holders(L, p)|
  }

  ghost predicate ListOk(l: seq<Grant>, frames: nat) {
    OneEach(l) && forall i :: 0 <= i < |l| ==> l[i].pfn < frames
  }

  /** One entry per frame and address space, and g_refs counts the holders. */
  ghost predicate Ok(L: Lists, refs: seq<nat>) {
    && |L| < REF_WRAP
    && (forall m {:trigger ListOk(L[m], |refs|)} :: m in L ==> ListOk(L[m], |refs|))
    && (forall p {:trigger RefOk(L, refs, p)} :: 0 <= p < |refs| ==> RefOk(L, refs, p))
  }

  lemma {:induction false} SubsetSize<T>(a: set<T>, b: set<T>)
    requires a <= b
    ensures |a| <= |b|
  {
    if x :| x in a {
      SubsetSize(a - {x}, b - {x});
    }
  }

  lemma HoldersBound(L: Lists, p: Pfn)
    ensures |Holders(L, p)| <= |L|
  {
    SubsetSize(Holders(L, p), L.Keys);
  }

  /** The holders of a frame after one list was replaced. */
  lemma HoldersSet(L: Lists, m: Space, l: seq<Grant>, p: Pfn)
    requires m in L
    ensures Holders(L[m := l], p) == if Has(l, p) then Holders(L, p) + {m} else Holders(L, p) - {m}
    ensures m in Holders(L, p) <==> Has(L[m], p)
    ensures |Holders(L[m := l], p)| == |Holders(L, p)| + (if Has(l, p) then 1 else 0) - (if Has(L[m], p) then 1 else 0)
  {
    var L' := L[m := l];
    forall n ensures n in Holders(L', p) <==> n in (if Has(l, p) then Holders(L, p) + {m} else Holders(L, p) - {m}) {}
  }

  /** g_refs after grant_add, which made a new entry or not. */
  function RefUp(refs: seq<nat>, p: Pfn, entry: bool): seq<nat>
    requires p < |refs|
  {
    if entry then refs[p := (refs[p] + 1) % REF_WRAP] else refs
  }

  lemma AddRef(L: Lists, refs: seq<nat>, m: Space, p: Pfn, r: Rights, q: Pfn)
    requires m in L && OneEach(L[m]) && p < |refs| && q < |refs| && RefOk(L, refs, q) && |L| < REF_WRAP
    ensures RefOk(L[m := Added(L[m], p, r)], RefUp(refs, p, !Has(L[m], p)), q)
  {
    var L' := L[m := Added(L[m], p, r)];
    HoldersSet(L, m, Added(L[m], p, r), q);
    AddedOk(L[m], p, r, q);
    HoldersBound(L', q);
    assert |L'| == |L| by { assert L'.Keys == L.Keys; }
    if q == p && !Has(L[m], p) { SmallRef(refs[p] + 1); }
  }

  lemma SmallRef(x: nat)
    requires x < REF_WRAP
    ensures x % REF_WRAP == x
  {
  }

  lemma AddKeeps(L: Lists, refs: seq<nat>, m: Space, p: Pfn, r: Rights)
    requires Ok(L, refs) && m in L && p < |refs|
    ensures Ok(L[m := Added(L[m], p, r)], RefUp(refs, p, !Has(L[m], p)))
    ensures Union(L[m := Added(L[m], p, r)], p) == Union(L, p) + r
  {
    var L', refs' := L[m := Added(L[m], p, r)], RefUp(refs, p, !Has(L[m], p));
    assert ListOk(L[m], |refs|);
    AddedOk(L[m], p, r, p);
    assert L'.Keys == L.Keys;
    forall n | n in L' ensures ListOk(L'[n], |refs'|) { assert ListOk(L[n], |refs|); }
    forall q | 0 <= q < |refs'| ensures RefOk(L', refs', q) {
      assert RefOk(L, refs, q);
      AddRef(L, refs, m, p, r, q);
    }
    UnionAdd(L, m, p, r);
  }

  lemma UnionAdd(L: Lists, m: Space, p: Pfn, r: Rights)
    requires m in L && OneEach(L[m])
    ensures Union(L[m := Added(L[m], p, r)], p) == Union(L, p) + r
  {
    var L' := L[m := Added(L[m], p, r)];
    AddedOk(L[m], p, r, p);
    forall x ensures x in Union(L', p) <==> x in Union(L, p) + r {
      if x in Union(L', p) {
        var n :| n in L' && x in RightsIn(L'[n], p);
        if n != m { assert x in RightsIn(L[n], p); }
      }
      if x in Union(L, p) {
        var n :| n in L && x in RightsIn(L[n], p);
        assert n in L' && x in RightsIn(L'[n], p);
      }
      if x in r { assert m in L' && x in RightsIn(L'[m], p); }
    }
  }

  /** g_refs after grant_drop of an entry. */
  function RefDown(refs: seq<nat>, p: Pfn): seq<nat>
    requires p < |refs|
  {
    if refs[p] != 0 then refs[p := refs[p] - 1] else refs
  }

  lemma DropKeeps(L: Lists, refs: seq<nat>, m: Space, p: Pfn)
    requires Ok(L, refs) && m in L && p < |refs| && Has(L[m], p)
    ensures Ok(L[m := Dropped(L[m], p)], RefDown(refs, p))
    ensures Union(L[m := Dropped(L[m], p)], p) <= Union(L, p)
  {
    var L', refs' := L[m := Dropped(L[m], p)], RefDown(refs, p);
    assert ListOk(L[m], |refs|);
    DroppedOne(L[m], p);
    assert L'.Keys == L.Keys;
    forall n | n in L' ensures ListOk(L'[n], |refs'|) { assert ListOk(L[n], |refs|); }
    forall q | 0 <= q < |refs'| ensures RefOk(L', refs', q) {
      assert RefOk(L, refs, q);
      DropRef(L, refs, m, p, q);
    }
    UnionDrop(L, m, p);
  }

  lemma DropRef(L: Lists, refs: seq<nat>, m: Space, p: Pfn, q: Pfn)
    requires m in L && OneEach(L[m]) && Has(L[m], p) && p < |refs| && q < |refs| && RefOk(L, refs, q)
    ensures RefOk(L[m := Dropped(L[m], p)], RefDown(refs, p), q)
  {
    HoldersSet(L, m, Dropped(L[m], p), q);
    DroppedOk(L[m], p, q);
  }

  lemma UnionDrop(L: Lists, m: Space, p: Pfn)
    requires m in L && OneEach(L[m])
    ensures Union(L[m := Dropped(L[m], p)], p) <= Union(L, p)
  {
    var L' := L[m := Dropped(L[m], p)];
    DroppedOk(L[m], p, p);
    forall x | x in Union(L', p) ensures x in Union(L, p) {
      var n :| n in L' && x in RightsIn(L'[n], p);
      assert n in L && x in RightsIn(L[n], p);
    }
  }

  /** No holder, no rights. */
  lemma NoHolder(L: Lists, refs: seq<nat>, p: Pfn, m: Space)
    requires Ok(L, refs) && p < |refs| && refs[p] == 0 && m in L
    ensures !Has(L[m], p) && Union(L, p) == {}
  {
    assert RefOk(L, refs, p);
    assert Holders(L, p) == {};
    forall n | n in L ensures !Has(L[n], p) { assert n !in Holders(L, p); }
  }

  // ---- the operations ------------------------------------------------------------------

  /** Addresses and sizes are 64-bit words. */
  const WORD: nat := 0x1_0000_0000_0000_0000

  /** The pages a size takes, rounded up. */
  function PagesOf(size: nat): nat { (size + PAGE_SIZE - 1) / PAGE_SIZE }

  /** How many frames SYS_MAP checks, from that of `phys` on: its loop runs up to phys + size,
      a sum that wraps around, and then none is checked. */
  function Checked(phys: nat, size: nat): nat { if phys + size < WORD then PagesOf(size) else 0 }

  predicate Aligned(virt: nat, size: nat) {
    virt % PAGE_SIZE == 0 || (size % PAGE_SIZE != 0 && virt % PAGE_SIZE + size % PAGE_SIZE <= PAGE_SIZE)
  }

  predicate Covered(virt: nat, phys: nat, size: nat) { Aligned(virt, size) && phys + size < WORD }

  /** pmap_map installs no more pages than the size takes exactly when the request does not
      straddle one page more; page-aligned requests never do. */
  lemma AlignedExact(virt: nat, size: nat)
    requires size > 0
    ensures EndPage(virt, size) - FirstPage(virt) <= PagesOf(size) <==> Aligned(virt, size)
    ensures FirstPage(virt) < EndPage(virt, size)
  {
    var v, s := virt % PAGE_SIZE, size % PAGE_SIZE;
    assert virt + size + PAGE_SIZE - 1 == PAGE_SIZE * (virt / PAGE_SIZE + size / PAGE_SIZE) + (v + s + PAGE_SIZE - 1);
    assert EndPage(virt, size) == virt / PAGE_SIZE + size / PAGE_SIZE + (v + s + PAGE_SIZE - 1) / PAGE_SIZE;
    assert PagesOf(size) == size / PAGE_SIZE + (s + PAGE_SIZE - 1) / PAGE_SIZE;
  }

  /** It installs no more frames than SYS_MAP checks exactly when, besides, the sum does not
      wrap around. */
  lemma CoveredExact(virt: nat, phys: nat, size: nat)
    requires size > 0
    ensures EndPage(virt, size) - FirstPage(virt) <= Checked(phys, size) <==> Covered(virt, phys, size)
  {
    AlignedExact(virt, size);
  }

  /** The i-th frame from `phys` on is among those checked. */
  ghost predicate WasChecked(phys: nat, size: nat, i: nat) {
    exists k: nat :: IsChecked(phys, size, k, FrameAt(phys, i))
  }

  predicate IsChecked(phys: nat, size: nat, k: nat, p: Pfn) { k < Checked(phys, size) && FrameAt(phys, k) == p }

  /** Every frame installed was checked exactly under the same condition. */
  lemma InstalledExact(virt: nat, phys: nat, size: nat)
    requires size > 0
    ensures FirstPage(virt) <= EndPage(virt, size)
    ensures (forall i: nat {:trigger WasChecked(phys, size, i)} ::
              i < EndPage(virt, size) - FirstPage(virt) ==> WasChecked(phys, size, i))
       <==> Covered(virt, phys, size)
  {
    AlignedExact(virt, size);
    CoveredExact(virt, phys, size);
    forall i: nat ensures WasChecked(phys, size, i) <==> i < Checked(phys, size) {
      assert i < Checked(phys, size) ==> IsChecked(phys, size, i, FrameAt(phys, i));
    }
    if !Covered(virt, phys, size) {
      assert !WasChecked(phys, size, Checked(phys, size));
    }
  }

  /** One page of size from an address that is not aligned: one frame checked, two mapped. */
  lemma MisalignedRequest()
    ensures Checked(0, PAGE_SIZE) == 1 && EndPage(1, PAGE_SIZE) - FirstPage(1) == 2 && !Covered(1, 0, PAGE_SIZE)
  {
  }

  class Table {
    var lists: Lists
    var refs: seq<nat>
    const root: Space // rootserver's pmap
    const pool: set<Pfn> // the frames it starts with

    ghost predicate Valid()
      reads this
    {
      Ok(lists, refs) && |refs| <= FRAMES
    }

    /** grant_init: nobody holds a frame. */
    constructor (spaces: set<Space>, frames: nat, root0: Space, pool0: set<Pfn>)
      requires |spaces| < REF_WRAP && frames <= FRAMES
      ensures Valid() && lists.Keys == spaces && |refs| == frames && root == root0 && pool == pool0
      ensures forall m :: m in lists ==> lists[m] == []
    {
      lists := map m | m in spaces :: [];
      refs := seq(frames, _ => 0);
      root, pool := root0, pool0;
      new;
      assert lists.Keys == spaces;
      forall p | 0 <= p < |refs| ensures RefOk(lists, refs, p) { assert Holders(lists, p) == {}; }
    }

    /** The caller may use the frame: by an entry, or as the root server while nobody has it. */
    predicate MayUse(m: Space, p: Pfn, r: Rights)
      reads this
    {
      m in lists && p < |refs| && ((m == root && p in pool && refs[p] == 0) || (Has(lists[m], p) && r <= RightsIn(lists[m], p)))
    }

    method Find(m: Space, p: Pfn) returns (i: nat)
      requires m in lists
      ensures i == Position(lists[m], p)
    {
      i := 0;
      while i < |lists[m]| && lists[m][i].pfn != p
        invariant i <= |lists[m]| && forall k :: 0 <= k < i ==> lists[m][k].pfn != p
      {
        i := i + 1;
      }
      if i < |lists[m]| { PositionAt(lists[m], i); } else { PositionNone(lists[m], p); }
    }

    /** grant_holds. */
    method Holds(m: Space, p: Pfn, r: Rights) returns (ok: bool)
      requires m in lists
      ensures ok <==> MayUse(m, p, r)
    {
      if p >= |refs| { return false; }
      if m == root && p in pool && refs[p] == 0 { return true; }
      var i := Find(m, p);
      return i < |lists[m]| && r <= lists[m][i].rights;
    }

    /** grant_add; `memory` says whether an entry could be allocated. */
    method Add(m: Space, p: Pfn, r: Rights, memory: bool) returns (ok: bool)
      requires Valid() && m in lists
      modifies this
      ensures Valid() && (ok <==> p < |old(refs)| && memory)
      ensures !ok ==> lists == old(lists) && refs == old(refs)
      ensures ok ==> lists == old(lists)[m := Added(old(lists)[m], p, r)] && refs == RefUp(old(refs), p, !Has(old(lists)[m], p))
      ensures ok ==> Union(lists, p) == Union(old(lists), p) + r
    {
      if p >= |refs| || !memory { return false; }
      AddKeeps(lists, refs, m, p, r);
      var i := Find(m, p);
      if i < |lists[m]| {
        lists := lists[m := lists[m][i := Grant(p, lists[m][i].rights + r)]];
      } else {
        lists := lists[m := lists[m] + [Grant(p, r)]];
        refs := refs[p := (refs[p] + 1) % REF_WRAP];
      }
      return true;
    }

    /** grant_drop. */
    method Drop(m: Space, p: Pfn) returns (ok: bool)
      requires Valid() && m in lists
      modifies this
      ensures Valid() && (ok <==> p < |old(refs)| && Has(old(lists)[m], p))
      ensures !ok ==> lists == old(lists) && refs == old(refs)
      ensures ok ==> lists == old(lists)[m := Dropped(old(lists)[m], p)] && refs == RefDown(old(refs), p)
      ensures ok ==> Union(lists, p) <= Union(old(lists), p)
    {
      if p >= |refs| { return false; }
      var i := Find(m, p);
      if i == |lists[m]| { return false; }
      DropKeeps(lists, refs, m, p);
      lists := lists[m := lists[m][..i] + lists[m][i + 1..]];
      if refs[p] != 0 { refs := refs[p := refs[p] - 1]; }
      return true;
    }

    /** SYS_GRANT: passes on rights the caller has.  While a frame has holders the rights on it
        do not grow; the root server alone brings a frame without holders into circulation. */
    method SysGrant(cur: Space, target: Space, p: Pfn, r: Rights, memory: bool) returns (ok: bool)
      requires Valid() && cur in lists && target in lists
      modifies this
      ensures Valid()
      ensures ok <==> r != {} && old(MayUse(cur, p, r)) && memory
      ensures !ok ==> lists == old(lists) && refs == old(refs)
      ensures ok ==> lists == old(lists)[target := Added(old(lists)[target], p, r)]
      ensures ok && old(refs)[p] > 0 ==> Union(lists, p) == Union(old(lists), p)
      ensures ok && old(refs)[p] == 0 ==> cur == root && p in pool && Union(lists, p) == r
    {
      if r == {} { return false; }
      var held := Holds(cur, p, r);
      if !held { return false; }
      ghost var L := lists;
      if refs[p] == 0 { NoHolder(lists, refs, p, cur); }
      ok := Add(target, p, r, memory);
      if ok && old(refs)[p] > 0 {
        forall x | x in r ensures x in Union(L, p) { assert x in RightsIn(L[cur], p); }
        assert Union(L, p) + r == Union(L, p);
      }
    }

    /** All the frames that SYS_MAP checks are ones the caller may use with these rights. */
    ghost predicate Passes(m: Space, phys: nat, size: nat, r: Rights)
      reads this
    {
      forall k: nat {:trigger FrameAt(phys, k)} :: k < Checked(phys, size) ==> MayUse(m, FrameAt(phys, k), r)
    }

    /** The check loop of SYS_MAP, on addresses. */
    method CheckFrames(cur: Space, phys: nat, size: nat, r: Rights) returns (ok: bool)
      requires Valid() && cur in lists && phys < WORD && 0 < size < WORD
      ensures ok <==> Passes(cur, phys, size, r)
    {
      var pa, end := phys, (phys + size) % WORD;
      ghost var k := 0;
      CheckBound(phys, size);
      while pa < end
        invariant pa == phys + PAGE_SIZE * k && 0 <= k
        invariant phys + size < WORD ==> (pa < end <==> k < Checked(phys, size))
        invariant phys + size >= WORD ==> k == 0
        invariant forall j: nat {:trigger FrameAt(phys, j)} :: j < k ==> MayUse(cur, FrameAt(phys, j), r)
        decreases end - pa
      {
        assert pa / PAGE_SIZE == FrameAt(phys, k);
        var held := Holds(cur, pa / PAGE_SIZE, r);
        if !held { return false; }
        FrameBelow(pa);
        pa := (pa + PAGE_SIZE) % WORD;
        k := k + 1;
        CheckNext(phys, size, k);
      }
      return true;
    }

    /** The caller may read each frame that SYS_MAP checks, if that is asked, and write it, if
        that is. */
    ghost predicate Allowed(m: Space, phys: nat, size: nat, read: bool, write: bool)
      reads this
    {
      forall k: nat {:trigger FrameAt(phys, k)} :: k < Checked(phys, size) ==>
        (read ==> MayUse(m, FrameAt(phys, k), {Read})) && (write ==> MayUse(m, FrameAt(phys, k), {Write}))
    }

    lemma MayBoth(m: Space, p: Pfn, read: bool, flags: Flags)
      requires read || flags.write
      ensures MayUse(m, p, Needed(read, flags)) <==> (read ==> MayUse(m, p, {Read})) && (flags.write ==> MayUse(m, p, {Write}))
    {
    }

    lemma PassesIs(m: Space, phys: nat, size: nat, read: bool, flags: Flags)
      requires read || flags.write
      ensures Passes(m, phys, size, Needed(read, flags)) <==> Allowed(m, phys, size, read, flags.write)
    {
      forall k: nat
        ensures MayUse(m, FrameAt(phys, k), Needed(read, flags)) <==>
                (read ==> MayUse(m, FrameAt(phys, k), {Read})) && (flags.write ==> MayUse(m, FrameAt(phys, k), {Write}))
      {
        MayBoth(m, FrameAt(phys, k), read, flags);
      }
    }

    /** SYS_MAP for a caller that is the target's pager, without PROT_HUGE.  It is refused as
        soon as one checked frame lacks one of the rights asked.  When the request is covered
        every page it installs, also when it fails half-way, is one the caller may read, if
        reading is asked, and write, if writing is. */
    method SysMap(cur: Space, target: Pmap, virt: nat, phys: nat, size: nat, read: bool, flags: Flags)
      returns (ok: bool, ghost m: nat)
      requires Valid() && cur in lists && target.Valid() && virt + size <= USER_BYTES && flags.user
      requires phys < WORD && size < WORD
      modifies target
      ensures target.Valid()
      ensures var checked := size > 0 && (read || flags.write) && Allowed(cur, phys, size, read, flags.write);
        && (!checked ==> !ok && m == FirstPage(virt) && target.tables == old(target.tables) && target.dir == old(target.dir) && target.avail == old(target.avail))
        && (checked ==> MapEnds(old(target.dir), |old(target.avail)|, FirstPage(virt), EndPage(virt, size), m, ok))
      ensures ViewIs(old(target.tables), old(target.dir), target.tables, target.dir, FirstPage(virt), m, phys / PAGE_SIZE, flags)
      ensures RangeMaps(target.tables, target.dir, FirstPage(virt), m, phys / PAGE_SIZE, flags)
      ensures Covered(virt, phys, size) ==> forall v: nat {:trigger FrameAt(phys, v - FirstPage(virt))} ::
        FirstPage(virt) <= v < m ==>
          && (read ==> MayUse(cur, FrameAt(phys, v - FirstPage(virt)), {Read}))
          && (flags.write ==> MayUse(cur, FrameAt(phys, v - FirstPage(virt)), {Write}))
    {
      m := FirstPage(virt);
      if size == 0 { return false, m; }
      if !read && !flags.write { return false, m; }
      var r := Needed(read, flags);
      PassesIs(cur, phys, size, read, flags);
      var held := CheckFrames(cur, phys, size, r);
      if !held { return false, m; }
      CoveredExact(virt, phys, size);
      ok, m := target.Map(virt, phys, size, flags);
    }
  }

  /** A request that wraps around: two pages from the last frame of the address space on.  The
      caller holds nothing, no frame is checked, and frame 0 becomes readable to the target. */
  method WrappedRequest(kernelHalf: seq<Entry>, flags: Flags) returns (t: Table, space: Pmap, ok: bool)
    requires |kernelHalf| == ENTRIES - USER_ENTRIES && flags.user
    ensures ok && space.Valid() && t.Valid()
    ensures var phys, size := 0xFFFF_FFFF_FFFF_F000, 0x2000;
      phys + size >= WORD && Checked(phys, size) == 0 && Aligned(0x40_0000, size)
    ensures space.View(0x401).present && space.View(0x401).frame == 0 && !t.MayUse(7, 0, {Read})
  {
    t := new Table({7}, 16, 9, {});
    space := SmallSpace(kernelHalf);
    TwoPagesLack(space.dir);
    ghost var m;
    ok, m := t.SysMap(7, space, 0x40_0000, 0xFFFF_FFFF_FFFF_F000, 0x2000, true, flags);
    assert FirstPage(0x40_0000) == 0x400 && EndPage(0x40_0000, 0x2000) == 0x402;
    assert space.View(0x401) == LeafEntry(0xF_FFFF_FFFF_FFFF + 1, flags);
  }

  /** A caller that may only read frame 5 asks for it writable and is refused; asked readable it
      is mapped, and not writable. */
  method ReadOnlyHolder(kernelHalf: seq<Entry>, flags: Flags) returns (space: Pmap, written: bool, shown: bool)
    requires |kernelHalf| == ENTRIES - USER_ENTRIES && flags.user && !flags.write
    ensures !written && shown && Maps(space.View(0x400), 5, flags)
  {
    var t := Reader();
    space := SmallSpace(kernelHalf);
    written := AskFive(t, space, flags.(write := true));
    shown := AskFive(t, space, flags);
  }

  /** A table in which space 7 may read frame 5 and nothing else. */
  method Reader() returns (t: Table)
    ensures fresh(t) && t.Valid() && 7 in t.lists && t.MayUse(7, 5, {Read}) && !t.MayUse(7, 5, {Write})
  {
    t := new Table({7}, 16, 9, {});
    var held := t.Add(7, 5, {Read}, true);
    AddedOk([], 5, {Read}, 5);
  }

  /** An address space that maps nothing, with three frames to spare. */
  method SmallSpace(kernelHalf: seq<Entry>) returns (space: Pmap)
    requires |kernelHalf| == ENTRIES - USER_ENTRIES
    ensures fresh(space) && space.Valid() && space.dir.Keys == {ROOT} && |space.avail| == 3
  {
    space := new Pmap({1, 2, 3, 4}, 1, kernelHalf);
    assert space.avail == {2, 3, 4};
  }

  /** SYS_MAP of one page at frame 5 for a caller that may read it. */
  method AskFive(t: Table, space: Pmap, flags: Flags) returns (ok: bool)
    requires t.Valid() && 7 in t.lists && space.Valid() && space.dir.Keys == {ROOT} && |space.avail| == 3 && flags.user
    requires t.MayUse(7, 5, {Read}) && !t.MayUse(7, 5, {Write})
    modifies space
    ensures ok <==> !flags.write
    ensures ok ==> Maps(space.View(0x400), 5, flags)
    ensures !ok ==> space.Valid() && space.dir == old(space.dir) && space.avail == old(space.avail)
  {
    assert FrameAt(0x5000, 0) == 5 && Checked(0x5000, 0x1000) == 1;
    OnePageLacks(space.dir);
    ghost var m;
    ok, m := t.SysMap(7, space, 0x40_0000, 0x5000, 0x1000, true, flags);
  }

  lemma OnePageLacks(D: Dir)
    requires D.Keys == {ROOT}
    ensures Lacking(D, 0x400, 0x401) == 3
  {
    TwoPagesLack(D);
  }

  lemma TwoPagesLack(D: Dir)
    requires D.Keys == {ROOT}
    ensures Lacking(D, 0x400, 0x401) == 3 && Lacking(D, 0x400, 0x402) == 3
  {
    assert NewAt(D, 0x400, 0x400) == 3 && NewAt(D, 0x400, 0x401) == 0;
    assert Lacking(D, 0x400, 0x400) == 0 && Lacking(D, 0x400, 0x401) == 3;
  }

  lemma CheckBound(phys: nat, size: nat)
    requires phys < WORD && 0 < size < WORD
    ensures phys + size < WORD ==> (phys + size) % WORD == phys + size && Checked(phys, size) > 0
    ensures phys + size >= WORD ==> (phys + size) % WORD < phys
  {
  }

  lemma CheckNext(phys: nat, size: nat, k: nat)
    ensures phys + size < WORD ==> (phys + PAGE_SIZE * k < phys + size <==> k < Checked(phys, size))
  {
  }

  /** A frame that has been checked lies far below the end of the address space. */
  lemma FrameBelow(pa: nat)
    requires pa / PAGE_SIZE < FRAMES
    ensures (pa + PAGE_SIZE) % WORD == pa + PAGE_SIZE
  {
  }

  /** The k-th frame from `phys` on. */
  function FrameAt(phys: nat, k: nat): Pfn { phys / PAGE_SIZE + k }

  function Needed(read: bool, flags: Flags): Rights {
    (if read then {Read} else {}) + (if flags.write then {Write} else {})
  }
}
