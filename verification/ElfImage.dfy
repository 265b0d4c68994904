/**
  The two ELF loaders, `elf_load` of `kernel/task/init.c` and `load_segment` of
  `user/pager.c`, and the merging of adjacent headers in `user/main.c`, against the image
  that the System V gABI (chapter 5, Program Header) gives a PT_LOAD segment: the file bytes,
  then zeros up to the memory size.
 */
module ElfImage {
  import VmaSet

  type Byte = x: int | 0 <= x < 256

  const PAGE_SIZE: nat := 4096

  /** A program header. */
  datatype Phdr = Phdr(load: bool, flags: nat, offset: nat, vaddr: nat, filesz: nat, memsz: nat)

  /** The pages mapped so far and their bytes. */
  type Space = map<nat, seq<Byte>>

  predicate Sized(page: seq<Byte>) { |page| == PAGE_SIZE }

  ghost predicate SpaceOk(m: Space) { forall v :: v in m ==> Sized(m[v]) }

  predicate Fits(elf: seq<Byte>, ph: Phdr) { ph.offset + ph.filesz <= |elf| }

  const WORD: nat := 0x1_0000_0000_0000_0000

  /** The test of elf_load, whose sum is taken in 64 bits. */
  predicate PassesTest(elf: seq<Byte>, ph: Phdr) { (ph.offset + ph.filesz) % WORD <= |elf| }

  /** It decides whether the segment lies inside the file exactly when the sum does not wrap,
      or wraps to more than the file size. */
  lemma BoundsTest(elf: seq<Byte>, ph: Phdr)
    requires |elf| < WORD && ph.offset < WORD && ph.filesz < WORD
    ensures (PassesTest(elf, ph) <==> Fits(elf, ph)) <==> ph.offset + ph.filesz < WORD || (ph.offset + ph.filesz) % WORD > |elf|
  {
  }

  /** A header that passes for any file. */
  lemma WrappedHeader(elf: seq<Byte>, ph: Phdr)
    requires |elf| < WORD - 1 && ph.offset == WORD - 1 && ph.filesz == 1
    ensures PassesTest(elf, ph) && !Fits(elf, ph)
  {
  }

  predicate InSegment(ph: Phdr, a: nat) { ph.vaddr <= a < ph.vaddr + ph.memsz }

  /** The byte of the segment's image at address `a`. */
  function Image(elf: seq<Byte>, ph: Phdr, a: nat): Byte
    requires Fits(elf, ph) && ph.vaddr <= a
  {
    if a < ph.vaddr + ph.filesz then elf[ph.offset + (a - ph.vaddr)] else 0
  }

  function FirstPage(ph: Phdr): nat { ph.vaddr / PAGE_SIZE }

  function EndPage(ph: Phdr): nat { (ph.vaddr + ph.memsz + PAGE_SIZE - 1) / PAGE_SIZE }

  predicate OnPage(ph: Phdr, v: nat) { FirstPage(ph) <= v < EndPage(ph) }

  /** The pages of a segment are those that its rounded range meets. */
  lemma SegmentPages(ph: Phdr, v: nat)
    ensures OnPage(ph, v) <==> PAGE_SIZE * v < ph.vaddr + ph.memsz && ph.vaddr < PAGE_SIZE * v + PAGE_SIZE
  {
  }

  /** The addresses that the loaders write: the segment, and the file bytes beyond it if the
      file size exceeds the memory size. */
  predicate Written(ph: Phdr, a: nat) { ph.vaddr <= a < ph.vaddr + Max(ph.filesz, ph.memsz) }

  /** The page holds the segment's image wherever it is written, and `rest` elsewhere. */
  ghost predicate PageHolds(elf: seq<Byte>, ph: Phdr, v: nat, page: seq<Byte>, rest: seq<Byte>)
    requires Fits(elf, ph)
  {
    Sized(page) && Sized(rest) && forall i {:trigger page[i]} :: 0 <= i < PAGE_SIZE ==>
      page[i] == if Written(ph, PAGE_SIZE * v + i) then Image(elf, ph, PAGE_SIZE * v + i) else rest[i]
  }

  function Max(a: nat, b: nat): nat { if a > b then a else b }

  function Min(a: nat, b: nat): nat { if a < b then a else b }

  // ---- filling one page ----------------------------------------------------------------

  /** memcpy into the page. */
  method CopyIn(page: array<Byte>, at: nat, elf: seq<Byte>, from: nat, n: nat)
    requires at + n <= page.Length && from + n <= |elf|
    modifies page
    ensures forall i :: 0 <= i < page.Length ==>
      page[i] == if at <= i < at + n then elf[from + (i - at)] else old(page[i])
  {
    for k := 0 to n
      invariant forall i :: 0 <= i < page.Length ==>
        page[i] == if at <= i < at + k then elf[from + (i - at)] else old(page[i])
    {
      page[at + k] := elf[from + k];
    }
  }

  /** memset(…, 0, n) on the page. */
  method ZeroIn(page: array<Byte>, at: nat, n: nat)
    requires at + n <= page.Length
    modifies page
    ensures forall i :: 0 <= i < page.Length ==> page[i] == if at <= i < at + n then 0 else old(page[i])
  {
    for k := 0 to n
      invariant forall i :: 0 <= i < page.Length ==> page[i] == if at <= i < at + k then 0 else old(page[i])
    {
      page[at + k] := 0;
    }
  }

  /** The file part of one page; both loaders compute it alike. */
  method CopyFilePart(page: array<Byte>, elf: seq<Byte>, ph: Phdr, v: nat)
    requires page.Length == PAGE_SIZE && Fits(elf, ph)
    modifies page
    ensures forall i {:trigger page[i]} :: 0 <= i < PAGE_SIZE ==>
      var a := PAGE_SIZE * v + i;
      page[i] == if ph.vaddr <= a < ph.vaddr + ph.filesz then elf[ph.offset + (a - ph.vaddr)] else old(page[i])
  {
    var va := PAGE_SIZE * v;
    var lo, hi := Max(va, ph.vaddr), Min(va + PAGE_SIZE, ph.vaddr + ph.filesz);
    if hi > lo { CopyIn(page, lo - va, elf, ph.offset + (lo - ph.vaddr), hi - lo); }
  }

  /** A page of `elf_load`: the frame comes with arbitrary contents, so the loader writes the
      zeros of the segment itself. */
  method FillKernelPage(page: array<Byte>, elf: seq<Byte>, ph: Phdr, v: nat)
    requires page.Length == PAGE_SIZE && Fits(elf, ph)
    modifies page
    ensures PageHolds(elf, ph, v, page[..], old(page[..]))
  {
    var va := PAGE_SIZE * v;
    CopyFilePart(page, elf, ph, v);
    var lo, hi := Max(va, ph.vaddr + ph.filesz), Min(va + PAGE_SIZE, ph.vaddr + ph.memsz);
    if hi > lo { ZeroIn(page, lo - va, hi - lo); }
  }

  function Zeros(): seq<Byte> { seq(PAGE_SIZE, _ => 0) }

  /** A page of `load_segment`: zeroed whole, then the file part copied. */
  method FillPagerPage(page: array<Byte>, elf: seq<Byte>, ph: Phdr, v: nat)
    requires page.Length == PAGE_SIZE && Fits(elf, ph)
    modifies page
    ensures PageHolds(elf, ph, v, page[..], Zeros())
  {
    ZeroIn(page, 0, PAGE_SIZE);
    CopyFilePart(page, elf, ph, v);
  }

  // ---- a whole segment -------------------------------------------------------------------

  /** Every address of the segment, and any other that is written on its pages, reads as
      the image. */
  ghost predicate Loaded(elf: seq<Byte>, ph: Phdr, m: Space)
    requires Fits(elf, ph) && SpaceOk(m)
  {
    forall a: nat {:trigger Written(ph, a)} :: Written(ph, a) && OnPage(ph, a / PAGE_SIZE) ==>
      a / PAGE_SIZE in m && m[a / PAGE_SIZE][a % PAGE_SIZE] == Image(elf, ph, a)
  }

  /** In particular the segment itself does. */
  lemma SegmentReads(elf: seq<Byte>, ph: Phdr, m: Space, a: nat)
    requires Fits(elf, ph) && SpaceOk(m) && Loaded(elf, ph, m) && InSegment(ph, a)
    ensures a / PAGE_SIZE in m && m[a / PAGE_SIZE][a % PAGE_SIZE] == Image(elf, ph, a)
  {
    assert Written(ph, a);
  }

  /** The pages [first, v) hold the image. */
  ghost predicate PagesHold(elf: seq<Byte>, ph: Phdr, m: Space, v: nat)
    requires Fits(elf, ph)
  {
    forall w {:trigger PageDone(elf, ph, m, w)} :: FirstPage(ph) <= w < v ==> PageDone(elf, ph, m, w)
  }

  ghost predicate PageDone(elf: seq<Byte>, ph: Phdr, m: Space, w: nat)
    requires Fits(elf, ph)
  {
    w in m && exists rest :: PageHolds(elf, ph, w, m[w], rest)
  }

  lemma PagesLoad(elf: seq<Byte>, ph: Phdr, m: Space)
    requires Fits(elf, ph) && SpaceOk(m) && PagesHold(elf, ph, m, EndPage(ph))
    ensures Loaded(elf, ph, m)
  {
    forall a: nat | Written(ph, a) && OnPage(ph, a / PAGE_SIZE)
      ensures a / PAGE_SIZE in m && m[a / PAGE_SIZE][a % PAGE_SIZE] == Image(elf, ph, a)
    {
      var v := a / PAGE_SIZE;
      assert PageDone(elf, ph, m, v);
      var rest :| PageHolds(elf, ph, v, m[v], rest);
      assert a == PAGE_SIZE * v + a % PAGE_SIZE;
    }
  }

  /** One segment.  `kernel` selects the loader of the kernel; `budget` pages can be had before
      an allocation or a mapping fails, each with contents of its own.  Pages of the segment
      are replaced, no other page is. */
  method LoadSegment(elf: seq<Byte>, ph: Phdr, m0: Space, budget: nat, dirt: seq<Byte>, kernel: bool)
    returns (ok: bool, m: Space)
    requires Fits(elf, ph) && SpaceOk(m0) && Sized(dirt)
    ensures SpaceOk(m) && (ok ==> Loaded(elf, ph, m) && PagesHold(elf, ph, m, EndPage(ph)))
    ensures ok <==> EndPage(ph) - FirstPage(ph) <= budget
    ensures ok ==> forall v :: OnPage(ph, v) ==> v in m
    ensures forall v :: !OnPage(ph, v) ==> (v in m <==> v in m0) && (v in m0 ==> m[v] == m0[v])
  {
    m := m0;
    var v, left := FirstPage(ph), budget;
    assert FirstPage(ph) <= EndPage(ph);
    while v < EndPage(ph)
      invariant FirstPage(ph) <= v <= EndPage(ph) && left == budget - (v - FirstPage(ph)) && SpaceOk(m)
      invariant PagesHold(elf, ph, m, v)
      invariant forall w :: !OnPage(ph, w) ==> (w in m <==> w in m0) && (w in m0 ==> m[w] == m0[w])
    {
      if left == 0 { return false, m; }
      left := left - 1;
      var page := new Byte[PAGE_SIZE](i requires 0 <= i < PAGE_SIZE => dirt[i]);
      if kernel {
        ghost var was := page[..];
        FillKernelPage(page, elf, ph, v);
        assert PageHolds(elf, ph, v, page[..], was);
      } else {
        FillPagerPage(page, elf, ph, v);
        assert PageHolds(elf, ph, v, page[..], Zeros());
      }
      ghost var before := m;
      m := m[v := page[..]];
      forall w | FirstPage(ph) <= w < v + 1 ensures PageDone(elf, ph, m, w) {
        assert w < v ==> PageDone(elf, ph, before, w);
      }
      v := v + 1;
    }
    forall w | OnPage(ph, w) ensures w in m { assert PageDone(elf, ph, m, w); }
    PagesLoad(elf, ph, m);
    ok := true;
  }

  /** `load_segment`: the pages, and then the interval they span in the pager's set.  A segment
      of no bytes at a page boundary spans [start, start), which the set does not survive. */
  method LoadPagerSegment(elf: seq<Byte>, ph: Phdr, m0: Space, budget: nat, dirt: seq<Byte>, vmas: VmaSet.Set)
    returns (ok: bool, m: Space, ghost at: nat, ghost v: nat)
    requires Fits(elf, ph) && SpaceOk(m0) && Sized(dirt) && vmas.Valid()
    modifies vmas, vmas.tree
    ensures SpaceOk(m) && (ok ==> Loaded(elf, ph, m))
    ensures var start, end := PAGE_SIZE * FirstPage(ph), PAGE_SIZE * EndPage(ph);
      && (ok <==> EndPage(ph) - FirstPage(ph) <= budget && old(vmas.spare) != []
                  && !old(VmaSet.Clashes(vmas.tree.key, vmas.info, vmas.walk, start, end)))
      && (ok ==> at <= |old(vmas.walk)| && vmas.walk == old(vmas.walk)[..at] + [v] + old(vmas.walk)[at..]
                 && vmas.tree.key == old(vmas.tree.key)[v := start]
                 && vmas.info == old(vmas.info)[v := VmaSet.Vma(end, Prot(ph.flags), Kind(ph.flags))])
      && (ok ==> SameRights(ph.flags, vmas.info[v].prot) && vmas.info[v].kind == (if Flag(ph.flags, 1) then 1 else 2))
      && (!ok ==> vmas.walk == old(vmas.walk))
      && (vmas.Valid() <==> !ok || start < end)
  {
    var start, end := PAGE_SIZE * FirstPage(ph), PAGE_SIZE * EndPage(ph);
    assert FirstPage(ph) <= EndPage(ph);
    ok, m := LoadSegment(elf, ph, m0, budget, dirt, false);
    at, v := 0, 0;
    if !ok { return; }
    var r;
    r, at, v := vmas.Insert(start, end, Prot(ph.flags), Kind(ph.flags));
    ok := r == 0;
    ProtRights(ph.flags);
  }

  /** PROT_READ, PROT_WRITE and PROT_EXEC (1, 2 and 4) are set exactly if PF_R, PF_W and PF_X (4,
      2 and 1) are. */
  predicate SameRights(flags: nat, prot: int) {
    && prot >= 0 && (Flag(prot, 1) <==> Flag(flags, 4)) && (Flag(prot, 2) <==> Flag(flags, 2)) && (Flag(prot, 4) <==> Flag(flags, 1))
  }

  lemma ProtRights(flags: nat)
    ensures SameRights(flags, Prot(flags)) && Prot(flags) < 8
  {
  }

  predicate Flag(flags: nat, bit: nat)
    requires bit > 0
  {
    flags / bit % 2 == 1
  }

  /** PF_R, PF_W and PF_X are 4, 2 and 1; PROT_READ, PROT_WRITE and PROT_EXEC are 1, 2 and 4. */
  function Prot(flags: nat): nat {
    (if Flag(flags, 4) then 1 else 0) + (if Flag(flags, 2) then 2 else 0) + (if Flag(flags, 1) then 4 else 0)
  }

  /** VMA_CODE is 1, VMA_DATA is 2. */
  function Kind(flags: nat): nat { if Flag(flags, 1) then 1 else 2 }

  /** The pages of the first `n` headers, counted once for each. */
  function PageSum(phdrs: seq<Phdr>, n: nat): (sum: int)
    requires n <= |phdrs|
  {
    if n == 0 then 0
    else PageSum(phdrs, n - 1) + if phdrs[n - 1].load then EndPage(phdrs[n - 1]) - FirstPage(phdrs[n - 1]) else 0
  }

  lemma {:induction false} PageSumMono(phdrs: seq<Phdr>, a: nat, b: nat)
    requires a <= b <= |phdrs|
    ensures 0 <= PageSum(phdrs, a) <= PageSum(phdrs, b)
  {
    if a < b {
      PageSumMono(phdrs, a, b - 1);
      assert FirstPage(phdrs[b - 1]) <= EndPage(phdrs[b - 1]);
    } else if a > 0 {
      PageSumMono(phdrs, a - 1, a - 1);
      assert FirstPage(phdrs[a - 1]) <= EndPage(phdrs[a - 1]);
    }
  }

  ghost predicate AllFit(elf: seq<Byte>, phdrs: seq<Phdr>) {
    forall i :: 0 <= i < |phdrs| && phdrs[i].load ==> Fits(elf, phdrs[i])
  }

  /** Header `i` is the last of the first `n` with a part on page `v`. */
  ghost predicate LastOn(phdrs: seq<Phdr>, n: nat, i: nat, v: nat)
    requires i < n <= |phdrs|
  {
    phdrs[i].load && OnPage(phdrs[i], v) && forall k :: i < k < n && phdrs[k].load ==> !OnPage(phdrs[k], v)
  }

  /** On each page the last header with a part there reads as its image. */
  ghost predicate LastHold(elf: seq<Byte>, phdrs: seq<Phdr>, n: nat, m: Space)
    requires n <= |phdrs| && forall i :: 0 <= i < n && phdrs[i].load ==> Fits(elf, phdrs[i])
  {
    forall i, v {:trigger LastOn(phdrs, n, i, v)} :: 0 <= i < n && LastOn(phdrs, n, i, v) ==> PageDone(elf, phdrs[i], m, v)
  }

  /** The loop of `elf_load` over the headers: succeeds exactly when every segment lies inside
      the file and their pages are within the budget.  Where segments share a page the last
      one has it; if none do, every segment is loaded. */
  method ElfLoad(elf: seq<Byte>, phdrs: seq<Phdr>, budget: nat, dirt: seq<Byte>) returns (ok: bool, m: Space)
    requires Sized(dirt)
    ensures SpaceOk(m)
    ensures ok <==> AllFit(elf, phdrs) && PageSum(phdrs, |phdrs|) <= budget
    ensures ok ==> LastHold(elf, phdrs, |phdrs|, m)
    ensures ok && DisjointPages(phdrs) ==> forall i :: 0 <= i < |phdrs| && phdrs[i].load ==> Loaded(elf, phdrs[i], m)
    ensures ok ==> forall v :: v in m <==> OnSome(phdrs, |phdrs|, v)
  {
    m := map[];
    var left := budget;
    for i := 0 to |phdrs|
      invariant SpaceOk(m) && left == budget - PageSum(phdrs, i) >= 0
      invariant forall v :: v in m <==> OnSome(phdrs, i, v)
      invariant forall k :: 0 <= k < i && phdrs[k].load ==> Fits(elf, phdrs[k])
      invariant LastHold(elf, phdrs, i, m)
    {
      PageSumMono(phdrs, i + 1, |phdrs|);
      SomeNext(phdrs, i);
      if !phdrs[i].load {
        LastSkip(elf, phdrs, i, m);
        continue;
      }
      if phdrs[i].offset + phdrs[i].filesz > |elf| { return false, m; }
      ghost var before := m;
      ok, m := LoadSegment(elf, phdrs[i], m, left, dirt, true);
      if !ok { return false, m; }
      left := left - (EndPage(phdrs[i]) - FirstPage(phdrs[i]));
      LastNext(elf, phdrs, i, before, m);
    }
    ok := true;
    if DisjointPages(phdrs) { LastLoaded(elf, phdrs, m); }
  }

  lemma SomeNext(phdrs: seq<Phdr>, i: nat)
    requires i < |phdrs|
    ensures forall v: nat :: OnSome(phdrs, i + 1, v) <==> OnSome(phdrs, i, v) || (phdrs[i].load && OnPage(phdrs[i], v))
  {
    forall v: nat ensures OnSome(phdrs, i + 1, v) <==> OnSome(phdrs, i, v) || (phdrs[i].load && OnPage(phdrs[i], v)) {
      assert phdrs[i].load && OnPage(phdrs[i], v) ==> OnSome(phdrs, i + 1, v);
    }
  }

  lemma LastSkip(elf: seq<Byte>, phdrs: seq<Phdr>, i: nat, m: Space)
    requires i < |phdrs| && !phdrs[i].load && (forall k :: 0 <= k < i && phdrs[k].load ==> Fits(elf, phdrs[k]))
    requires LastHold(elf, phdrs, i, m)
    ensures LastHold(elf, phdrs, i + 1, m)
  {
    forall k, v | 0 <= k < i + 1 && LastOn(phdrs, i + 1, k, v) ensures PageDone(elf, phdrs[k], m, v) {
      assert LastOn(phdrs, i, k, v);
    }
  }

  lemma LastNext(elf: seq<Byte>, phdrs: seq<Phdr>, i: nat, m: Space, m': Space)
    requires i < |phdrs| && phdrs[i].load && (forall k :: 0 <= k < i + 1 && phdrs[k].load ==> Fits(elf, phdrs[k]))
    requires LastHold(elf, phdrs, i, m) && PagesHold(elf, phdrs[i], m', EndPage(phdrs[i]))
    requires forall v :: !OnPage(phdrs[i], v) ==> (v in m' <==> v in m) && (v in m ==> m'[v] == m[v])
    ensures LastHold(elf, phdrs, i + 1, m')
  {
    forall k, v: nat | 0 <= k < i + 1 && LastOn(phdrs, i + 1, k, v) ensures PageDone(elf, phdrs[k], m', v) {
      if k < i {
        assert LastOn(phdrs, i, k, v);
        assert PageDone(elf, phdrs[k], m, v) && !OnPage(phdrs[i], v);
      }
    }
  }

  lemma LastLoaded(elf: seq<Byte>, phdrs: seq<Phdr>, m: Space)
    requires SpaceOk(m) && AllFit(elf, phdrs) && LastHold(elf, phdrs, |phdrs|, m) && DisjointPages(phdrs)
    ensures forall i :: 0 <= i < |phdrs| && phdrs[i].load ==> Loaded(elf, phdrs[i], m)
  {
    forall i | 0 <= i < |phdrs| && phdrs[i].load ensures Loaded(elf, phdrs[i], m) {
      forall v: nat | OnPage(phdrs[i], v) ensures PageDone(elf, phdrs[i], m, v) {
        forall k | i < k < |phdrs| && phdrs[k].load ensures !OnPage(phdrs[k], v) {
          assert PagesApart(phdrs[i], phdrs[k]);
        }
        assert LastOn(phdrs, |phdrs|, i, v);
      }
      PagesLoad(elf, phdrs[i], m);
    }
  }

  /** One of the first `n` headers has a part on page `v`. */
  ghost predicate OnSome(phdrs: seq<Phdr>, n: nat, v: nat)
    requires n <= |phdrs|
  {
    exists i :: 0 <= i < n && phdrs[i].load && OnPage(phdrs[i], v)
  }

  ghost predicate DisjointPages(phdrs: seq<Phdr>) {
    forall i, j :: 0 <= i < j < |phdrs| && phdrs[i].load && phdrs[j].load ==> PagesApart(phdrs[i], phdrs[j])
  }

  ghost predicate PagesApart(a: Phdr, b: Phdr) { forall v {:trigger OnPage(a, v)} :: OnPage(a, v) ==> !OnPage(b, v) }

  // ---- merging adjacent headers ------------------------------------------------------------

  /** `b` continues `a` in the file and in memory with the same flags. */
  predicate Adjacent(a: Phdr, b: Phdr) {
    b.load && b.flags == a.flags && b.vaddr == a.vaddr + a.memsz && b.offset == a.offset + a.filesz
  }

  function Merge(a: Phdr, b: Phdr): Phdr
    requires Adjacent(a, b)
  {
    a.(memsz := b.vaddr + b.memsz - a.vaddr, filesz := b.offset + b.filesz - a.offset)
  }

  /** The merged header gives both images. */
  ghost predicate SameImage(elf: seq<Byte>, a: Phdr, b: Phdr, c: Phdr)
    requires Fits(elf, a) && Fits(elf, b) && Fits(elf, c)
  {
    forall x: nat {:trigger InSegment(c, x)} ::
      && (InSegment(c, x) <==> InSegment(a, x) || InSegment(b, x))
      && (InSegment(a, x) && InSegment(c, x) ==> Image(elf, c, x) == Image(elf, a, x))
      && (InSegment(b, x) && InSegment(c, x) ==> Image(elf, c, x) == Image(elf, b, x))
  }

  /** Merging keeps the image, whatever the file holds, exactly when the first segment has no
      zeros to give or the second no file bytes. */
  lemma MergeExact(a: Phdr, b: Phdr)
    requires a.load && Adjacent(a, b) && a.filesz <= a.memsz && b.filesz <= b.memsz
    ensures (forall elf :: Fits(elf, a) && Fits(elf, b) ==> Fits(elf, Merge(a, b)) && SameImage(elf, a, b, Merge(a, b)))
       <==> a.filesz == a.memsz || b.filesz == 0
  {
    var c := Merge(a, b);
    if a.filesz == a.memsz || b.filesz == 0 {
      forall elf | Fits(elf, a) && Fits(elf, b) ensures Fits(elf, c) && SameImage(elf, a, b, c) {}
    } else {
      var elf: seq<Byte> := seq(b.offset + b.filesz, _ => 1);
      var x := a.vaddr + a.filesz;
      assert Fits(elf, a) && Fits(elf, b);
      assert InSegment(a, x) && InSegment(c, x) && Image(elf, c, x) == 1 && Image(elf, a, x) == 0;
    }
  }

  /** A header with zeros to give comes before one with file bytes. */
  ghost predicate Gap(phdrs: seq<Phdr>, i: nat, j: nat)
    requires i <= j < |phdrs|
  {
    exists k, l :: i <= k < l <= j && phdrs[k].filesz < phdrs[k].memsz && phdrs[l].filesz > 0
  }

  ghost predicate Tail(phdrs: seq<Phdr>, i: nat, j: nat)
    requires i <= j < |phdrs|
  {
    exists k :: i <= k <= j && phdrs[k].filesz < phdrs[k].memsz
  }

  ghost predicate Proper(phdrs: seq<Phdr>) {
    forall k :: 0 <= k < |phdrs| && phdrs[k].load ==> phdrs[k].filesz <= phdrs[k].memsz
  }

  /** The loop of `user/main.c`: header `i` with the adjacent ones after it.  The result gives
      the image of each header it stands for exactly when there is no gap among them. */
  method MergeFrom(phdrs: seq<Phdr>, i: nat) returns (ph: Phdr, j: nat)
    requires i < |phdrs| && phdrs[i].load && Proper(phdrs)
    ensures i <= j < |phdrs| && (forall k :: i <= k < j ==> Continues(phdrs[k], phdrs[k + 1]))
    ensures j + 1 < |phdrs| ==> !Continues(phdrs[j], phdrs[j + 1])
    ensures ph.load && ph.flags == phdrs[i].flags && ph.offset == phdrs[i].offset && ph.vaddr == phdrs[i].vaddr
    ensures ph.offset + ph.filesz == phdrs[j].offset + phdrs[j].filesz && ph.vaddr + ph.memsz == phdrs[j].vaddr + phdrs[j].memsz
    ensures Stands(phdrs, i, j, ph) <==> !Gap(phdrs, i, j)
  {
    ph, j := phdrs[i], i;
    while j + 1 < |phdrs| && Adjacent(ph, phdrs[j + 1])
      invariant i <= j < |phdrs| && ph.load && ph.vaddr == phdrs[i].vaddr && ph.flags == phdrs[i].flags == phdrs[j].flags
      invariant ph.offset == phdrs[i].offset && ph.offset + ph.filesz == phdrs[j].offset + phdrs[j].filesz
      invariant ph.vaddr + ph.memsz == phdrs[j].vaddr + phdrs[j].memsz
      invariant forall k :: i <= k < j ==> Continues(phdrs[k], phdrs[k + 1])
      invariant Merging(phdrs, i, j, ph)
    {
      MergingNext(phdrs, i, j, ph);
      ph := Merge(ph, phdrs[j + 1]);
      j := j + 1;
    }
    if Gap(phdrs, i, j) { SpoiledFails(phdrs, i, j, ph); }
  }

  /** PT_LOAD with the same flags, where the other ends both in memory and in the file. */
  predicate Continues(a: Phdr, b: Phdr) {
    b.load && a.flags == b.flags && a.vaddr + a.memsz == b.vaddr && a.offset + a.filesz == b.offset
  }

  /** What the loop keeps. */
  ghost predicate Merging(phdrs: seq<Phdr>, i: nat, j: nat, ph: Phdr)
    requires i <= j < |phdrs|
  {
    && ph.filesz <= ph.memsz && Spans(phdrs, i, j, ph)
    && (ph.filesz < ph.memsz <==> Tail(phdrs, i, j))
    && (if Gap(phdrs, i, j) then Spoiled(phdrs, i, j, ph) else Stands(phdrs, i, j, ph))
  }

  /** `ph` covers exactly the headers i to j. */
  ghost predicate Spans(phdrs: seq<Phdr>, i: nat, j: nat, ph: Phdr)
    requires i <= j < |phdrs|
  {
    forall x: nat {:trigger InSegment(ph, x)} :: InSegment(ph, x) <==> exists k :: i <= k <= j && InSegment(phdrs[k], x)
  }

  /** An address that reads as zero in its header and as a file byte in `ph`. */
  ghost predicate Spoils(a: Phdr, ph: Phdr, x: nat) {
    InSegment(a, x) && a.vaddr + a.filesz <= x && ph.vaddr <= x < ph.vaddr + ph.filesz
  }

  ghost predicate Spoiled(phdrs: seq<Phdr>, i: nat, j: nat, ph: Phdr)
    requires i <= j < |phdrs|
  {
    exists k, x :: i <= k <= j && Spoils(phdrs[k], ph, x)
  }

  /** `ph` covers exactly the headers i to j, with the image of each. */
  ghost predicate Stands(phdrs: seq<Phdr>, i: nat, j: nat, ph: Phdr)
    requires i <= j < |phdrs|
  {
    && Spans(phdrs, i, j, ph)
    && forall elf {:trigger Fits(elf, ph)} :: Fits(elf, ph) ==> forall k :: i <= k <= j ==> Agrees(elf, phdrs[k], ph)
  }

  ghost predicate Agrees(elf: seq<Byte>, a: Phdr, c: Phdr)
    requires Fits(elf, c)
  {
    Fits(elf, a) && forall x: nat {:trigger InSegment(a, x)} :: InSegment(a, x) ==> InSegment(c, x) && Image(elf, c, x) == Image(elf, a, x)
  }

  lemma SpoiledFails(phdrs: seq<Phdr>, i: nat, j: nat, ph: Phdr)
    requires i <= j < |phdrs| && Spoiled(phdrs, i, j, ph)
    ensures !Stands(phdrs, i, j, ph)
  {
    var k, x :| i <= k <= j && Spoils(phdrs[k], ph, x);
    var elf: seq<Byte> := seq(ph.offset + ph.filesz, _ => 1);
    assert Fits(elf, ph) && Image(elf, ph, x) == 1;
    if Fits(elf, phdrs[k]) { assert Image(elf, phdrs[k], x) == 0; }
  }

  lemma MergingNext(phdrs: seq<Phdr>, i: nat, j: nat, ph: Phdr)
    requires Proper(phdrs) && i <= j && j + 1 < |phdrs| && Adjacent(ph, phdrs[j + 1]) && Merging(phdrs, i, j, ph)
    ensures Merging(phdrs, i, j + 1, Merge(ph, phdrs[j + 1]))
  {
    var b := phdrs[j + 1];
    SpansNext(phdrs, i, j, ph);
    GapNext(phdrs, i, j);
    if Gap(phdrs, i, j) {
      var k, x :| i <= k <= j && Spoils(phdrs[k], ph, x);
      assert Spoils(phdrs[k], Merge(ph, b), x);
    } else if ph.filesz < ph.memsz && b.filesz > 0 {
      TailSpoils(phdrs, i, j, ph);
    } else {
      StandsNext(phdrs, i, j, ph);
    }
  }

  lemma SpansNext(phdrs: seq<Phdr>, i: nat, j: nat, ph: Phdr)
    requires i <= j && j + 1 < |phdrs| && Adjacent(ph, phdrs[j + 1]) && Spans(phdrs, i, j, ph)
    ensures Spans(phdrs, i, j + 1, Merge(ph, phdrs[j + 1]))
  {
    var b, c := phdrs[j + 1], Merge(ph, phdrs[j + 1]);
    forall x: nat ensures InSegment(c, x) <==> exists k :: i <= k <= j + 1 && InSegment(phdrs[k], x) {
      assert InSegment(c, x) <==> InSegment(ph, x) || InSegment(b, x);
    }
  }

  lemma GapNext(phdrs: seq<Phdr>, i: nat, j: nat)
    requires i <= j && j + 1 < |phdrs|
    ensures Gap(phdrs, i, j + 1) <==> Gap(phdrs, i, j) || (phdrs[j + 1].filesz > 0 && Tail(phdrs, i, j))
  {
  }

  /** The zeros at the end of what has been merged so far become file bytes. */
  lemma TailSpoils(phdrs: seq<Phdr>, i: nat, j: nat, ph: Phdr)
    requires i <= j && j + 1 < |phdrs| && Adjacent(ph, phdrs[j + 1]) && Stands(phdrs, i, j, ph)
    requires ph.filesz < ph.memsz && phdrs[j + 1].filesz > 0
    ensures Spoiled(phdrs, i, j + 1, Merge(ph, phdrs[j + 1]))
  {
    var x := ph.vaddr + ph.filesz;
    assert InSegment(ph, x);
    var k :| i <= k <= j && InSegment(phdrs[k], x);
    var elf: seq<Byte> := seq(ph.offset + ph.filesz, _ => 1);
    assert Fits(elf, ph) && Image(elf, ph, x) == 0;
    assert Agrees(elf, phdrs[k], ph);
    assert Spoils(phdrs[k], Merge(ph, phdrs[j + 1]), x);
  }

  lemma StandsNext(phdrs: seq<Phdr>, i: nat, j: nat, ph: Phdr)
    requires i <= j && j + 1 < |phdrs| && Stands(phdrs, i, j, ph) && ph.filesz <= ph.memsz
    requires Adjacent(ph, phdrs[j + 1]) && phdrs[j + 1].filesz <= phdrs[j + 1].memsz
    requires ph.filesz == ph.memsz || phdrs[j + 1].filesz == 0
    ensures Stands(phdrs, i, j + 1, Merge(ph, phdrs[j + 1]))
  {
    var b := phdrs[j + 1];
    var c := Merge(ph, b);
    SpansNext(phdrs, i, j, ph);
    forall elf, k | Fits(elf, c) && i <= k <= j + 1 ensures Agrees(elf, phdrs[k], c) {
      assert Fits(elf, ph);
      if k <= j { assert Agrees(elf, phdrs[k], ph); }
    }
  }
}
