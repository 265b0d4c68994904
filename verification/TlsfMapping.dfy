/**
  The size arithmetic of `kernel/lib/tlsf.c`: the two-level size classes and the
  search rounding.  A class is a pair (fl, sl), numbered 32 * fl + sl as in the
  row-major array `blocks[FL_INDEX_COUNT][SL_INDEX_COUNT]`.
 */
module TlsfMapping {
  import opened Powers

  const ALIGN_SIZE: nat := 8
  const SL_INDEX_COUNT_LOG2: nat := 5
  const SL_INDEX_COUNT: nat := 32
  const FL_INDEX_SHIFT: nat := 8
  const FL_INDEX_COUNT: nat := 25
  const SMALL_BLOCK_SIZE: nat := 256
  const CLASSES: nat := 800 // FL_INDEX_COUNT * SL_INDEX_COUNT

  const BLOCK_SIZE_MIN: nat := 24
  const BLOCK_SIZE_MAX: nat := 0x1_0000_0000

  // ---- the highest set bit ----------------------------------------------------------

  /** Index of the highest set bit; -1 for zero (tlsf_fls on a word of any width). */
  function Fls(x: nat): (r: int)
    ensures x == 0 <==> r == -1
    ensures x > 0 ==> r >= 0 && Pow2(r) <= x < Pow2(r + 1)
  {
    if x == 0 then -1 else if x == 1 then 0 else 1 + Fls(x / 2)
  }

  lemma FlsUnique(x: nat, n: nat)
    requires Pow2(n) <= x < Pow2(n + 1)
    ensures Fls(x) == n
  {
    var r := Fls(x);
    if r < n { Pow2Mono(r + 1, n); }
    if r > n { Pow2Mono(n + 1, r); }
  }

  /** tlsf_fls_sizet: the high word decides, and the low word only if that is zero. */
  function FlsSizet(size: nat): int {
    var high := size / 0x1_0000_0000;
    if high != 0 then 32 + Fls(high) else Fls(size % 0x1_0000_0000)
  }

  /** Shifting a number up by 32 bits and filling in any low word shifts its highest bit. */
  lemma ShiftUp(high: nat, low: nat, n: nat, p: nat, p': nat)
    requires p == Pow2(n) && p' == Pow2(n + 1) && p <= high < p' && low < 0x1_0000_0000
    ensures Pow2(32 + n) <= high * 0x1_0000_0000 + low < Pow2(33 + n)
  {
    assert Pow2(32 + n) == 0x1_0000_0000 * p && Pow2(33 + n) == 0x1_0000_0000 * p' by {
      Pow2Values();
      Pow2Add(32, n);
      Pow2Add(32, n + 1);
    }
  }

  lemma {:induction false} FlsSizetIsFls(size: nat)
    ensures FlsSizet(size) == Fls(size)
  {
    var high, low := size / 0x1_0000_0000, size % 0x1_0000_0000;
    if high != 0 {
      var n := Fls(high);
      ShiftUp(high, low, n, Pow2(n), Pow2(n + 1));
      FlsUnique(size, 32 + n);
    }
  }

  // ---- size classes ----------------------------------------------------------------

  /** mapping_insert; XOR with 32 of a number in [32, 64) subtracts 32. */
  function MappingInsert(size: nat): (int, int) {
    if size < SMALL_BLOCK_SIZE then
      (0, size / (SMALL_BLOCK_SIZE / SL_INDEX_COUNT))
    else
      var fl := FlsSizet(size);
      FlsSizetIsFls(size);
      FlsAtLeast(size, 8);
      (fl - (FL_INDEX_SHIFT - 1), size / Pow2(fl - SL_INDEX_COUNT_LOG2) - SL_INDEX_COUNT)
  }

  /** mapping_search: rounds up to the next class boundary first. */
  function RoundedUp(size: nat): nat {
    if size >= SMALL_BLOCK_SIZE then
      FlsSizetIsFls(size);
      FlsAtLeast(size, 8);
      size + Pow2(FlsSizet(size) - SL_INDEX_COUNT_LOG2) - 1
    else
      size
  }

  function MappingSearch(size: nat): (int, int) { MappingInsert(RoundedUp(size)) }

  lemma FlsAtLeast(size: nat, n: nat)
    requires size >= Pow2(n)
    ensures Fls(size) >= n
  {
    var r: nat := if Fls(size) + 1 <= n then Fls(size) + 1 else n;
    Pow2Mono(r, n);
  }

  function Number(c: (int, int)): int { SL_INDEX_COUNT * c.0 + c.1 }

  /** The smallest size in class number `c`: multiples of 8 in the first two rows, and in each
      later row twice those of the row before. */
  function ClassMin(c: nat): nat { if c < 2 * SL_INDEX_COUNT then ALIGN_SIZE * c else 2 * ClassMin(c - SL_INDEX_COUNT) }

  lemma {:induction false} ClassMinStep(c: nat)
    ensures ClassMin(c) < ClassMin(c + 1)
  {
    if c >= 2 * SL_INDEX_COUNT { ClassMinStep(c - SL_INDEX_COUNT); }
  }

  lemma {:induction false} ClassMinMono(c: nat, d: nat)
    requires c <= d
    ensures ClassMin(c) <= ClassMin(d)
  {
    if c < d {
      ClassMinMono(c, d - 1);
      ClassMinStep(d - 1);
    }
  }

  /** The halves of a power-of-two range: a size in [2^f, 2^(f+1)) divided by 2^(f-5). */
  lemma SecondLevel(size: nat, f: nat)
    requires f >= 8 && Pow2(f) <= size < Pow2(f + 1)
    ensures var q := size / Pow2(f - 5); 32 <= q < 64 && q * Pow2(f - 5) <= size < (q + 1) * Pow2(f - 5)
  {
    Pow2Add(5, f - 5);
    Pow2Add(6, f - 5);
    Pow2Values();
    DivBounds(size, Pow2(f - 5), 32, 64);
  }

  lemma Divide(fl: nat, sl: nat)
    requires sl < 32
    ensures (32 * fl + sl) / 32 == fl && (32 * fl + sl) % 32 == sl
  {
  }

  /** Class numbers and their lower bounds above the small sizes. */
  lemma LargeClass(fl: nat, sl: nat)
    requires fl >= 1 && sl < 32
    ensures var c := 32 * fl + sl;
      && ClassMin(c) == (32 + sl) * Pow2(fl + 2) && ClassMin(c + 1) == (33 + sl) * Pow2(fl + 2)
      && c / 32 == fl && c % 32 == sl
  {
    ClassMinAt(fl, sl);
    if sl < 31 {
      ClassMinAt(fl, sl + 1);
    } else {
      ClassMinAt(fl + 1, 0);
      NextRow(sl, Pow2(fl + 3), Pow2(fl + 2));
      assert 32 * fl + sl + 1 == 32 * (fl + 1) + 0;
    }
  }

  lemma {:induction false} ClassMinAt(fl: nat, sl: nat)
    requires fl >= 1 && sl < 32
    ensures var c := 32 * fl + sl;
      c >= 32 && c / 32 == fl && c % 32 == sl && ClassMin(c) == (32 + sl) * Pow2(fl + 2)
  {
    Divide(fl, sl);
    if fl == 1 {
      Pow2Small();
    } else {
      ClassMinAt(fl - 1, sl);
      MulDouble(32 + sl, Pow2(fl + 1));
    }
  }

  lemma NextRow(sl: nat, a: nat, b: nat)
    requires sl == 31 && a == 2 * b
    ensures (32 + 0) * a == (33 + sl) * b
  {
  }

  /** The class of a size from 256 on, given the position of its highest bit. */
  lemma {:induction false} LargeInsert(size: nat, f: nat)
    requires size >= SMALL_BLOCK_SIZE && f == Fls(size)
    ensures f >= 8
    ensures MappingInsert(size) == (f - 7, size / Pow2(f - 5) - 32)
  {
    Pow2Small();
    FlsAtLeast(size, 8);
    FlsSizetIsFls(size);
  }

  lemma {:induction false} LargeRange(size: nat, f: nat, q: nat)
    requires f >= 8 && 32 <= q < 64 && q * Pow2(f - 5) <= size < (q + 1) * Pow2(f - 5)
    ensures var c := 32 * (f - 7) + (q - 32); ClassMin(c) <= size < ClassMin(c + 1)
  {
    LargeClass(f - 7, q - 32);
  }

  /** mapping_insert finds the one class whose range holds the size. */
  lemma {:induction false} MappingInsertOk(size: nat)
    ensures MappingInsert(size).0 >= 0 && 0 <= MappingInsert(size).1 < SL_INDEX_COUNT
    ensures var c := Number(MappingInsert(size)); c >= 0 && ClassMin(c) <= size < ClassMin(c + 1)
  {
    if size >= SMALL_BLOCK_SIZE { LargeInsertOk(size); } else { SmallRange(size, size / 8); }
  }

  lemma {:induction false} LargeInsertOk(size: nat)
    requires size >= SMALL_BLOCK_SIZE
    ensures MappingInsert(size).0 >= 0 && 0 <= MappingInsert(size).1 < SL_INDEX_COUNT
    ensures var c := Number(MappingInsert(size)); c >= 0 && ClassMin(c) <= size < ClassMin(c + 1)
  {
    var f: nat := Fls(size);
    LargeInsert(size, f);
    SecondLevel(size, f);
    var q := size / Pow2(f - 5);
    LargeRange(size, f, q);
    assert Number(MappingInsert(size)) == 32 * (f - 7) + (q - 32);
  }

  lemma SmallRange(size: nat, c: nat)
    requires size < SMALL_BLOCK_SIZE && c == size / 8
    ensures c < 32 && ClassMin(c) <= size < ClassMin(c + 1)
  {
  }

  /** The class of a size; from 512 on it is 32 above that of half the size. */
  function Class(size: nat): (c: nat)
    ensures ClassMin(c) <= size < ClassMin(c + 1)
  {
    if size < 2 * SMALL_BLOCK_SIZE then size / ALIGN_SIZE else Class(size / 2) + SL_INDEX_COUNT
  }

  /** It is the one that mapping_insert computes. */
  lemma {:induction false} ClassIs(size: nat)
    ensures Number(MappingInsert(size)) == Class(size)
    ensures MappingInsert(size) == (Class(size) / SL_INDEX_COUNT, Class(size) % SL_INDEX_COUNT)
  {
    MappingInsertOk(size);
    var f, q := MappingInsert(size).0, MappingInsert(size).1;
    ClassUnique(size, Number(MappingInsert(size)));
    Divide(f, q);
  }

  lemma ClassUnique(size: nat, c: nat)
    requires ClassMin(c) <= size < ClassMin(c + 1)
    ensures Class(size) == c
  {
    var d := Class(size);
    if d < c { ClassMinMono(d + 1, c); }
    if c < d { ClassMinMono(c + 1, d); }
  }

  lemma RowMin(fl: nat, c: nat)
    requires fl >= 1 && c == 32 * fl
    ensures ClassMin(c) == 32 * Pow2(fl + 2)
  {
    ClassMinAt(fl, 0);
  }

  lemma ClassBelow(size: nat, top: nat)
    ensures Class(size) < top <==> size < ClassMin(top)
  {
    var c := Class(size);
    if c < top { ClassMinMono(c + 1, top); } else { ClassMinMono(top, c); }
  }

  /** The class array is large enough exactly for the sizes below block_size_max. */
  lemma ClassInRange(size: nat)
    ensures Class(size) < CLASSES <==> size < BLOCK_SIZE_MAX
  {
    var fl := FL_INDEX_COUNT;
    RowMin(fl, 32 * fl);
    Pow2Values();
    ClassBelow(size, 32 * fl);
  }

  // ---- good fit --------------------------------------------------------------------

  function SearchClass(size: nat): (c: nat)
    ensures ClassMin(c) <= RoundedUp(size) < ClassMin(c + 1)
  {
    Class(RoundedUp(size))
  }

  /** It is the one that mapping_search computes. */
  lemma SearchIs(size: nat)
    ensures MappingSearch(size) == (SearchClass(size) / SL_INDEX_COUNT, SearchClass(size) % SL_INDEX_COUNT)
  {
    ClassIs(RoundedUp(size));
  }

  /** The rounding of mapping_search: to the class width `g` of the size. */
  lemma {:induction false} SearchRounding(size: nat) returns (f: nat, g: nat)
    requires size >= SMALL_BLOCK_SIZE
    ensures f >= 8 && Pow2(f) <= size < Pow2(f + 1) && g == Pow2(f - 5) && 32 * g <= size
    ensures RoundedUp(size) == size + g - 1
  {
    f := Fls(size);
    FlsAtLeast(size, 8) by { Pow2Small(); }
    g := Pow2(f - 5);
    WidthFits(size, f);
    RoundedUpBy(size, f);
  }

  lemma WidthFits(size: nat, f: nat)
    requires f >= 8 && Pow2(f) <= size
    ensures 32 * Pow2(f - 5) <= size
  {
    Pow2Add(5, f - 5);
    Pow2Small();
  }

  lemma {:induction false} RoundedUpBy(size: nat, f: nat)
    requires size >= SMALL_BLOCK_SIZE && f == Fls(size) && f >= 8
    ensures RoundedUp(size) == size + Pow2(f - 5) - 1
  {
    FlsSizetIsFls(size);
  }

  lemma {:induction false} SearchSmall(size: nat)
    requires size < SMALL_BLOCK_SIZE && size % ALIGN_SIZE == 0
    ensures ClassMin(SearchClass(size)) == size
  {
    SmallRange(size, size / 8);
    ClassUnique(size, size / 8);
  }

  /** The search class starts at or above the request, and not far above. */
  lemma {:induction false} SearchClassBounds(size: nat)
    requires size % ALIGN_SIZE == 0
    ensures size <= ClassMin(SearchClass(size))
    ensures size >= SMALL_BLOCK_SIZE ==> ClassMin(SearchClass(size)) < size + size / 32
  {
    if size >= SMALL_BLOCK_SIZE {
      var f, g := SearchRounding(size);
      RoundUpClass(size, f, g, SearchClass(size));
      assert size / 32 >= g;
    } else {
      SearchSmall(size);
    }
  }

  /** The first multiple of `g` at or above `size` is the last one at or below `size + g - 1`. */
  lemma NextMultiple(size: nat, g: nat, q: nat) returns (r: nat)
    requires g > 0 && q * g <= size < (q + 1) * g
    ensures size <= r * g <= size + g - 1 < (r + 1) * g && (r == q || r == q + 1)
  {
    r := if size == q * g then q else q + 1;
    assert (q + 1) * g == q * g + g && (q + 2) * g == q * g + 2 * g;
  }

  /** Rounding up by one less than the class width lands on the next class boundary. */
  lemma {:induction false} RoundUp(size: nat, f: nat, g: nat)
    requires f >= 8 && Pow2(f) <= size < Pow2(f + 1) && g == Pow2(f - 5)
    ensures size <= ClassMin(Class(size + g - 1)) <= size + g - 1
  {
    SecondLevel(size, f);
    var r := NextMultiple(size, g, size / g);
    RoundUpTo(size, f - 7, r, g);
  }

  lemma RoundUpClass(size: nat, f: nat, g: nat, s: nat)
    requires f >= 8 && Pow2(f) <= size < Pow2(f + 1) && g == Pow2(f - 5)
    requires ClassMin(s) <= size + g - 1 < ClassMin(s + 1)
    ensures size <= ClassMin(s)
  {
    RoundUp(size, f, g);
    ClassUnique(size + g - 1, s);
  }

  lemma {:induction false} RoundUpTo(size: nat, fl: nat, r: nat, g: nat)
    requires fl >= 1 && 32 <= r <= 64 && g == Pow2(fl + 2)
    requires size <= r * g <= size + g - 1 < (r + 1) * g
    ensures ClassMin(Class(size + g - 1)) == r * g
  {
    MultipleClass(fl, r, g);
    ClassUnique(size + g - 1, if r < 64 then 32 * fl + (r - 32) else 32 * (fl + 1));
  }

  /** The class that starts at `r * g`, for a class width `g`. */
  lemma MultipleClass(fl: nat, r: nat, g: nat)
    requires fl >= 1 && 32 <= r <= 64 && g == Pow2(fl + 2)
    ensures var c := if r < 64 then 32 * fl + (r - 32) else 32 * (fl + 1);
      ClassMin(c) == r * g && (r + 1) * g <= ClassMin(c + 1)
  {
    if r < 64 {
      LargeClass(fl, r - 32);
    } else {
      LargeClass(fl + 1, 0);
      assert Pow2(fl + 3) == 2 * g;
    }
  }

  /** Every block of a class at or after the search class is large enough. */
  lemma GoodFit(size: nat, c: nat, block: nat)
    requires size % ALIGN_SIZE == 0 && c >= SearchClass(size) && Class(block) == c
    ensures block >= size
  {
    SearchClassBounds(size);
    ClassMinMono(SearchClass(size), c);
  }

  /** The search class is the first all of whose blocks are large enough. */
  lemma LeastClass(size: nat, c: nat)
    requires size % ALIGN_SIZE == 0
    ensures ClassMin(c) >= size <==> c >= SearchClass(size)
  {
    SearchClassBounds(size);
    if c >= SearchClass(size) {
      ClassMinMono(SearchClass(size), c);
    } else if size < SMALL_BLOCK_SIZE {
      SearchSmall(size);
      ClassMinStrict(c, SearchClass(size));
    } else {
      TooSmall(size, c, SearchClass(size));
    }
  }

  lemma ClassMinStrict(c: nat, d: nat)
    requires c < d
    ensures ClassMin(c) < ClassMin(d)
  {
    ClassMinStep(c);
    ClassMinMono(c + 1, d);
  }

  /** The class of a size and its width, and the class after it. */
  lemma ClassWidth(size: nat, f: nat, g: nat) returns (c: nat)
    requires f >= 8 && Pow2(f) <= size < Pow2(f + 1) && g == Pow2(f - 5)
    ensures ClassMin(c) <= size < ClassMin(c) + g == ClassMin(c + 1) && ClassMin(c) + 2 * g <= ClassMin(c + 2)
  {
    SecondLevel(size, f);
    var q := size / g;
    c := 32 * (f - 7) + (q - 32);
    MultipleClass(f - 7, q, g);
    MultipleClass(f - 7, q + 1, g);
    MulSucc(q, g);
    MulSucc(q + 1, g);
    assert q + 1 < 64 ==> 32 * (f - 7) + (q + 1 - 32) == c + 1;
    assert q + 1 == 64 ==> 32 * (f - 7 + 1) == c + 1;
  }

  lemma NotFar(x: nat, s: nat, d: nat, top: nat)
    requires ClassMin(s) <= x < top <= ClassMin(d + 2)
    ensures s <= d + 1
  {
    if s > d + 1 { ClassMinMono(d + 2, s); }
  }

  lemma SameClass(x: nat, s: nat, d: nat)
    requires ClassMin(s) <= x < ClassMin(s + 1) && ClassMin(d) <= x < ClassMin(d + 1)
    ensures s == d
  {
    if s < d { ClassMinMono(s + 1, d); }
    if d < s { ClassMinMono(d + 1, s); }
  }

  /** The class of size + g - 1 is that of the size or the next one, and that of a size on a
      class boundary. */
  lemma NearClass(size: nat, g: nat, s: nat, d: nat)
    requires g > 0 && ClassMin(s) <= size + g - 1 < ClassMin(s + 1)
    requires ClassMin(d) <= size < ClassMin(d) + g == ClassMin(d + 1) && ClassMin(d) + 2 * g <= ClassMin(d + 2)
    ensures s <= d + 1 && (ClassMin(d) == size ==> s == d)
  {
    NotFar(size + g - 1, s, d, ClassMin(d) + 2 * g);
    if ClassMin(d) == size { SameClass(size + g - 1, s, d); }
  }

  lemma BelowNear(size: nat, c: nat, s: nat, d: nat)
    requires c < s <= d + 1 && ClassMin(d) <= size && (ClassMin(d) == size ==> s == d)
    ensures ClassMin(c) < size
  {
    if c < d { ClassMinStrict(c, d); }
  }

  lemma Rounded(size: nat) returns (g: nat, d: nat)
    requires size >= SMALL_BLOCK_SIZE
    ensures g > 0 && RoundedUp(size) == size + g - 1
    ensures ClassMin(d) <= size < ClassMin(d) + g == ClassMin(d + 1) && ClassMin(d) + 2 * g <= ClassMin(d + 2)
  {
    var f;
    f, g := SearchRounding(size);
    d := ClassWidth(size, f, g);
  }

  lemma TooSmall(size: nat, c: nat, s: nat)
    requires size >= SMALL_BLOCK_SIZE && c < s && ClassMin(s) <= RoundedUp(size) < ClassMin(s + 1)
    ensures ClassMin(c) < size
  {
    var g, d := Rounded(size);
    NearClass(size, g, s, d);
    BelowNear(size, c, s, d);
  }

  // ---- request sizes ---------------------------------------------------------------

  /** A size_t. */
  type Size = x: nat | x < 0x1_0000_0000_0000_0000

  /** The largest size that does not wrap in align_up, and the largest below it that is served. */
  const NO_WRAP: nat := 0xFFFF_FFFF_FFFF_FFF8
  const LARGEST: nat := BLOCK_SIZE_MAX - ALIGN_SIZE

  /** align_up to the fixed alignment of 8, in 64-bit arithmetic. */
  function AlignUp(x: Size): Size {
    (x + ALIGN_SIZE - 1) % 0x1_0000_0000_0000_0000 / ALIGN_SIZE * ALIGN_SIZE
  }

  /** adjust_request_size with the fixed alignment of 8; 0 means the request is refused.  Sizes
      above NO_WRAP wrap to 0 in align_up and are taken for the smallest block. */
  function Adjust(size: Size): (r: nat)
    ensures r == 0 <==> size == 0 || LARGEST < size <= NO_WRAP
    ensures r != 0 ==> BLOCK_SIZE_MIN <= r < BLOCK_SIZE_MAX && r % ALIGN_SIZE == 0
    ensures r != 0 && size <= LARGEST ==> size <= r && (r == BLOCK_SIZE_MIN || r < size + ALIGN_SIZE)
    ensures size > NO_WRAP ==> r == BLOCK_SIZE_MIN
  {
    if size == 0 then 0
    else
      var aligned := AlignUp(size);
      if aligned < BLOCK_SIZE_MAX then (if aligned > BLOCK_SIZE_MIN then aligned else BLOCK_SIZE_MIN) else 0
  }
}
