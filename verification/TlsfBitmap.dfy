/**
  The 32-bit words of the two-level bitmap in `kernel/lib/tlsf.c`, and tlsf_ffs.

  A word is its value as a number; each operation is defined bit by bit, from the lowest
  bit up, and then proved equal to its arithmetic meaning and to its effect on bits.
 */
module TlsfBitmap {
  import opened Powers
  import opened TlsfMapping

  predicate Bit(m: nat, i: nat) { if i == 0 then m % 2 == 1 else Bit(m / 2, i - 1) }

  /** `m | (1U << i)` */
  function SetBit(m: nat, i: nat): nat {
    if i == 0 then m / 2 * 2 + 1 else 2 * SetBit(m / 2, i - 1) + m % 2
  }

  /** `m & ~(1U << i)` */
  function ClearBit(m: nat, i: nat): nat {
    if i == 0 then m / 2 * 2 else 2 * ClearBit(m / 2, i - 1) + m % 2
  }

  /** `m & (~0U << i)` */
  function From(m: nat, i: nat): nat {
    if i == 0 then m else 2 * From(m / 2, i - 1)
  }

  /** tlsf_ffs: the lowest set bit, or -1. */
  function Ffs(m: nat): (r: int)
    ensures m == 0 <==> r == -1
    ensures m != 0 ==> r >= 0 && Bit(m, r) && forall j :: 0 <= j < r ==> !Bit(m, j)
  {
    if m == 0 then -1
    else if m % 2 == 1 then 0
    else
      var r := 1 + Ffs(m / 2);
      assert forall j :: 0 < j < r ==> (Bit(m, j) <==> Bit(m / 2, j - 1));
      r
  }

  // ---- effect on bits --------------------------------------------------------------

  lemma {:induction false} SetBitOk(m: nat, i: nat, j: nat)
    ensures Bit(SetBit(m, i), j) <==> Bit(m, j) || i == j
  {
    if i > 0 && j > 0 {
      SetBitOk(m / 2, i - 1, j - 1);
      assert SetBit(m, i) / 2 == SetBit(m / 2, i - 1);
    } else if j > 0 {
      assert SetBit(m, i) / 2 == m / 2;
    }
  }

  lemma {:induction false} ClearBitOk(m: nat, i: nat, j: nat)
    ensures Bit(ClearBit(m, i), j) <==> Bit(m, j) && i != j
  {
    if i > 0 && j > 0 {
      ClearBitOk(m / 2, i - 1, j - 1);
      assert ClearBit(m, i) / 2 == ClearBit(m / 2, i - 1);
    } else if j > 0 {
      assert ClearBit(m, i) / 2 == m / 2;
    }
  }

  lemma {:induction false} FromOk(m: nat, i: nat, j: nat)
    ensures Bit(From(m, i), j) <==> Bit(m, j) && i <= j
  {
    if i > 0 && j > 0 {
      FromOk(m / 2, i - 1, j - 1);
      assert From(m, i) / 2 == From(m / 2, i - 1);
    }
  }

  lemma {:induction false} ZeroBit(i: nat)
    ensures !Bit(0, i)
  {
    if i > 0 { ZeroBit(i - 1); }
  }

  /** A set bit of an `n`-bit word has an index below `n`. */
  lemma {:induction false} BitBelow(m: nat, i: nat, n: nat)
    requires m < Pow2(n) && Bit(m, i)
    ensures i < n
  {
    if n == 0 {
      ZeroBit(i);
    } else if i > 0 {
      BitBelow(m / 2, i - 1, n - 1);
    }
  }

  // ---- arithmetic meaning ----------------------------------------------------------

  lemma {:induction false} SetBitValue(m: nat, i: nat)
    ensures SetBit(m, i) == if Bit(m, i) then m else m + Pow2(i)
  {
    if i > 0 { SetBitValue(m / 2, i - 1); }
  }

  lemma {:induction false} ClearBitValue(m: nat, i: nat)
    ensures ClearBit(m, i) == if Bit(m, i) then m - Pow2(i) else m
  {
    if i > 0 { ClearBitValue(m / 2, i - 1); }
  }

  lemma {:induction false} FromValue(m: nat, i: nat)
    ensures From(m, i) == m / Pow2(i) * Pow2(i)
  {
    if i > 0 {
      FromValue(m / 2, i - 1);
      HalfDivide(m, Pow2(i - 1));
    }
  }

  lemma HalfDivide(m: nat, p: nat)
    requires p > 0
    ensures m / 2 / p == m / (2 * p)
  {
    var q := m / 2 / p;
    assert m / 2 == q * p + (m / 2) % p;
    assert q * (2 * p) == 2 * (q * p);
    DivBounds(m, 2 * p, q, q + 1);
  }

  lemma {:induction false} SetBitFits(m: nat, i: nat, n: nat)
    requires m < Pow2(n) && i < n
    ensures SetBit(m, i) < Pow2(n)
  {
    var p := Pow2(n - 1);
    assert Pow2(n) == 2 * p;
    Halved(m, p);
    if i > 0 {
      SetBitFits(m / 2, i - 1, n - 1);
      assert 2 * SetBit(m / 2, i - 1) + 1 < 2 * p;
    }
  }

  lemma Halved(m: nat, p: nat)
    requires m < 2 * p
    ensures m / 2 < p && m / 2 * 2 + 1 < 2 * p && m % 2 <= 1
  {
  }

  lemma {:induction false} ClearBitFits(m: nat, i: nat)
    ensures ClearBit(m, i) <= m
  {
    if i > 0 { ClearBitFits(m / 2, i - 1); }
  }

  lemma {:induction false} FromFits(m: nat, i: nat)
    ensures From(m, i) <= m
  {
    if i > 0 { FromFits(m / 2, i - 1); }
  }
}
