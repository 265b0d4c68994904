/** Powers of two and the division facts the size arithmetic needs. */
module Powers {

  function Pow2(n: nat): (p: nat)
    ensures p >= 1
  {
    if n == 0 then 1 else 2 * Pow2(n - 1)
  }

  lemma {:induction false} Pow2Mono(a: nat, b: nat)
    requires a <= b
    ensures Pow2(a) <= Pow2(b)
  {
    if a < b { Pow2Mono(a, b - 1); }
  }

  lemma {:induction false} Pow2Add(a: nat, b: nat)
    ensures Pow2(a + b) == Pow2(a) * Pow2(b)
  {
    if a > 0 {
      Pow2Add(a - 1, b);
      assert Pow2(a + b) == 2 * Pow2(a - 1 + b);
      assert 2 * (Pow2(a - 1) * Pow2(b)) == (2 * Pow2(a - 1)) * Pow2(b);
    }
  }

  lemma Pow2Small()
    ensures Pow2(3) == 8 && Pow2(5) == 32 && Pow2(8) == 256
  {
    assert Pow2(3) == 8;
    assert Pow2(5) == 4 * Pow2(3);
    assert Pow2(6) == 64;
    assert Pow2(8) == 4 * Pow2(6);
  }

  lemma {:induction false} Pow2Values()
    ensures Pow2(3) == 8 && Pow2(5) == 32 && Pow2(6) == 64 && Pow2(8) == 256
    ensures Pow2(27) == 0x800_0000 && Pow2(32) == 0x1_0000_0000
  {
    Pow2Add(8, 8);
    Pow2Add(16, 16);
    Pow2Add(16, 11);
    Pow2Add(8, 3);
  }

  lemma MulMono(a: nat, b: nat, g: nat)
    requires a <= b
    ensures a * g <= b * g
  {
  }

  /** Division by a positive number, as bounds. */
  lemma DivBounds(x: nat, g: nat, lo: nat, hi: nat)
    requires g > 0 && lo * g <= x < hi * g
    ensures lo <= x / g < hi && x / g * g <= x < (x / g + 1) * g
  {
    var q := x / g;
    assert x == q * g + x % g;
    assert (q + 1) * g == q * g + g;
    if q < lo { MulMono(q + 1, lo, g); }
    if q >= hi { MulMono(hi, q, g); }
  }

  lemma MulSucc(q: nat, g: nat)
    ensures (q + 1) * g == q * g + g
  {
  }

  lemma MulDouble(q: nat, g: nat)
    ensures q * (2 * g) == (2 * q) * g
  {
  }

  /** Quotient and remainder are unique. */
  lemma DivMod(x: nat, g: nat, q: nat, r: nat)
    requires r < g && x == q * g + r
    ensures x / g == q && x % g == r
  {
    MulSucc(q, g);
    DivBounds(x, g, q, q + 1);
    assert x == x / g * g + x % g;
  }

  lemma Multiple(x: nat, g: nat) returns (q: nat)
    requires g > 0 && x % g == 0
    ensures x == q * g && q == x / g
  {
    q := x / g;
    assert x == x / g * g + x % g;
  }
}
