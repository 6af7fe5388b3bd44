/** Arithmetic shared by the parts of the project. */
module Arithmetic {

  /** A machine word. */
  type U64 = n: nat | n < 0x1_0000_0000_0000_0000

  function Pow2(k: nat): (n: nat)
    ensures n >= 1
  {
    if k == 0 then 1 else 2 * Pow2(k - 1)
  }

  /** A quotient and a remainder in range are the ones of the division. */
  lemma RemainderUnique(x: nat, b: nat, q: nat, r: nat)
    requires b > 0 && x == b * q + r && r < b
    ensures x % b == r
  {
    var p := x / b;
    assert b * (p - q) == r - x % b;
    assert p - q >= 1 ==> b * (p - q) >= b;
    assert p - q <= -1 ==> b * (p - q) + b <= 0;
  }

  lemma ProductGrows(a: nat, b: nat, c: nat)
    requires a <= b
    ensures a * c <= b * c && c * a <= c * b
  {
    assert b * c == a * c + (b - a) * c;
  }

  // ----- named products -----

  /** A product, as repeated addition: proofs with very large constants then see sums and no products. */
  function Times(a: int, b: int): int
    decreases if a < 0 then -a else a
  {
    if a == 0 then 0 else if a > 0 then Times(a - 1, b) + b else Times(a + 1, b) - b
  }

  lemma {:induction false} TimesProduct(a: int, b: int)
    ensures Times(a, b) == a * b
    decreases if a < 0 then -a else a
  {
    if a > 0 {
      TimesProduct(a - 1, b);
    } else if a < 0 {
      TimesProduct(a + 1, b);
    }
  }

  lemma TimesAdd(a: int, b: int, c: int)
    ensures Times(a + b, c) == Times(a, c) + Times(b, c) && Times(a - b, c) == Times(a, c) - Times(b, c)
    ensures Times(c, a + b) == Times(c, a) + Times(c, b) && Times(c, a - b) == Times(c, a) - Times(c, b)
  {
    hide Times;
    TimesProduct(a + b, c);
    TimesProduct(a - b, c);
    TimesProduct(a, c);
    TimesProduct(b, c);
    TimesProduct(c, a + b);
    TimesProduct(c, a - b);
    TimesProduct(c, a);
    TimesProduct(c, b);
  }

  lemma TimesCommutes(a: int, b: int)
    ensures Times(a, b) == Times(b, a)
  {
    hide Times;
    TimesProduct(a, b);
    TimesProduct(b, a);
  }

  lemma TimesUnit(a: int)
    ensures Times(a, 1) == a == Times(1, a)
  {
    hide Times;
    TimesProduct(a, 1);
    TimesProduct(1, a);
  }

  lemma TimesAssociates(a: int, b: int, c: int)
    ensures Times(Times(a, b), c) == Times(a, Times(b, c))
  {
    hide Times;
    TimesProduct(a, b);
    TimesProduct(b, c);
    TimesProduct(a * b, c);
    TimesProduct(a, b * c);
    assert a * b * c == a * (b * c);
  }

  lemma TimesPositive(a: nat, b: nat)
    ensures 0 <= Times(a, b)
    ensures a >= 1 ==> Times(a, b) >= b
    ensures b >= 1 ==> Times(a, b) >= a
  {
    hide Times;
    TimesProduct(a, b);
  }

  lemma TimesGrows(a: nat, b: nat, c: nat)
    requires a <= b
    ensures Times(a, c) <= Times(b, c) && Times(c, a) <= Times(c, b)
  {
    hide Times;
    TimesProduct(a, c);
    TimesProduct(b, c);
    TimesProduct(c, a);
    TimesProduct(c, b);
    assert b * c == a * c + (b - a) * c;
  }

  // ----- powers of two -----

  lemma {:induction false} Pow2Add(j: nat, k: nat)
    ensures Pow2(j + k) == Times(Pow2(j), Pow2(k))
  {
    if j == 0 {
      TimesUnit(Pow2(k));
    } else {
      hide Times;
      Pow2Add(j - 1, k);
      TimesAdd(Pow2(j - 1), Pow2(j - 1), Pow2(k));
    }
  }

  lemma {:induction false} Pow2Grows(j: nat, k: nat)
    requires j <= k
    ensures Pow2(j) <= Pow2(k)
    decreases k - j
  {
    if j < k {
      Pow2Grows(j + 1, k);
    }
  }

  lemma Pow2Square(k: nat, n: nat)
    requires Pow2(k) == n
    ensures Pow2(k + k) == n * n
  {
    hide Pow2, Times;
    Pow2Add(k, k);
    TimesProduct(n, n);
  }

  lemma Pow2Step(k: nat)
    ensures Pow2(k + 1) == 2 * Pow2(k)
  {
  }

  lemma Pow2Zero()
    ensures Pow2(0) == 1
  {
  }
}
