/** Digits of scalars and windows of bits. */
module BlsDigits {
  import opened Arithmetic

  /** The number of binary digits. */
  function BitLen(e: nat): nat { if e == 0 then 0 else 1 + BitLen(e / 2) }

  /** e with w digits in base b removed. */
  function Shift(e: nat, b: nat, w: nat): nat
    requires b > 0
  {
    if w == 0 then e else Shift(e, b, w - 1) / b
  }

  /** Digit i of e in base b. */
  function Digit(e: nat, b: nat, i: nat): (d: nat)
    requires b > 0
    ensures d < b
  {
    Shift(e, b, i) % b
  }

  /** The digits of e from position i to n, as a number. */
  function Digits(e: nat, b: nat, i: nat, n: nat): (d: nat)
    requires b > 0
    decreases n - i
  {
    if i >= n then 0 else TimesPositive(b, Digits(e, b, i + 1, n)); Times(b, Digits(e, b, i + 1, n)) + Digit(e, b, i)
  }

  /** When everything has been shifted out the digits are the number. */
  lemma {:induction false} AllDigits(e: nat, b: nat, i: nat, n: nat)
    requires b > 0 && i <= n && Shift(e, b, n) == 0
    ensures Digits(e, b, i, n) == Shift(e, b, i)
    decreases n - i
  {
    hide Times;
    if i < n {
      AllDigits(e, b, i + 1, n);
      Division(Shift(e, b, i), b);
    }
  }

  lemma Division(x: nat, b: nat)
    requires b > 0
    ensures x == Times(b, x / b) + x % b
  {
    hide Times;
    TimesProduct(b, x / b);
  }

  lemma {:induction false} ShiftedOut(e: nat, c: nat, w: nat, n: nat)
    requires w <= n && e < Pow2(Window(c, n))
    ensures Shift(e, Pow2(c), w) < Pow2(Window(c, n - w))
  {
    hide Pow2, Window;
    if w > 0 {
      ShiftedOut(e, c, w - 1, n);
      var k := Window(c, n - w);
      assert Window(c, n - w + 1) == c + k by { OneMoreWindow(c, n - w); }
      Pow2Add(c, k);
      Quotient(Shift(e, Pow2(c), w - 1), Pow2(c), Pow2(k));
    }
  }

  /** The number of bits in n windows of width c. */
  function Window(c: nat, n: nat): nat { c * n }

  lemma OneMoreWindow(c: nat, n: nat)
    ensures Window(c, n + 1) == c + Window(c, n)
  {
  }

  lemma Quotient(x: nat, b: nat, m: nat)
    requires b > 0 && x < Times(b, m)
    ensures x / b < m
  {
    hide Times;
    TimesProduct(b, m);
    var q := x / b;
    assert b * q <= x;
    assert q >= m ==> b * q >= b * m;
  }

  /** The windows cover every scalar of 256 bits. */
  lemma Covered(e: nat, c: nat)
    requires 1 <= c <= 255 && e < Pow2(256)
    ensures Shift(e, Pow2(c), 255 / c + 1) == 0
  {
    hide Pow2, Shift;
    var n := 255 / c + 1;
    assert Window(c, n) >= 256;
    Pow2Grows(256, Window(c, n));
    ShiftedOut(e, c, n, n);
    assert Window(c, 0) == 0;
    Pow2Zero();
  }

}
