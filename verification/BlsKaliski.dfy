/** The almost-inverse iteration on numbers: its invariants, its bounds on the step count and its result. */
module BlsKaliski {
  import opened Arithmetic
  import opened BlsMontgomery
  import opened BlsModular

  /** The sizes of the modulus and of the Montgomery factor. */
  lemma Sizes()
    ensures Pow2(384) == R
    ensures 2 * Pow2(379) < P < Pow2(381) && 4 * P < R
  {
    assert Pow2(3) == 8;
    hide Pow2, Times;
    Pow2Square(3, 8);
    Pow2Square(6, 0x40);
    Pow2Square(12, 0x1000);
    Pow2Square(24, 0x100_0000);
    Pow2Square(48, 0x1_0000_0000_0000);
    Pow2Square(96, 0x1_000000000000000000000000);
    Pow2Square(192, 0x1_000000000000000000000000000000000000000000000000);
    Pow2Step(379);
    Pow2Step(380);
    Pow2Step(381);
    Pow2Step(382);
    Pow2Step(383);
  }

  // ----- products and halves -----

  lemma HalfDouble(u: int, s: int)
    requires u % 2 == 0
    ensures Times(u / 2, 2 * s) == Times(u, s)
  {
    hide Times;
    TimesAdd(u / 2, u / 2, s);
    TimesAdd(s, s, u / 2);
  }

  lemma Doubled(v: int, s: int)
    ensures Times(v, 2 * s) == Times(v, s) + Times(v, s) == Times(2 * v, s)
  {
    hide Times;
    TimesAdd(s, s, v);
    TimesAdd(v, v, s);
  }

  // ----- one step -----

  datatype Kaliski = Kaliski(u: nat, v: nat, r: nat, s: nat)

  function Start(e: nat): Kaliski { Kaliski(P, e, 0, 1) }

  /** The four branches, in the order they are tried. */
  function Advance(t: Kaliski): Kaliski
  {
    if t.u % 2 == 0 then Kaliski(t.u / 2, t.v, t.r, 2 * t.s)
    else if t.v % 2 == 0 then Kaliski(t.u, t.v / 2, 2 * t.r, t.s)
    else if t.u > t.v then Kaliski((t.u - t.v) / 2, t.v, t.r + t.s, 2 * t.s)
    else Kaliski(t.u, (t.v - t.u) / 2, 2 * t.r, t.s + t.r)
  }

  /** p == u*s + v*r, with positive u and s, and u at most e once v has vanished. */
  ghost predicate Bezout(e: nat, t: Kaliski)
  {
    && t.u >= 1 && t.s >= 1 && t.v <= e
    && Times(t.u, t.s) + Times(t.v, t.r) == P
    && (t.v == 0 ==> t.u <= e && t.r < 2 * P)
  }

  lemma BezoutStart(e: nat)
    requires 1 <= e < P
    ensures Bezout(e, Start(e))
  {
    hide Times;
    TimesUnit(P);
    TimesProduct(e, 0);
  }

  /** While v is positive both cofactors stay below the modulus. */
  lemma CofactorsBelow(e: nat, t: Kaliski)
    requires Bezout(e, t) && t.v >= 1
    ensures t.r < P && t.s <= P
  {
    hide Times;
    TimesPositive(t.u, t.s);
    TimesPositive(t.v, t.r);
  }

  /** The identity p == u*s + v*r in the two kinds of step, and with the sides exchanged. */
  lemma HalvingKeeps(u: nat, v: nat, r: nat, s: nat)
    requires u % 2 == 0
    ensures Times(u / 2, 2 * s) + Times(v, r) == Times(u, s) + Times(v, r)
  {
    hide Times;
    HalfDouble(u, s);
  }

  lemma SubtractingKeeps(u: nat, v: nat, r: nat, s: nat)
    requires u >= v && (u - v) % 2 == 0
    ensures Times((u - v) / 2, 2 * s) + Times(v, r + s) == Times(u, s) + Times(v, r)
  {
    hide Times;
    HalfDouble(u - v, s);
    TimesAdd(u, v, s);
    TimesAdd(r, s, v);
  }

  ghost function Combination(t: Kaliski): int { Times(t.u, t.s) + Times(t.v, t.r) }

  lemma CombinationKept(t: Kaliski)
    ensures Combination(Advance(t)) == Combination(t)
  {
    hide Times;
    var Kaliski(u, v, r, s) := t;
    if u % 2 == 0 {
      HalvingKeeps(u, v, r, s);
    } else if v % 2 == 0 {
      HalvingKeeps(v, u, s, r);
    } else if u > v {
      SubtractingKeeps(u, v, r, s);
    } else {
      SubtractingKeeps(v, u, s, r);
    }
  }

  lemma BezoutKept(e: nat, t: Kaliski)
    requires Bezout(e, t) && t.v >= 1
    ensures Bezout(e, Advance(t))
  {
    hide Times;
    CofactorsBelow(e, t);
    CombinationKept(t);
  }

  // ----- congruences: e*r == -u*2^k and e*s == v*2^k -----

  function LeftError(e: nat, t: Kaliski, k: nat): int { Times(e, t.r) + Times(t.u, Pow2(k)) }

  function RightError(e: nat, t: Kaliski, k: nat): int { Times(e, t.s) - Times(t.v, Pow2(k)) }

  ghost predicate Congruent(e: nat, t: Kaliski, k: nat)
  {
    Cong(LeftError(e, t, k), 0) && Cong(RightError(e, t, k), 0)
  }

  lemma CongruentStart(e: nat)
    ensures Congruent(e, Start(e), 0)
  {
    hide Cong, Times;
    TimesUnit(P);
    TimesUnit(e);
    TimesProduct(e, 0);
    assert LeftError(e, Start(e), 0) == P;
    assert RightError(e, Start(e), 0) == 0;
    ModulusVanishes();
  }

  lemma ModulusVanishes()
    ensures Cong(P, 0) && Cong(0, 0)
  {
    hide Multiple;
    MultipleAdd(1, 0);
    assert P == 0 + Multiple(1);
    assert 0 == 0 + Multiple(0);
  }

  lemma BothDoubled(e: int, r: int, u: int, p: int)
    ensures Times(e, 2 * r) + Times(u, 2 * p) == 2 * (Times(e, r) + Times(u, p))
    ensures Times(e, 2 * r) - Times(u, 2 * p) == 2 * (Times(e, r) - Times(u, p))
  {
    hide Times;
    Doubled(e, r);
    Doubled(u, p);
  }

  lemma ErrorsJoined(e: int, r: int, s: int, u: int, v: int, p: int)
    requires (u - v) % 2 == 0
    ensures Times(e, r + s) + Times((u - v) / 2, 2 * p) == (Times(e, r) + Times(u, p)) + (Times(e, s) - Times(v, p))
    ensures Times(e, r + s) - Times((u - v) / 2, 2 * p) == (Times(e, r) - Times(u, p)) + (Times(e, s) + Times(v, p))
  {
    hide Times;
    HalfDouble(u - v, p);
    TimesAdd(u, v, p);
    TimesAdd(r, s, e);
  }

  /** A step replaces the two errors by sums of themselves. */
  lemma ErrorsAdvance(e: nat, t: Kaliski, k: nat)
    ensures var (a, b) := (LeftError(e, t, k), RightError(e, t, k));
            var (a', b') := (LeftError(e, Advance(t), k + 1), RightError(e, Advance(t), k + 1));
            if t.u % 2 == 0 then a' == a && b' == b + b
            else if t.v % 2 == 0 then a' == a + a && b' == b
            else if t.u > t.v then a' == a + b && b' == b + b
            else a' == a + a && b' == a + b
  {
    hide Times, Pow2;
    var p := Pow2(k);
    Pow2Step(k);
    if t.u % 2 == 0 {
      HalfDouble(t.u, p);
      BothDoubled(e, t.s, t.v, p);
    } else if t.v % 2 == 0 {
      HalfDouble(t.v, p);
      BothDoubled(e, t.r, t.u, p);
    } else if t.u > t.v {
      ErrorsJoined(e, t.r, t.s, t.u, t.v, p);
      BothDoubled(e, t.s, t.v, p);
    } else {
      ErrorsJoined(e, t.s, t.r, t.v, t.u, p);
      BothDoubled(e, t.r, t.u, p);
    }
  }

  lemma CongruentKept(e: nat, t: Kaliski, k: nat)
    requires Congruent(e, t, k)
    ensures Congruent(e, Advance(t), k + 1)
  {
    hide Cong, LeftError, RightError, Advance;
    var a, b := LeftError(e, t, k), RightError(e, t, k);
    ErrorsAdvance(e, t, k);
    CongAdd(a, 0, a, 0);
    CongAdd(a, 0, b, 0);
    CongAdd(b, 0, b, 0);
  }

  // ----- how many steps -----

  /** What u*v can be at most after k steps. */
  function Ceiling(e: nat, k: nat): (c: nat)
  {
    if k == 0 then TimesPositive(P, e); Times(P, e) else Ceiling(e, k - 1) / 2
  }

  /** What u + v must be at least after k steps. */
  function Floor(e: nat, k: nat): nat { if k == 0 then P + e else (Floor(e, k - 1) + 1) / 2 }

  /** u*v shrinks at least by half in a step, u+v at most by half. */
  ghost predicate Paced(e: nat, t: Kaliski, k: nat)
  {
    Times(t.u, t.v) <= Ceiling(e, k) && Floor(e, k) <= t.u + t.v
  }

  lemma PacedStart(e: nat)
    ensures Paced(e, Start(e), 0)
  {
  }

  lemma ProductHalves(t: Kaliski)
    ensures 2 * Times(Advance(t).u, Advance(t).v) <= Times(t.u, t.v)
    ensures t.u + t.v <= 2 * (Advance(t).u + Advance(t).v)
  {
    hide Times;
    var a := Advance(t);
    Doubled(a.u, a.v);
    if t.u % 2 == 0 {
    } else if t.v % 2 == 0 {
    } else if t.u > t.v {
      TimesGrows(t.u - t.v, t.u, t.v);
    } else {
      TimesGrows(t.v - t.u, t.v, t.u);
    }
  }

  lemma PacedKept(e: nat, t: Kaliski, k: nat)
    requires Bezout(e, t) && t.v >= 1 && Paced(e, t, k)
    ensures Paced(e, Advance(t), k + 1)
  {
    hide Times, Advance, Bezout;
    ProductHalves(t);
  }

  lemma {:induction false} CeilingFalls(e: nat, k: nat)
    ensures Times(Ceiling(e, k), Pow2(k)) <= Times(P, e)
  {
    hide Times;
    if k == 0 {
      TimesUnit(Times(P, e));
    } else {
      CeilingFalls(e, k - 1);
      Doubled(Ceiling(e, k), Pow2(k - 1));
      TimesGrows(2 * Ceiling(e, k), Ceiling(e, k - 1), Pow2(k - 1));
    }
  }

  lemma {:induction false} FloorHolds(e: nat, k: nat)
    ensures P + e <= Times(Floor(e, k), Pow2(k))
  {
    hide Times;
    if k == 0 {
      TimesUnit(P + e);
    } else {
      FloorHolds(e, k - 1);
      Doubled(Floor(e, k), Pow2(k - 1));
      TimesGrows(Floor(e, k - 1), 2 * Floor(e, k), Pow2(k - 1));
    }
  }

  /** Before any step that runs, k is below 762. */
  lemma FewSteps(e: nat, t: Kaliski, k: nat)
    requires 1 <= e < P && Bezout(e, t) && t.v >= 1 && Paced(e, t, k)
    ensures k < 762
  {
    hide Times, Pow2, Ceiling, Floor;
    Sizes();
    TimesPositive(t.u, t.v);
    CeilingFalls(e, k);
    TimesPositive(Ceiling(e, k), Pow2(k));
    TimesGrows(P, Pow2(381), e);
    TimesGrows(e, Pow2(381), Pow2(381));
    Pow2Add(381, 381);
    StrictTimes(P, Pow2(381), e);
    if k >= 762 {
      Pow2Grows(762, k);
    }
  }

  lemma StrictTimes(a: nat, b: nat, c: nat)
    requires a < b && c >= 1
    ensures Times(a, c) < Times(b, c)
  {
    hide Times;
    TimesAdd(b, a, c);
    TimesPositive(b - a, c);
  }

  // ----- divisors -----

  ghost predicate Divides(d: int, n: int) { exists q: int :: n == Times(d, q) }

  ghost predicate Coprime(e: int) { forall d: nat :: Divides(d, e) && Divides(d, P) ==> d == 1 }

  lemma DividesSum(d: int, a: int, b: int)
    requires Divides(d, a) && Divides(d, b)
    ensures Divides(d, a + b) && Divides(d, a - b)
  {
    hide Times;
    var i :| a == Times(d, i);
    var j :| b == Times(d, j);
    TimesAdd(i, j, d);
    assert a + b == Times(d, i + j);
    assert a - b == Times(d, i - j);
  }

  lemma DividesTimes(d: int, a: int, c: int)
    requires Divides(d, a)
    ensures Divides(d, Times(a, c))
  {
    hide Times;
    var i :| a == Times(d, i);
    TimesAssociates(d, i, c);
    assert Times(a, c) == Times(d, Times(i, c));
  }

  /** An odd divisor of twice a number divides the number. */
  lemma OddDividesHalf(d: int, n: int)
    requires d % 2 == 1 && Divides(d, n + n)
    ensures Divides(d, n)
  {
    hide Times;
    var q :| n + n == Times(d, q);
    TimesProduct(d, q);
    assert d == 2 * (d / 2) + 1;
    assert q == 2 * (n - (d / 2) * q);
    var h := n - (d / 2) * q;
    assert n + n == d * (2 * h);
    TimesProduct(d, h);
    assert n == Times(d, h);
  }

  lemma {:induction false} OddDividesScaled(d: int, n: int, k: nat)
    requires d % 2 == 1 && Divides(d, Times(n, Pow2(k)))
    ensures Divides(d, n)
  {
    hide Times, Divides;
    if k == 0 {
      TimesUnit(n);
    } else {
      Doubled(n, Pow2(k - 1));
      OddDividesHalf(d, Times(n, Pow2(k - 1)));
      OddDividesScaled(d, n, k - 1);
    }
  }

  /** Every common divisor of u and v divides p and e. */
  ghost predicate KeepsDivisors(e: nat, t: Kaliski)
  {
    forall d: int :: Divides(d, t.u) && Divides(d, t.v) ==> Divides(d, P) && Divides(d, e)
  }

  lemma DivisorsKept(e: nat, t: Kaliski)
    requires KeepsDivisors(e, t)
    ensures KeepsDivisors(e, Advance(t))
  {
    hide Divides;
    var a := Advance(t);
    forall d: int | Divides(d, a.u) && Divides(d, a.v) ensures Divides(d, P) && Divides(d, e) {
      DividesSum(d, a.u, a.u);
      DividesSum(d, a.v, a.v);
      DividesSum(d, a.u + a.u, a.v);
      DividesSum(d, a.v + a.v, a.u);
    }
  }

  // ----- the end of the first phase -----

  ghost predicate PhaseOne(e: nat, t: Kaliski, k: nat)
  {
    Bezout(e, t) && Congruent(e, t, k) && Paced(e, t, k) && KeepsDivisors(e, t)
  }

  lemma PhaseOneStart(e: nat)
    requires 1 <= e < P
    ensures PhaseOne(e, Start(e), 0)
  {
    hide Bezout, Congruent, Paced, Divides;
    BezoutStart(e);
    CongruentStart(e);
    PacedStart(e);
  }

  lemma PhaseOneKept(e: nat, t: Kaliski, k: nat)
    requires PhaseOne(e, t, k) && t.v >= 1
    ensures PhaseOne(e, Advance(t), k + 1)
  {
    hide Bezout, Congruent, Paced, KeepsDivisors, Advance;
    BezoutKept(e, t);
    CongruentKept(e, t, k);
    PacedKept(e, t, k);
    DivisorsKept(e, t);
  }

  /** When e and p are coprime the surviving u is 1, so at least 381 steps were made. */
  lemma EndsAtOne(e: nat, t: Kaliski, k: nat)
    requires 1 <= e < P && PhaseOne(e, t, k) && t.v == 0 && Coprime(e)
    ensures t.u == 1 && k >= 381
  {
    hide Cong, Pow2, Times, Floor, Ceiling;
    TimesUnit(t.u);
    TimesAdd(0, 0, t.u);
    assert t.u == Times(t.u, 1) && t.v == Times(t.u, 0);
    assert Divides(t.u, t.u) && Divides(t.u, t.v);
    FloorHolds(e, k);
    TimesGrows(Floor(e, k), 1, Pow2(k));
    TimesUnit(Pow2(k));
    Sizes();
    Pow2Step(379);
    if k < 381 {
      Pow2Grows(k, 380);
    }
  }

  /** The left cofactor never vanishes modulo p, so the negation in the second phase is reduced. */
  lemma CofactorNotZero(e: nat, t: Kaliski, k: nat)
    requires 1 <= e < P && PhaseOne(e, t, k) && t.v == 0
    ensures t.r != 0 && t.r != P
  {
    if t.r == 0 || t.r == P {
      assert Cong(Times(e, t.r), 0) by { EitherVanishes(e, t.r); }
      VanishingScaled(t.u, e, t.r, k);
    }
  }

  lemma EitherVanishes(e: nat, r: nat)
    requires r == 0 || r == P
    ensures Cong(Times(e, r), 0)
  {
    hide Times, Multiple;
    TimesAdd(0, 0, e);
    MultipleIsTimes(e);
    MultipleAdd(0, 0);
    assert Times(e, r) == 0 + Multiple(if r == 0 then 0 else e);
  }

  /** u*2^k is no multiple of p when u is positive and below p. */
  lemma VanishingScaled(u: nat, e: nat, r: nat, k: nat)
    requires Cong(Times(e, r), 0) && Cong(Times(e, r) + Times(u, Pow2(k)), 0)
    ensures u == 0 || u >= P
  {
    hide Times, Pow2;
    CongAdd(Times(e, r) + Times(u, Pow2(k)), 0, Times(e, r), 0);
    var j :| Times(u, Pow2(k)) == 0 + Multiple(j);
    MultipleIsTimes(j);
    TimesCommutes(j, P);
    assert Divides(P, Times(u, Pow2(k)));
    OddDividesScaled(P, u, k);
    var q :| u == Times(P, q);
    DivisorSmall(u, q);
  }

  lemma DivisorSmall(u: nat, q: int)
    requires u == Times(P, q)
    ensures u == 0 || u >= P
  {
    hide Times;
    TimesProduct(P, q);
    MultipleGrows(q);
  }

  // ----- the second phase -----

  /** w is congruent to -r * 2^(m - k). */
  ghost predicate PhaseTwo(e: nat, w: nat, u: nat, m: nat)
  {
    w < P && Cong(Times(e, w), Times(u, Pow2(m)))
  }

  lemma PhaseTwoStart(e: nat, t: Kaliski, k: nat, r: nat)
    requires Congruent(e, t, k) && 0 < r < P && (r == t.r || r == t.r - P)
    ensures PhaseTwo(e, P - r, t.u, k)
  {
    hide Times, Cong, Pow2;
    EitherVanishes(e, P);
    TimesAdd(t.r, P, e);
    TimesAdd(P, r, e);
    CongAdd(LeftError(e, t, k), 0, Times(e, P), 0);
    CongAdd(LeftError(e, t, k), 0, 0, 0) by { ModulusVanishes(); }
    assert Cong(Times(e, r) + Times(t.u, Pow2(k)), 0);
    CongAdd(Times(e, P), 0, Times(e, r) + Times(t.u, Pow2(k)), 0);
    CongRefl(Times(t.u, Pow2(k)));
    CongAdd(Times(e, P) - (Times(e, r) + Times(t.u, Pow2(k))), 0, Times(t.u, Pow2(k)), Times(t.u, Pow2(k)));
  }

  lemma PhaseTwoKept(e: nat, w: nat, u: nat, m: nat)
    requires PhaseTwo(e, w, u, m)
    ensures PhaseTwo(e, Residue(w + w), u, m + 1)
  {
    hide Times, Cong, Pow2, Residue;
    var w' := Residue(w + w);
    Pow2Step(m);
    Doubled(u, Pow2(m));
    CongAdd(Times(e, w), Times(u, Pow2(m)), Times(e, w), Times(u, Pow2(m)));
    TimesAdd(w, w, e);
    CongTimes(w', w + w, e);
    TimesCommutes(w', e);
    TimesCommutes(w + w, e);
    CongTrans(Times(e, w'), Times(e, w + w), Times(u, Pow2(m + 1)));
  }

  // ----- what the result is -----

  /** 2^384 reduced: the Montgomery form of one. */
  const R1: nat := 0x15f65ec3fa80e4935c071a97a256ec6d77ce5853705257455f48985753c758baebf4000bc40c0002760900000002fffd

  lemma R1Cong()
    ensures R1 < P && Cong(R1, R) && Cong(R, R1)
  {
    assert R == R1 + Multiple(9);
    CongSym(R, R1);
  }

  /** An inverse up to 2^768 is an inverse for Montgomery multiplication. */
  lemma InverseMeaning(e: nat, w: nat)
    requires w < P
    ensures Cong(Times(e, w), Pow2(768)) <==> MontMul(w, e) == R1
  {
    hide Times, Cong, Scaled, Pow2, MontMul;
    Sizes();
    Pow2Add(384, 384);
    ScaledIsTimes(R);
    TimesCommutes(e, w);
    R1Cong();
    CongScaled(R1, R);
    CongScaled(R, R1);
    var m := MontMul(w, e);
    if Cong(Times(e, w), Pow2(768)) {
      CongTrans(Scaled(m), Times(w, e), Scaled(R));
      CancelR(m, R);
      CongTrans(m, R, R1);
      CongUnique(m, R1);
    }
    if m == R1 {
      CongSym(Scaled(m), Times(w, e));
      CongTrans(Times(w, e), Scaled(R1), Scaled(R));
    }
  }

  /** Nothing is an inverse of a number that shares a divisor with p. */
  lemma NoInverse(e: nat, w: nat)
    requires Cong(Times(e, w), Pow2(768))
    ensures Coprime(e)
  {
    hide Times, Pow2, Divides;
    forall d: nat | Divides(d, e) && Divides(d, P) ensures d == 1 {
      DividesTimes(d, e, w);
      var k :| Times(e, w) == Pow2(768) + Multiple(k);
      MultipleIsTimes(k);
      TimesCommutes(k, P);
      DividesTimes(d, P, k);
      DividesSum(d, Times(e, w), Multiple(k));
      OddDivisor(d);
      TimesUnit(Pow2(768));
      OddDividesScaled(d, 1, 768);
      UnitDivisor(d);
    }
  }

  lemma OddDivisor(d: nat)
    requires Divides(d, P)
    ensures d % 2 == 1
  {
    hide Times;
    var q :| P == Times(d, q);
    TimesProduct(d, q);
    var h := d / 2;
    assert P == (2 * h + d % 2) * q == 2 * (h * q) + (d % 2) * q;
  }

  lemma UnitDivisor(d: nat)
    requires Divides(d, 1)
    ensures d == 1
  {
    hide Times;
    var q :| 1 == Times(d, q);
    TimesProduct(d, q);
    assert q >= 1;
    TimesPositive(d, q);
  }
}
