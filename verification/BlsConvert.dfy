/** Into and out of Montgomery form, and exponentiation by squaring. */
module BlsConvert {
  import opened Arithmetic
  import opened BlsMontgomery
  import opened BlsModular
  import opened BlsField
  import opened BlsDigits
  import opened BlsKaliski
  import opened BlsInverse

  /** 2^768 reduced. */
  const R2: nat := 0x11988fe592cae3aa9a793e85b519952d67eb88a9939d83c08de5476c4c95b6d50a76e6a609d104f1f4df1f341c341746

  lemma R2Cong()
    ensures R2 < P && Cong(R2, Scaled(R))
  {
    assert Scaled(R) == R2 + Multiple(0x9d835d2f3cc9e45ce28101b0cc7a6ba291b82741ff6a0a94bdf4771e0286779d3997167a058f1c07b13e207f56591ba2e);
    CongSym(Scaled(R), R2);
  }

  /** Multiplying by 2^768 scales a number by 2^384; multiplying by one undoes it. */
  lemma Conversions(a: nat)
    ensures MontMul(a, R2) == Residue(Scaled(a))
    ensures MontMul(a, 1) == Unscaled(a)
  {
    hide *;
    R2Cong();
    var s := Residue(Scaled(a));
    CongScaled(s, Scaled(a));
    ScaledIsTimes(a);
    ScaledTimes(a, R);
    CongTimes(R2, Scaled(R), a);
    TimesCommutes(R2, a);
    TimesCommutes(Scaled(R), a);
    CongSym(Times(a, R2), Times(a, Scaled(R)));
    CongTrans(Scaled(s), Scaled(Scaled(a)), Times(a, R2));
    MontUnique(s, a, R2);
    TimesUnit(a);
    MontUnique(Unscaled(a), a, 1);
  }

  /** Each conversion undoes the other on reduced numbers. */
  lemma RoundTrip(a: nat)
    requires a < P
    ensures MontMul(MontMul(a, R2), 1) == a
    ensures MontMul(MontMul(a, 1), R2) == a
  {
    hide *;
    Conversions(a);
    var s, w := Residue(Scaled(a)), Unscaled(a);
    Conversions(s);
    Conversions(w);
    CongSym(s, Scaled(a));
    SameScaled(Unscaled(s), a, s);
    CongSym(Scaled(w), a);
    ResidueUnique(a, Scaled(w));
  }

  method LoadR2() returns (q: array<U64>)
    ensures fresh(q) && q.Length == 6 && Val(q[..]) == R2
  {
    q := new U64[6];
    q[0], q[1], q[2] := 0xf4df1f341c341746, 0x0a76e6a609d104f1, 0x8de5476c4c95b6d5;
    q[3], q[4], q[5] := 0x67eb88a9939d83c0, 0x9a793e85b519952d, 0x11988fe592cae3aa;
  }

  method LoadR1() returns (q: array<U64>)
    ensures fresh(q) && q.Length == 6 && Val(q[..]) == R1
  {
    q := new U64[6];
    q[0], q[1], q[2] := 0x760900000002fffd, 0xebf4000bc40c0002, 0x5f48985753c758ba;
    q[3], q[4], q[5] := 0x77ce585370525745, 0x5c071a97a256ec6d, 0x15f65ec3fa80e493;
  }

  /** c may be a. */
  method ToMont(c: array<U64>, a: array<U64>)
    requires c.Length == a.Length == 6
    modifies c
    ensures Val(c[..]) == Residue(Scaled(Val(old(a[..]))))
  {
    hide Val, MontMul, Residue, Scaled;
    ghost var n := Val(a[..]);
    var q := LoadR2();
    R2Cong();
    Mul(c, a, q);
    Conversions(n);
  }

  /** c may be a. */
  method FromMont(c: array<U64>, a: array<U64>)
    requires c.Length == a.Length == 6
    modifies c
    ensures Val(c[..]) == Unscaled(Val(old(a[..])))
  {
    hide Val, MontMul, Unscaled;
    ghost var n := Val(a[..]);
    var q := FromWord(1);
    Mul(c, a, q);
    Conversions(n);
  }

  // ----- powers -----

  /** The n-th power for Montgomery multiplication. */
  function MontPow(a: nat, n: nat): (z: nat)
    ensures z < P
  {
    R1Cong();
    if n == 0 then R1 else MontMul(MontPow(a, n - 1), a)
  }

  /** The n-th power. */
  function Pow(x: int, n: nat): int { if n == 0 then 1 else Times(Pow(x, n - 1), x) }

  lemma MontUnit(a: nat)
    requires a < P
    ensures MontMul(R1, a) == a == MontMul(a, R1)
  {
    hide *;
    R1Cong();
    CongTimes(R1, R, a);
    ScaledIsTimes(a);
    TimesCommutes(R, a);
    TimesCommutes(R1, a);
    CongSym(Times(a, R1), Scaled(a));
    MontUnique(a, a, R1);
    MontUnique(a, R1, a);
  }

  lemma MontAssociates(a: nat, b: nat, c: nat)
    ensures MontMul(MontMul(a, b), c) == MontMul(a, MontMul(b, c))
  {
    hide *;
    var x, y := MontMul(a, b), MontMul(b, c);
    var l, r := MontMul(x, c), MontMul(a, y);
    CongScaled(Scaled(l), Times(x, c));
    CongTimes(Scaled(x), Times(a, b), c);
    ScaledTimes(x, c);
    TimesAssociates(a, b, c);
    CongTrans(Scaled(Scaled(l)), Scaled(Times(x, c)), Times(a, Times(b, c)));
    CongScaled(Scaled(r), Times(a, y));
    CongTimes(Scaled(y), Times(b, c), a);
    ScaledTimes(a, y);
    TimesCommutes(Scaled(y), a);
    TimesCommutes(Times(b, c), a);
    CongTrans(Scaled(Scaled(r)), Scaled(Times(a, y)), Times(a, Times(b, c)));
    CongSym(Scaled(Scaled(r)), Times(a, Times(b, c)));
    CongTrans(Scaled(Scaled(l)), Times(a, Times(b, c)), Scaled(Scaled(r)));
    CancelR(Scaled(l), Scaled(r));
    CancelR(l, r);
    CongUnique(l, r);
  }

  lemma {:induction false} MontPowAdd(a: nat, m: nat, n: nat)
    ensures MontPow(a, m + n) == MontMul(MontPow(a, m), MontPow(a, n))
    decreases n
  {
    hide MontMul;
    if n == 0 {
      MontUnit(MontPow(a, m));
    } else {
      MontPowAdd(a, m, n - 1);
      MontAssociates(MontPow(a, m), MontPow(a, n - 1), a);
    }
  }

  /** A Montgomery power stands for the power. */
  lemma {:induction false} PowMeaning(a: nat, n: nat)
    ensures Unscaled(MontPow(a, n)) == Residue(Pow(Unscaled(a), n))
  {
    hide MontMul, Unscaled, Residue, Cong, Scaled, Times;
    if n == 0 {
      R1Cong();
      ScaledOne();
      CongSym(R1, R);
      CongTrans(Scaled(1), R, R1) by { CongRefl(R); }
      SameScaled(Unscaled(R1), 1, R1);
      CongRefl(1);
      ResidueUnique(1, 1);
    } else {
      PowMeaning(a, n - 1);
      var x, p := Unscaled(a), Pow(Unscaled(a), n - 1);
      PowStep(MontPow(a, n - 1), a, p);
    }
  }

  lemma ScaledOne()
    ensures Scaled(1) == R
  {
  }

  lemma PowStep(m: nat, a: nat, p: int)
    requires Unscaled(m) == Residue(p)
    ensures Unscaled(MontMul(m, a)) == Residue(Times(p, Unscaled(a)))
  {
    hide *;
    var z, x := Unscaled(MontMul(m, a)), Unscaled(a);
    CongTimes(Residue(p), p, x);
    CongMul(Scaled(Unscaled(m)), m, Scaled(x), a);
    ScaledTimes(Unscaled(m), Scaled(x));
    ScaledTimes(Unscaled(m), x);
    CongScaled(Scaled(z), MontMul(m, a));
    CongTrans(Scaled(Scaled(z)), Scaled(MontMul(m, a)), Times(m, a));
    CongSym(Scaled(Scaled(Times(Unscaled(m), x))), Times(m, a));
    CongTrans(Scaled(Scaled(z)), Times(m, a), Scaled(Scaled(Times(Unscaled(m), x))));
    CancelR(Scaled(z), Scaled(Times(Unscaled(m), x)));
    CancelR(z, Times(Unscaled(m), x));
    CongTrans(z, Times(Unscaled(m), x), Times(p, x));
    ResidueUnique(z, Times(p, x));
  }

  lemma {:induction false} AllShifted(e: nat, i: nat)
    requires i >= BitLen(e)
    ensures Shift(e, 2, i) == 0
    decreases e, i
  {
    if e == 0 {
      if i > 0 {
        AllShifted(0, i - 1);
      }
    } else {
      AllShifted(e / 2, i - 1);
      ShiftTwice(e, i - 1);
    }
  }

  lemma {:induction false} ShiftTwice(e: nat, i: nat)
    ensures Shift(e, 2, i + 1) == Shift(e / 2, 2, i)
  {
    if i > 0 {
      ShiftTwice(e, i - 1);
    }
  }

  /** Left-to-right square and multiply, one square more than the exponent has digits; c may be a. */
  method Exp(c: array<U64>, a: array<U64>, e: nat)
    requires c.Length == a.Length == 6 && Val(a[..]) < P
    modifies c
    ensures Val(c[..]) == MontPow(Val(old(a[..])), e)
    ensures Unscaled(Val(c[..])) == Residue(Pow(Unscaled(Val(old(a[..]))), e))
  {
    hide Val, MontMul, Unscaled, Residue, Pow, Cong, Times, Scaled;
    ghost var x := Val(a[..]);
    var z := LoadR1();
    var i: int := BitLen(e);
    AllShifted(e, i + 1);
    while i >= 0
      invariant -1 <= i
      invariant fresh(z) && z.Length == 6 && Val(a[..]) == x
      invariant Val(z[..]) == MontPow(x, Shift(e, 2, i + 1))
      decreases i + 1
    {
      var d := Shift(e, 2, i);
      MontPowAdd(x, d / 2, d / 2);
      Mul(z, z, z);
      if d % 2 == 1 {
        Mul(z, z, a);
      }
      i := i - 1;
    }
    Copy(c, z);
    PowMeaning(x, e);
  }
}
