/** The quadratic extension: pairs c0 + c1*i with i*i == -1, multiplied and squared through shared temporaries. */
module BlsFp2 {
  import opened Arithmetic
  import opened BlsMontgomery
  import opened BlsModular
  import opened BlsField

  // ----- the schoolbook product on Montgomery residues -----

  function Fp2Product(a: (nat, nat), b: (nat, nat)): (c: (nat, nat))
  {
    (Residue(MontMul(a.0, b.0) - MontMul(a.1, b.1)), Residue(MontMul(a.0, b.1) + MontMul(a.1, b.0)))
  }

  /** A residue of a sum or difference of Montgomery products, times 2^384. */
  lemma ScaledSum(a: nat, b: nat, c: nat, d: nat)
    ensures Cong(Scaled(Residue(MontMul(a, b) + MontMul(c, d))), Times(a, b) + Times(c, d))
    ensures Cong(Scaled(Residue(MontMul(a, b) - MontMul(c, d))), Times(a, b) - Times(c, d))
  {
    hide *;
    var m: int := MontMul(a, b);
    var n: int := MontMul(c, d);
    ScaledAdd(m, n);
    CongAdd(Scaled(m), Times(a, b), Scaled(n), Times(c, d));
    CongScaled(Residue(m + n), m + n);
    CongScaled(Residue(m - n), m - n);
    CongTrans(Scaled(Residue(m + n)), Scaled(m) + Scaled(n), Times(a, b) + Times(c, d));
    CongTrans(Scaled(Residue(m - n)), Scaled(m) - Scaled(n), Times(a, b) - Times(c, d));
  }

  lemma CrossTerms(a0: int, a1: int, b0: int, b1: int)
    ensures Times(a0 + a1, b0 + b1) - (Times(a0, b0) + Times(a1, b1)) == Times(a0, b1) + Times(a1, b0)
    ensures Times(a0 + a1, b0 - b1) == Times(a0, b0) - Times(a1, b1) + (Times(a1, b0) - Times(a0, b1))
  {
    hide *;
    TimesAdd(a0, a1, b0 + b1);
    TimesAdd(a0, a1, b0 - b1);
    TimesAdd(b0, b1, a0);
    TimesAdd(b0, b1, a1);
  }

  /** The one-multiplication form of the cross term. */
  lemma Karatsuba(a: (nat, nat), b: (nat, nat))
    ensures Residue(MontMul(Residue(a.0 + a.1), Residue(b.0 + b.1)) - Residue(MontMul(a.0, b.0) + MontMul(a.1, b.1)))
            == Residue(MontMul(a.0, b.1) + MontMul(a.1, b.0))
  {
    hide *;
    var s, t := Residue(a.0 + a.1), Residue(b.0 + b.1);
    var m: int := MontMul(s, t);
    var n: int := Residue(MontMul(a.0, b.0) + MontMul(a.1, b.1));
    var z := Residue(m - n);
    CongMul(s, a.0 + a.1, t, b.0 + b.1);
    CongTrans(Scaled(m), Times(s, t), Times(a.0 + a.1, b.0 + b.1));
    ScaledSum(a.0, b.0, a.1, b.1);
    CongAdd(Scaled(m), Times(a.0 + a.1, b.0 + b.1), Scaled(n), Times(a.0, b.0) + Times(a.1, b.1));
    CongScaled(z, m - n);
    ScaledAdd(m, n);
    CrossTerms(a.0, a.1, b.0, b.1);
    CongTrans(Scaled(z), Scaled(m) - Scaled(n), Times(a.0, b.1) + Times(a.1, b.0));
    ScaledSum(a.0, b.1, a.1, b.0);
    SameScaled(z, Residue(MontMul(a.0, b.1) + MontMul(a.1, b.0)), Times(a.0, b.1) + Times(a.1, b.0));
  }

  /** Squaring with unreduced sums: (a0 + a1)(a0 - a1) and 2*a0*a1. */
  lemma LazySquare(a: (nat, nat))
    ensures MontMul(a.0 + a.1, Residue(a.0 - a.1)) == Residue(MontMul(a.0, a.0) - MontMul(a.1, a.1))
    ensures MontMul(a.0 + a.0, a.1) == Residue(MontMul(a.0, a.1) + MontMul(a.1, a.0))
  {
    hide *;
    var d := Residue(a.0 - a.1);
    var m := MontMul(a.0 + a.1, d);
    CongMul(d, a.0 - a.1, a.0 + a.1, a.0 + a.1) by { CongRefl(a.0 + a.1); }
    TimesCommutes(d, a.0 + a.1);
    TimesCommutes(a.0 - a.1, a.0 + a.1);
    TimesCommutes(a.0, a.1);
    CrossTerms(a.0, a.1, a.0, a.1);
    CongTrans(Scaled(m), Times(a.0 + a.1, d), Times(a.0, a.0) - Times(a.1, a.1));
    ScaledSum(a.0, a.0, a.1, a.1);
    SameScaled(m, Residue(MontMul(a.0, a.0) - MontMul(a.1, a.1)), Times(a.0, a.0) - Times(a.1, a.1));
    ScaledSum(a.0, a.1, a.1, a.0);
    TimesAdd(a.0, a.0, a.1);
    SameScaled(MontMul(a.0 + a.0, a.1), Residue(MontMul(a.0, a.1) + MontMul(a.1, a.0)), Times(a.0, a.1) + Times(a.1, a.0));
  }

  // ----- in place -----

  /** Two six-limb buffers. */
  datatype Fe2 = Fe2(c0: array<U64>, c1: array<U64>)

  ghost predicate Storage(a: Fe2) { a.c0.Length == a.c1.Length == 6 && a.c0 != a.c1 }

  /** Two elements share all their storage or none. */
  ghost predicate SameOrApart(a: Fe2, b: Fe2) { a == b || {a.c0, a.c1} !! {b.c0, b.c1} }

  ghost predicate Reduced(a: Fe2)
    requires Storage(a)
    reads a.c0, a.c1
  {
    Val(a.c0[..]) < P && Val(a.c1[..]) < P
  }

  ghost function Pair(a: Fe2): (nat, nat)
    requires Storage(a)
    reads a.c0, a.c1
  {
    (Val(a.c0[..]), Val(a.c1[..]))
  }

  /** The sum of two reduced numbers fits six limbs. */
  lemma UnreducedSum(x: seq<U64>, y: seq<U64>)
    requires |x| == |y| == 6 && Val(x) < P && Val(y) < P
    ensures Val(AddLimbs(x, y).0) == Val(x) + Val(y)
  {
    hide Horner;
    ValBound(AddLimbs(x, y).0);
  }

  class Fp2 {
    const t0: array<U64>
    const t1: array<U64>
    const t2: array<U64>
    const t3: array<U64>

    ghost predicate Valid() {
      && t0.Length == t1.Length == t2.Length == t3.Length == 6
      && t0 != t1 && t0 != t2 && t0 != t3 && t1 != t2 && t1 != t3 && t2 != t3
    }

    ghost function Temporaries(): set<array<U64>> { {t0, t1, t2, t3} }

    constructor ()
      ensures Valid() && fresh(Temporaries())
    {
      t0 := new U64[6];
      t1 := new U64[6];
      t2 := new U64[6];
      t3 := new U64[6];
    }

    /** c := a * b; c may be a or b. */
    method Mul(c: Fe2, a: Fe2, b: Fe2)
      requires Valid() && Storage(c) && Storage(a) && Storage(b)
      requires {c.c0, c.c1, a.c0, a.c1, b.c0, b.c1} !! Temporaries()
      requires SameOrApart(c, a) && SameOrApart(c, b)
      requires Reduced(a) && Reduced(b)
      modifies c.c0, c.c1, Temporaries()
      ensures Pair(c) == Fp2Product(old(Pair(a)), old(Pair(b)))
      ensures Reduced(c)
    {
      hide Val, MontMul, Residue, Cong, Scaled;
      ghost var x, y := Pair(a), Pair(b);
      BlsField.Mul(t1, a.c0, b.c0);
      BlsField.Mul(t2, a.c1, b.c1);
      Add(t0, a.c0, a.c1);
      Add(t3, b.c0, b.c1);
      Sub(c.c0, t1, t2);
      Add(t1, t1, t2);
      BlsField.Mul(t0, t0, t3);
      Sub(c.c1, t0, t1);
      Karatsuba(x, y);
    }

    /** c := a * a through unreduced operands; c may be a. */
    method Square(c: Fe2, a: Fe2)
      requires Valid() && Storage(c) && Storage(a)
      requires {c.c0, c.c1, a.c0, a.c1} !! Temporaries()
      requires SameOrApart(c, a)
      requires Reduced(a)
      modifies c.c0, c.c1, Temporaries()
      ensures Pair(c) == Fp2Product(old(Pair(a)), old(Pair(a)))
      ensures Reduced(c)
    {
      hide Val, MontMul, Residue, AddLimbs, Cong, Scaled;
      ghost var x, y := a.c0[..], a.c1[..];
      UnreducedSum(x, y);
      UnreducedSum(x, x);
      Ladd(t0, a.c0, a.c1);
      Sub(t1, a.c0, a.c1);
      Ladd(t2, a.c0, a.c0);
      assert a.c1[..] == y && t2[..] == AddLimbs(x, x).0;
      BlsField.Mul(c.c0, t0, t1);
      assert a.c1[..] == y && t2[..] == AddLimbs(x, x).0;
      BlsField.Mul(c.c1, t2, a.c1);
      LazySquare((Val(x), Val(y)));
    }
  }

  // ----- what the residues mean -----

  /** A Montgomery product stands for the product: Unscaled gives the number a residue stands for. */
  lemma MeaningOfProduct(a: nat, b: nat)
    ensures Unscaled(MontMul(a, b)) == Residue(Times(Unscaled(a), Unscaled(b)))
  {
    hide *;
    var m, x, y := MontMul(a, b), Unscaled(a), Unscaled(b);
    var z, w := Residue(Times(x, y)), Unscaled(m);
    CongMul(Scaled(x), a, Scaled(y), b);
    ScaledTimes(x, Scaled(y));
    ScaledTimes(x, y);
    CongScaled(z, Times(x, y));
    CongScaled(Scaled(z), Scaled(Times(x, y)));
    CongTrans(Scaled(Scaled(z)), Scaled(Scaled(Times(x, y))), Times(a, b));
    CongScaled(Scaled(w), m);
    CongTrans(Scaled(Scaled(w)), Scaled(m), Times(a, b));
    CongSym(Scaled(Scaled(z)), Times(a, b));
    CongTrans(Scaled(Scaled(w)), Times(a, b), Scaled(Scaled(z)));
    CancelR(Scaled(w), Scaled(z));
    CancelR(w, z);
    CongUnique(w, z);
  }

  /** Sums and differences stand for sums and differences. */
  lemma MeaningOfSum(a: nat, b: nat)
    ensures Unscaled(Residue(a + b)) == Residue(Unscaled(a) + Unscaled(b))
    ensures Unscaled(Residue(a - b)) == Residue(Unscaled(a) - Unscaled(b))
  {
    hide *;
    var x: int := Unscaled(a);
    var y: int := Unscaled(b);
    ScaledAdd(x, y);
    CongAdd(Scaled(x), a, Scaled(y), b);
    CongScaled(Residue(x + y), x + y);
    CongScaled(Residue(x - y), x - y);
    CongTrans(Scaled(Residue(x + y)), Scaled(x) + Scaled(y), a + b);
    CongTrans(Scaled(Residue(x - y)), Scaled(x) - Scaled(y), a - b);
    CongTrans(Scaled(Unscaled(Residue(a + b))), Residue(a + b), a + b);
    CongTrans(Scaled(Unscaled(Residue(a - b))), Residue(a - b), a - b);
    SameScaled(Unscaled(Residue(a + b)), Residue(x + y), a + b);
    SameScaled(Unscaled(Residue(a - b)), Residue(x - y), a - b);
  }

  lemma ResidueOfResidues(p: int, q: int)
    ensures Cong(Residue(Residue(p) - Residue(q)), p - q) && Cong(Residue(Residue(p) + Residue(q)), p + q)
  {
    hide *;
    var r: int := Residue(p);
    var s: int := Residue(q);
    CongAdd(r, p, s, q);
    CongTrans(Residue(r - s), r - s, p - q);
    CongTrans(Residue(r + s), r + s, p + q);
  }

  /** The pair product is complex multiplication of what the pairs stand for. */
  lemma Fp2Meaning(a: (nat, nat), b: (nat, nat))
    ensures var (x0, x1, y0, y1) := (Unscaled(a.0), Unscaled(a.1), Unscaled(b.0), Unscaled(b.1));
            && Cong(Unscaled(Fp2Product(a, b).0), Times(x0, y0) - Times(x1, y1))
            && Cong(Unscaled(Fp2Product(a, b).1), Times(x0, y1) + Times(x1, y0))
  {
    hide Unscaled, MontMul, Residue, Cong, Times, Scaled;
    MeaningOfSum(MontMul(a.0, b.0), MontMul(a.1, b.1));
    MeaningOfSum(MontMul(a.0, b.1), MontMul(a.1, b.0));
    MeaningOfProduct(a.0, b.0);
    MeaningOfProduct(a.1, b.1);
    MeaningOfProduct(a.0, b.1);
    MeaningOfProduct(a.1, b.0);
    ResidueOfResidues(Times(Unscaled(a.0), Unscaled(b.0)), Times(Unscaled(a.1), Unscaled(b.1)));
    ResidueOfResidues(Times(Unscaled(a.0), Unscaled(b.1)), Times(Unscaled(a.1), Unscaled(b.0)));
  }
}
