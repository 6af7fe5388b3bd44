/**
 * Congruence modulo the field modulus, with explicit multiples. Products are named, so that proofs about
 * congruences never multiply large constants.
 */
module BlsModular {
  import opened Arithmetic
  import opened BlsMontgomery

  /** k times the modulus. */
  function Multiple(k: int): int { k * P }

  /** n times 2^384. */
  function Scaled(n: int): int { n * R }

  ghost predicate Cong(a: int, b: int) { exists k: int :: a == b + Multiple(k) }

  // ----- ring facts -----

  lemma MultipleAdd(j: int, k: int)
    ensures Multiple(j) + Multiple(k) == Multiple(j + k) && Multiple(0 - k) == 0 - Multiple(k) && Multiple(0) == 0
    ensures Multiple(1) == P
  {
  }

  lemma MultipleIsTimes(k: int)
    ensures Multiple(k) == Times(k, P)
  {
    hide Times;
    TimesProduct(k, P);
  }

  lemma ScaledAdd(a: int, b: int)
    ensures Scaled(a + b) == Scaled(a) + Scaled(b) && Scaled(a - b) == Scaled(a) - Scaled(b)
  {
  }

  lemma ScaledIsTimes(a: int)
    ensures Scaled(a) == Times(a, R)
  {
    hide Times;
    TimesProduct(a, R);
  }

  /** The factor moves in and out of products. */
  lemma ScaledTimes(a: int, b: int)
    ensures Times(Scaled(a), b) == Scaled(Times(a, b)) == Times(a, Scaled(b))
  {
    hide Scaled, Times;
    ScaledIsTimes(a);
    ScaledIsTimes(b);
    ScaledIsTimes(Times(a, b));
    TimesAssociates(a, R, b);
    TimesAssociates(a, b, R);
    TimesCommutes(R, b);
  }

  // ----- congruence -----

  lemma CongRefl(a: int)
    ensures Cong(a, a)
  {
    hide Multiple;
    MultipleAdd(0, 0);
    assert a == a + Multiple(0);
  }

  lemma CongSym(a: int, b: int)
    requires Cong(a, b)
    ensures Cong(b, a)
  {
    hide Multiple;
    var k :| a == b + Multiple(k);
    MultipleAdd(0, k);
    assert b == a + Multiple(0 - k);
  }

  lemma CongTrans(a: int, b: int, c: int)
    requires Cong(a, b) && Cong(b, c)
    ensures Cong(a, c)
  {
    hide Multiple;
    var k :| a == b + Multiple(k);
    var j :| b == c + Multiple(j);
    MultipleAdd(j, k);
    assert a == c + Multiple(j + k);
  }

  lemma CongAdd(a: int, b: int, c: int, d: int)
    requires Cong(a, b) && Cong(c, d)
    ensures Cong(a + c, b + d) && Cong(a - c, b - d)
  {
    hide Multiple;
    var k :| a == b + Multiple(k);
    var j :| c == d + Multiple(j);
    MultipleAdd(k, j);
    MultipleAdd(k, 0 - j);
    MultipleAdd(0, j);
    assert a + c == b + d + Multiple(k + j);
    assert a - c == b - d + Multiple(k + (0 - j));
  }

  lemma CongTimes(a: int, b: int, c: int)
    requires Cong(a, b)
    ensures Cong(Times(a, c), Times(b, c))
  {
    hide Multiple, Times;
    var k :| a == b + Multiple(k);
    TimesAdd(b, Multiple(k), c);
    MultipleIsTimes(k);
    MultipleIsTimes(Times(k, c));
    TimesAssociates(k, P, c);
    TimesAssociates(k, c, P);
    TimesCommutes(P, c);
    assert Times(a, c) == Times(b, c) + Multiple(Times(k, c));
  }

  lemma CongMul(a: int, b: int, c: int, d: int)
    requires Cong(a, b) && Cong(c, d)
    ensures Cong(Times(a, c), Times(b, d))
  {
    hide Cong, Times;
    CongTimes(a, b, c);
    CongTimes(c, d, b);
    TimesCommutes(b, c);
    TimesCommutes(b, d);
    CongTrans(Times(a, c), Times(b, c), Times(b, d));
  }

  lemma CongScaled(a: int, b: int)
    requires Cong(a, b)
    ensures Cong(Scaled(a), Scaled(b))
  {
    hide Cong, Times, Scaled;
    CongTimes(a, b, R);
    ScaledIsTimes(a);
    ScaledIsTimes(b);
  }

  lemma MultipleGrows(k: int)
    ensures k >= 1 ==> Multiple(k) >= P
    ensures k <= -1 ==> Multiple(k) + P <= 0
  {
  }

  /** Congruent reduced values are equal. */
  lemma CongUnique(a: nat, b: nat)
    requires Cong(a, b) && a < P && b < P
    ensures a == b
  {
    hide Multiple;
    var k :| a == b + Multiple(k);
    MultipleGrows(k);
    MultipleAdd(0, 0);
  }

  // ----- residues -----

  lemma Divide(a: int)
    ensures a % P == a + Multiple(0 - a / P) && 0 <= a % P < P
  {
  }

  /** The residue of a number. */
  function Residue(a: int): (r: nat)
    ensures r < P && Cong(r, a)
  {
    Divide(a);
    a % P
  }

  lemma ResidueUnique(a: nat, b: int)
    requires Cong(a, b) && a < P
    ensures a == Residue(b)
  {
    hide Cong, Residue;
    CongSym(Residue(b), b);
    CongTrans(a, b, Residue(b));
    CongUnique(a, Residue(b));
  }

  // ----- the Montgomery factor -----

  lemma RInverse()
    ensures Cong(Scaled(R_INVERSE), 1)
  {
    assert Scaled(R_INVERSE) == 1 + Multiple(0xceb06106feaafc9468b316fee268cf5819ecca0e8eb2db4c16ef2ef0c8e30b48286adb92d9d113e889f3fffcfffcfffd);
  }

  /** Scaling undoes a multiplication by the inverse of the factor. */
  lemma Unscale(a: int)
    ensures Cong(Times(Scaled(a), R_INVERSE), a)
  {
    hide Cong, Times, Scaled;
    ScaledTimes(a, R_INVERSE);
    RInverse();
    CongTimes(Scaled(R_INVERSE), 1, a);
    TimesCommutes(Scaled(R_INVERSE), a);
    TimesUnit(a);
  }

  /** The factor can be cancelled. */
  lemma CancelR(a: int, b: int)
    requires Cong(Scaled(a), Scaled(b))
    ensures Cong(a, b)
  {
    hide Cong, Times, Scaled;
    CongTimes(Scaled(a), Scaled(b), R_INVERSE);
    Unscale(a);
    Unscale(b);
    CongSym(Times(Scaled(a), R_INVERSE), a);
    CongTrans(a, Times(Scaled(a), R_INVERSE), Times(Scaled(b), R_INVERSE));
    CongTrans(a, Times(Scaled(b), R_INVERSE), b);
  }

  /** Two reduced numbers that agree after scaling are equal. */
  lemma SameScaled(z: nat, w: nat, n: int)
    requires z < P && w < P && Cong(Scaled(z), n) && Cong(Scaled(w), n)
    ensures z == w
  {
    hide Cong, Scaled;
    CongSym(Scaled(w), n);
    CongTrans(Scaled(z), n, Scaled(w));
    CancelR(z, w);
    CongUnique(z, w);
  }

  /** The reduced number that, scaled, is congruent to n. */
  function Unscaled(n: int): (z: nat)
    ensures z < P && Cong(Scaled(z), n)
  {
    UnscaledCong(n);
    Residue(Times(n, R_INVERSE))
  }

  lemma UnscaledCong(n: int)
    ensures Cong(Scaled(Residue(Times(n, R_INVERSE))), n)
  {
    hide Cong, Times, Scaled, Residue;
    var t := Times(n, R_INVERSE);
    CongScaled(Residue(t), t);
    ScaledTimes(n, R_INVERSE);
    Unscale(n);
    CongTrans(Scaled(Residue(t)), Scaled(t), n);
  }

  /** The Montgomery product: the reduced z with z * 2^384 congruent to a * b. */
  function MontMul(a: nat, b: nat): (z: nat)
    ensures z < P && Cong(Scaled(z), Times(a, b))
  {
    Unscaled(Times(a, b))
  }

  /** It is the only one. */
  lemma MontUnique(z: nat, a: nat, b: nat)
    requires z < P && Cong(Scaled(z), Times(a, b))
    ensures z == MontMul(a, b)
  {
    hide Cong, Scaled, Times, MontMul;
    SameScaled(z, MontMul(a, b), Times(a, b));
  }
}
