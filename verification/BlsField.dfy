/** Field elements in place: addition, subtraction, doubling, negation and Montgomery multiplication. */
module BlsField {
  import opened Arithmetic
  import opened BlsLimbs
  import opened BlsModular
  import opened BlsMontgomery

  // ----- six-limb addition and subtraction -----

  function AddLimbs(x: seq<U64>, y: seq<U64>): (r: (seq<U64>, nat))
    requires |x| == |y| == 6
    ensures |r.0| == 6 && r.1 <= 1 && Val(r.0) + R * r.1 == Val(x) + Val(y)
  {
    var (z0, c0) := Add64(x[0], y[0], 0);
    var (z1, c1) := Add64(x[1], y[1], c0);
    var (z2, c2) := Add64(x[2], y[2], c1);
    var (z3, c3) := Add64(x[3], y[3], c2);
    var (z4, c4) := Add64(x[4], y[4], c3);
    var (z5, c5) := Add64(x[5], y[5], c4);
    ([z0, z1, z2, z3, z4, z5], c5)
  }

  function SubLimbs(x: seq<U64>, y: seq<U64>): (r: (seq<U64>, nat))
    requires |x| == |y| == 6
    ensures |r.0| == 6 && r.1 <= 1 && Val(r.0) - R * r.1 == Val(x) - Val(y)
  {
    var (z0, b0) := Sub64(x[0], y[0], 0);
    var (z1, b1) := Sub64(x[1], y[1], b0);
    var (z2, b2) := Sub64(x[2], y[2], b1);
    var (z3, b3) := Sub64(x[3], y[3], b2);
    var (z4, b4) := Sub64(x[4], y[4], b3);
    var (z5, b5) := Sub64(x[5], y[5], b4);
    ([z0, z1, z2, z3, z4, z5], b5)
  }

  /** The comparison with the modulus, most significant limb first. */
  predicate BelowModulus(z: seq<U64>)
    requires |z| == 6
  {
    z[5] < 1873798617647539866 || (z[5] == 1873798617647539866 && (
    z[4] < 5412103778470702295 || (z[4] == 5412103778470702295 && (
    z[3] < 7239337960414712511 || (z[3] == 7239337960414712511 && (
    z[2] < 7435674573564081700 || (z[2] == 7435674573564081700 && (
    z[1] < 2210141511517208575 || (z[1] == 2210141511517208575 && (
    z[0] < 13402431016077863595))))))))))
  }

  lemma BelowModulusCorrect(z: seq<U64>)
    requires |z| == 6
    ensures BelowModulus(z) <==> Val(z) < P
  {
  }

  // ----- in place; the output may be any of the operands -----

  /** Addition without reduction. */
  method Ladd(z: array<U64>, x: array<U64>, y: array<U64>)
    requires z.Length == x.Length == y.Length == 6
    modifies z
    ensures z[..] == AddLimbs(old(x[..]), old(y[..])).0
  {
    hide Add64, Val;
    ghost var s, t := x[..], y[..];
    var (z0, c0) := Add64(x[0], y[0], 0);
    z[0] := z0;
    assert x[1] == s[1] && y[1] == t[1];
    var (z1, c1) := Add64(x[1], y[1], c0);
    z[1] := z1;
    assert x[2] == s[2] && y[2] == t[2];
    var (z2, c2) := Add64(x[2], y[2], c1);
    z[2] := z2;
    assert x[3] == s[3] && y[3] == t[3];
    var (z3, c3) := Add64(x[3], y[3], c2);
    z[3] := z3;
    assert x[4] == s[4] && y[4] == t[4];
    var (z4, c4) := Add64(x[4], y[4], c3);
    z[4] := z4;
    assert x[5] == s[5] && y[5] == t[5];
    var (z5, _) := Add64(x[5], y[5], c4);
    z[5] := z5;
    assert z[..] == [z0, z1, z2, z3, z4, z5] == AddLimbs(s, t).0;
  }

  /** Subtraction without reduction; the borrow is the caller's to use. */
  method Lsub(z: array<U64>, x: array<U64>, y: array<U64>) returns (b: nat)
    requires z.Length == x.Length == y.Length == 6
    modifies z
    ensures z[..] == SubLimbs(old(x[..]), old(y[..])).0 && b == SubLimbs(old(x[..]), old(y[..])).1
  {
    hide Sub64, Val;
    ghost var s, t := x[..], y[..];
    var (z0, b0) := Sub64(x[0], y[0], 0);
    z[0] := z0;
    assert x[1] == s[1] && y[1] == t[1];
    var (z1, b1) := Sub64(x[1], y[1], b0);
    z[1] := z1;
    assert x[2] == s[2] && y[2] == t[2];
    var (z2, b2) := Sub64(x[2], y[2], b1);
    z[2] := z2;
    assert x[3] == s[3] && y[3] == t[3];
    var (z3, b3) := Sub64(x[3], y[3], b2);
    z[3] := z3;
    assert x[4] == s[4] && y[4] == t[4];
    var (z4, b4) := Sub64(x[4], y[4], b3);
    z[4] := z4;
    assert x[5] == s[5] && y[5] == t[5];
    var (z5, b5) := Sub64(x[5], y[5], b4);
    z[5] := z5;
    assert z[..] == [z0, z1, z2, z3, z4, z5] == SubLimbs(s, t).0;
    b := b5;
  }

  method LoadModulus() returns (q: array<U64>)
    ensures fresh(q) && q.Length == 6 && q[..] == Modulus
  {
    q := new U64[6];
    q[0], q[1], q[2] := 13402431016077863595, 2210141511517208575, 7435674573564081700;
    q[3], q[4], q[5] := 7239337960414712511, 5412103778470702295, 1873798617647539866;
  }

  /** One conditional subtraction of the modulus. */
  method Reduce(z: array<U64>)
    requires z.Length == 6
    modifies z
    ensures Val(z[..]) == if Val(old(z[..])) < P then Val(old(z[..])) else Val(old(z[..])) - P
  {
    hide Horner, AddLimbs, SubLimbs;
    BelowModulusCorrect(z[..]);
    ModulusValue();
    if !BelowModulus(z[..]) {
      var q := LoadModulus();
      ghost var before := z[..];
      var b := Lsub(z, z, q);
      ValBound(z[..]);
    }
  }

  /** Modular addition; the carry of the top limb is dropped and is never set for operands below the modulus. */
  method Add(z: array<U64>, x: array<U64>, y: array<U64>)
    requires z.Length == x.Length == y.Length == 6
    requires Val(x[..]) < P && Val(y[..]) < P
    modifies z
    ensures Val(z[..]) == Residue(Val(old(x[..])) + Val(old(y[..])))
  {
    hide Horner, AddLimbs, SubLimbs, Residue, Cong;
    ghost var a, b := Val(x[..]), Val(y[..]);
    Ladd(z, x, y);
    ValBound(z[..]);
    Reduce(z);
    AddResidue(a, b);
  }

  lemma AddResidue(a: nat, b: nat)
    requires a < P && b < P
    ensures Residue(a + b) == if a + b < P then a + b else a + b - P
  {
    hide Multiple, Residue;
    MultipleAdd(0, 1);
    var k := if a + b < P then 0 else -1;
    var z: nat := if a + b < P then a + b else a + b - P;
    assert z == a + b + Multiple(k);
    ResidueUnique(z, a + b);
  }

  lemma SubResidue(a: nat, b: nat)
    requires a < P && b < P
    ensures Residue(a - b) == if a >= b then a - b else a - b + P
  {
    hide Multiple, Residue;
    MultipleAdd(0, 1);
    var k := if a >= b then 0 else 1;
    var z: nat := if a >= b then a - b else a - b + P;
    assert z == a - b + Multiple(k);
    ResidueUnique(z, a - b);
  }

  /** Modular subtraction. */
  method Sub(z: array<U64>, x: array<U64>, y: array<U64>)
    requires z.Length == x.Length == y.Length == 6
    requires Val(x[..]) < P && Val(y[..]) < P
    modifies z
    ensures Val(z[..]) == Residue(Val(old(x[..])) - Val(old(y[..])))
  {
    hide Horner, AddLimbs, SubLimbs, Residue, Cong;
    ghost var a, b := Val(x[..]), Val(y[..]);
    var borrow := Lsub(z, x, y);
    ValBound(z[..]);
    if borrow != 0 {
      var q := LoadModulus();
      ModulusValue();
      Ladd(z, z, q);
      ValBound(z[..]);
    }
    SubResidue(a, b);
  }

  predicate IsZero(x: seq<U64>)
    requires |x| == 6
  {
    x[5] == 0 && x[4] == 0 && x[3] == 0 && x[2] == 0 && x[1] == 0 && x[0] == 0
  }

  lemma IsZeroCorrect(x: seq<U64>)
    requires |x| == 6
    ensures IsZero(x) <==> Val(x) == 0
  {
  }

  method SetZero(z: array<U64>)
    requires z.Length == 6
    modifies z
    ensures z[..] == [0, 0, 0, 0, 0, 0]
  {
    z[0], z[1], z[2], z[3], z[4], z[5] := 0, 0, 0, 0, 0, 0;
  }

  /** Modular negation. */
  method Neg(z: array<U64>, x: array<U64>)
    requires z.Length == x.Length == 6
    requires Val(x[..]) < P
    modifies z
    ensures Val(z[..]) == Residue(-(Val(old(x[..])) as int))
  {
    hide Horner, AddLimbs, SubLimbs, Residue, Cong;
    ghost var a := Val(x[..]);
    IsZeroCorrect(x[..]);
    if IsZero(x[..]) {
      SetZero(z);
      ZeroValue();
      SubResidue(0, a);
      return;
    }
    var q := LoadModulus();
    ModulusValue();
    var _ := Lsub(z, q, x);
    ValBound(z[..]);
    SubResidue(0, a);
  }

  // ----- Montgomery multiplication -----

  lemma ScaledModulus(m: int)
    ensures Multiple(m) - Scaled(P) == Multiple(m - R)
  {
  }

  /** Removing the modulus once keeps the scaled congruence. */
  lemma ReducedCong(t: nat, n: int, m: int)
    requires Scaled(t) == n + Multiple(m)
    ensures Cong(Scaled(t), n) && Cong(Scaled(t - P), n)
  {
    hide Multiple, Scaled;
    ScaledModulus(m);
    ScaledAdd(t, P);
    assert Scaled(t - P) == n + Multiple(m - R);
  }

  /** The accumulator, reduced once, is the Montgomery product. */
  lemma ReducedProduct(x: seq<U64>, y: seq<U64>)
    requires |x| == |y| == 6 && Val(y) < P
    ensures var t := Val(Acc(x, y, 6));
            t < 2 * P && (if t < P then t else t - P) == MontMul(Val(x), Val(y))
  {
    hide *;
    AccScaled(x, y);
    var t := Val(Acc(x, y, 6));
    ReducedCong(t, Times(Val(x), Val(y)), Val(Multiples(x, y)));
    if t < P {
      MontUnique(t, Val(x), Val(y));
    } else {
      MontUnique(t - P, Val(x), Val(y));
    }
  }

  lemma AccScaled(x: seq<U64>, y: seq<U64>)
    requires |x| == |y| == 6 && Val(y) < P
    ensures Scaled(Val(Acc(x, y, 6))) == Times(Val(x), Val(y)) + Multiple(Val(Multiples(x, y)))
    ensures Val(Acc(x, y, 6)) < 2 * P
  {
    hide Val, Acc, Multiples, Times;
    AccCorrect(x, y);
    TimesProduct(Val(x), Val(y));
  }

  /**
   * z becomes the unique reduced number with z * 2^384 congruent to x * y. Only y must be reduced: x may be any
   * 384-bit number. z may be x or y.
   */
  method Mul(z: array<U64>, x: array<U64>, y: array<U64>)
    requires z.Length == x.Length == y.Length == 6
    requires Val(y[..]) < P
    modifies z
    ensures Val(z[..]) == MontMul(Val(old(x[..])), Val(old(y[..])))
  {
    hide Horner, RoundLines, Multiples, MontMul;
    var t := new U64[6];
    SetZero(t);
    Round(t, t, x[0], y);
    Round(t, t, x[1], y);
    Round(t, t, x[2], y);
    Round(t, t, x[3], y);
    Round(t, t, x[4], y);
    Round(z, t, x[5], y);
    ChainIsAcc(old(x[..]), old(y[..]));
    ReducedProduct(old(x[..]), old(y[..]));
    Reduce(z);
  }

  lemma ChainIsAcc(x: seq<U64>, y: seq<U64>)
    requires |x| == |y| == 6
    ensures Acc(x, y, 6) ==
            RoundLines(RoundLines(RoundLines(RoundLines(RoundLines(RoundLines(
              [0, 0, 0, 0, 0, 0], x[0], y).z, x[1], y).z, x[2], y).z, x[3], y).z, x[4], y).z, x[5], y).z
  {
    hide RoundLines;
    assert Acc(x, y, 0) == [0, 0, 0, 0, 0, 0];
    assert Acc(x, y, 1) == RoundLines(Acc(x, y, 0), x[0], y).z;
    assert Acc(x, y, 2) == RoundLines(Acc(x, y, 1), x[1], y).z;
    assert Acc(x, y, 3) == RoundLines(Acc(x, y, 2), x[2], y).z;
    assert Acc(x, y, 4) == RoundLines(Acc(x, y, 3), x[3], y).z;
    assert Acc(x, y, 5) == RoundLines(Acc(x, y, 4), x[4], y).z;
  }
}
