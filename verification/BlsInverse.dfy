/** The almost-inverse on limbs, in place: two phases of shifts, subtractions and doublings. */
module BlsInverse {
  import opened Arithmetic
  import opened BlsMontgomery
  import opened BlsModular
  import opened BlsField
  import opened BlsKaliski

  // ----- shifts by one bit -----

  /** A limb shifted right, with the low bit of the next limb moved in. */
  function ShiftRight(lo: U64, hi: U64): (w: U64)
    ensures 2 * w + lo % 2 == lo + 0x1_0000_0000_0000_0000 * (hi % 2)
  {
    lo / 2 + 0x8000_0000_0000_0000 * (hi % 2)
  }

  /** A limb shifted left, with the high bit of the previous limb moved in. */
  function ShiftLeft(hi: U64, lo: U64): (w: U64)
    ensures w + 0x1_0000_0000_0000_0000 * (hi / 0x8000_0000_0000_0000) == 2 * hi + lo / 0x8000_0000_0000_0000
  {
    2 * (hi % 0x8000_0000_0000_0000) + lo / 0x8000_0000_0000_0000
  }

  function Halved(x: seq<U64>): (z: seq<U64>)
    requires |x| == 6
    ensures |z| == 6 && Val(z) == Val(x) / 2
  {
    [ShiftRight(x[0], x[1]), ShiftRight(x[1], x[2]), ShiftRight(x[2], x[3]),
     ShiftRight(x[3], x[4]), ShiftRight(x[4], x[5]), ShiftRight(x[5], 0)]
  }

  function Doubling(x: seq<U64>): (z: seq<U64>)
    requires |x| == 6
    ensures |z| == 6 && Val(z) + R * (x[5] / 0x8000_0000_0000_0000) == 2 * Val(x)
  {
    [ShiftLeft(x[0], 0), ShiftLeft(x[1], x[0]), ShiftLeft(x[2], x[1]),
     ShiftLeft(x[3], x[2]), ShiftLeft(x[4], x[3]), ShiftLeft(x[5], x[4])]
  }

  method Div2(x: array<U64>)
    requires x.Length == 6
    modifies x
    ensures Val(x[..]) == Val(old(x[..])) / 2
  {
    ghost var was := x[..];
    x[0] := ShiftRight(x[0], x[1]);
    x[1] := ShiftRight(x[1], x[2]);
    x[2] := ShiftRight(x[2], x[3]);
    x[3] := ShiftRight(x[3], x[4]);
    x[4] := ShiftRight(x[4], x[5]);
    x[5] := ShiftRight(x[5], 0);
    assert x[..] == Halved(was);
  }

  /** The bit shifted out is returned. */
  method Mul2(x: array<U64>) returns (out: U64)
    requires x.Length == 6
    modifies x
    ensures Val(x[..]) + R * out == 2 * Val(old(x[..])) && out <= 1
  {
    ghost var was := x[..];
    out := x[5] / 0x8000_0000_0000_0000;
    x[5] := ShiftLeft(x[5], x[4]);
    x[4] := ShiftLeft(x[4], x[3]);
    x[3] := ShiftLeft(x[3], x[2]);
    x[2] := ShiftLeft(x[2], x[1]);
    x[1] := ShiftLeft(x[1], x[0]);
    x[0] := ShiftLeft(x[0], 0);
    assert x[..] == Doubling(was);
  }

  predicate IsEven(x: seq<U64>)
    requires |x| == 6
  {
    x[0] % 2 == 0
  }

  lemma IsEvenCorrect(x: seq<U64>)
    requires |x| == 6
    ensures IsEven(x) <==> Val(x) % 2 == 0
  {
  }

  /** The limbs from i up, as a number. */
  function High(x: seq<U64>, i: nat): nat
    requires |x| == 6 && i <= 6
    decreases 6 - i
  {
    if i == 6 then 0 else x[i] as nat + 0x1_0000_0000_0000_0000 * High(x, i + 1)
  }

  lemma HighIsVal(x: seq<U64>)
    requires |x| == 6
    ensures High(x, 0) == Val(x)
  {
    assert High(x, 5) == x[5];
    assert High(x, 4) == x[4] as nat + 0x1_0000_0000_0000_0000 * High(x, 5);
    assert High(x, 3) == x[3] as nat + 0x1_0000_0000_0000_0000 * High(x, 4);
    assert High(x, 2) == x[2] as nat + 0x1_0000_0000_0000_0000 * High(x, 3);
    assert High(x, 1) == x[1] as nat + 0x1_0000_0000_0000_0000 * High(x, 2);
  }

  /** A difference in the high limbs decides. */
  lemma {:induction false} HighDecides(x: seq<U64>, y: seq<U64>, i: nat)
    requires |x| == |y| == 6 && i <= 6
    ensures High(x, i) < High(y, i) ==> High(x, 0) < High(y, 0)
    decreases i
  {
    if i > 0 {
      HighDecides(x, y, i - 1);
    }
  }

  /** Comparison from the most significant limb down. */
  method Cmp(x: array<U64>, y: array<U64>) returns (c: int)
    requires x.Length == y.Length == 6
    ensures c == if Val(x[..]) > Val(y[..]) then 1 else if Val(x[..]) < Val(y[..]) then -1 else 0
  {
    hide Val;
    ghost var s, t := x[..], y[..];
    HighIsVal(s);
    HighIsVal(t);
    var i := 6;
    while i > 0
      invariant 0 <= i <= 6
      invariant High(s, i) == High(t, i)
    {
      i := i - 1;
      HighDecides(s, t, i);
      HighDecides(t, s, i);
      if x[i] > y[i] {
        return 1;
      } else if x[i] < y[i] {
        return -1;
      }
    }
    return 0;
  }

  method Copy(z: array<U64>, x: array<U64>)
    requires z.Length == x.Length == 6
    modifies z
    ensures z[..] == old(x[..])
  {
    z[0], z[1], z[2], z[3], z[4], z[5] := x[0], x[1], x[2], x[3], x[4], x[5];
  }

  // ----- the two phases -----

  ghost function State(u: array<U64>, v: array<U64>, r: array<U64>, s: array<U64>): Kaliski
    requires u.Length == v.Length == r.Length == s.Length == 6
    reads u, v, r, s
  {
    Kaliski(Val(u[..]), Val(v[..]), Val(r[..]), Val(s[..]))
  }

  /** Subtraction of a number that is not larger. */
  method LsubAssign(z: array<U64>, x: array<U64>)
    requires z.Length == x.Length == 6 && Val(x[..]) <= Val(z[..])
    modifies z
    ensures Val(z[..]) == Val(old(z[..])) - Val(old(x[..]))
  {
    hide Horner, SubLimbs;
    var _ := Lsub(z, z, x);
    ValBound(z[..]);
  }

  /** Addition of numbers whose sum fits. */
  method LaddAssign(z: array<U64>, x: array<U64>)
    requires z.Length == x.Length == 6 && Val(x[..]) + Val(z[..]) < R
    modifies z
    ensures Val(z[..]) == Val(old(z[..])) + Val(old(x[..]))
  {
    hide Horner, AddLimbs;
    Ladd(z, z, x);
    ValBound(z[..]);
  }

  /** Doubling of a number whose double fits; nothing is shifted out. */
  method Mul2Fits(x: array<U64>) returns (out: U64)
    requires x.Length == 6 && 2 * Val(x[..]) < R
    modifies x
    ensures Val(x[..]) == 2 * Val(old(x[..])) && out == 0
  {
    hide Val;
    out := Mul2(x);
    assert Val(x[..]) >= 0;
  }

  /** One pass of the first loop; no bit is ever shifted out of r or s. */
  method PhaseOneStep(u: array<U64>, v: array<U64>, r: array<U64>, s: array<U64>, z: nat) returns (z': nat)
    requires u.Length == v.Length == r.Length == s.Length == 6
    requires u != v && u != r && u != s && v != r && v != s && r != s
    requires Val(r[..]) < P && Val(s[..]) <= P
    modifies u, v, r, s
    ensures State(u, v, r, s) == Advance(old(State(u, v, r, s)))
    ensures z' == z
  {
    hide Val;
    IsEvenCorrect(u[..]);
    IsEvenCorrect(v[..]);
    z' := z;
    if IsEven(u[..]) {
      Div2(u);
      var _ := Mul2Fits(s);
    } else if IsEven(v[..]) {
      Div2(v);
      var out := Mul2Fits(r);
      z' := z + out;
    } else {
      var c := Cmp(u, v);
      if c == 1 {
        LsubAssign(u, v);
        Div2(u);
        LaddAssign(r, s);
        var _ := Mul2Fits(s);
      } else {
        LsubAssign(v, u);
        Div2(v);
        LaddAssign(s, r);
        var out := Mul2Fits(r);
        z' := z + out;
      }
    }
  }

  method FromWord(w: U64) returns (x: array<U64>)
    ensures fresh(x) && x.Length == 6 && Val(x[..]) == w
  {
    x := new U64[6];
    SetZero(x);
    x[0] := w;
    assert x[..] == [w, 0, 0, 0, 0, 0];
  }

  /** The first loop: it always finds the end, within 762 passes. */
  method PhaseOneLoop(e: array<U64>) returns (u: array<U64>, r: array<U64>, k: nat, z: nat, found: bool, ghost t: Kaliski)
    requires e.Length == 6 && 1 <= Val(e[..]) < P
    ensures fresh(u) && fresh(r) && u != r && u.Length == r.Length == 6
    ensures found && z == 0 && k <= 762
    ensures t.v == 0 && PhaseOne(Val(e[..]), t, k) && t.u == Val(u[..]) && t.r == Val(r[..])
  {
    hide Val, PhaseOne, Advance;
    u := LoadModulus();
    ModulusValue();
    var v := new U64[6];
    Copy(v, e);
    var s := FromWord(1);
    r := FromWord(0);
    ghost var n := Val(e[..]);
    k, z, found := 0, 0, false;
    PhaseOneStart(n);
    t := Start(n);
    var i := 0;
    while i < 768
      invariant u.Length == v.Length == r.Length == s.Length == 6
      invariant fresh(u) && fresh(v) && fresh(r) && fresh(s)
      invariant u != v && u != r && u != s && v != r && v != s && r != s
      invariant Val(e[..]) == n
      invariant t == State(u, v, r, s) && PhaseOne(n, t, k)
      invariant i == k <= 762 && z == 0 && !found
    {
      IsZeroCorrect(v[..]);
      if IsZero(v[..]) {
        found := true;
        break;
      }
      PhaseOneSizes(n, t, k);
      z := PhaseOneStep(u, v, r, s, z);
      PhaseOneKept(n, t, k);
      t := Advance(t);
      k := k + 1;
      i := i + 1;
    }
  }

  lemma PhaseOneSizes(e: nat, t: Kaliski, k: nat)
    requires 1 <= e < P && PhaseOne(e, t, k) && t.v >= 1
    ensures t.r < P && t.s <= P && k < 762
  {
    hide Congruent, KeepsDivisors, Times, Pow2;
    CofactorsBelow(e, t);
    FewSteps(e, t, k);
  }

  /** The second loop: doublings until 768 bits have been accounted for. */
  method PhaseTwoLoop(u: array<U64>, k: nat, ghost e: nat, ghost g: nat)
    requires u.Length == 6 && k <= 768 && PhaseTwo(e, Val(u[..]), g, k)
    modifies u
    ensures PhaseTwo(e, Val(u[..]), g, 768) && Val(u[..]) < P
  {
    hide Val, Residue, Cong, Times, Pow2;
    var i := k;
    while i < 768
      invariant k <= i <= 768
      invariant PhaseTwo(e, Val(u[..]), g, i)
    {
      PhaseTwoKept(e, Val(u[..]), g, i);
      Add(u, u, u);
      i := i + 1;
    }
  }

  /**
   * The inverse of a reduced element, up to 2^768, so that in Montgomery form inverse times element is one. It is
   * that exactly when the element shares no divisor with the modulus, and then no fallback to zero is taken.
   */
  method Inverse(inv: array<U64>, e: array<U64>)
    requires inv.Length == e.Length == 6 && Val(e[..]) < P
    modifies inv
    ensures Val(inv[..]) < P
    ensures Val(old(e[..])) == 0 ==> Val(inv[..]) == 0
    ensures Coprime(Val(old(e[..]))) <==> MontMul(Val(inv[..]), Val(old(e[..]))) == R1
    ensures Coprime(Val(old(e[..]))) <==> Cong(Times(Val(old(e[..])), Val(inv[..])), Pow2(768))
  {
    hide Val, PhaseOne, Cong, Times, Pow2, MontMul, Coprime, PhaseTwo;
    ghost var n := Val(e[..]);
    IsZeroCorrect(e[..]);
    if IsZero(e[..]) {
      SetZero(inv);
      ZeroValue();
      ZeroNotCoprime();
      NotCoprime(0, 0);
      return;
    }
    var u, r, k, z, found, t := PhaseOneLoop(e);
    if !found {
      assert false; // the fallback for a loop that did not end
    }
    if k < 381 || k > 381 + 384 {
      SetZero(inv);
      ZeroValue();
      TooFewSteps(n, t, k);
      NotCoprime(n, 0);
      return;
    }
    var q := LoadModulus();
    ModulusValue();
    FinalSizes(n, t, k);
    var c := Cmp(r, q);
    if c != -1 || z > 0 {
      LsubAssign(r, q);
    }
    Copy(u, q);
    LsubAssign(u, r);
    PhaseTwoStart(n, t, k, Val(r[..])) by { FinalCongruence(n, t, k); }
    PhaseTwoLoop(u, k, n, t.u);
    Copy(inv, u);
    Result(n, t, k, Val(inv[..]));
  }

  lemma FinalSizes(e: nat, t: Kaliski, k: nat)
    requires 1 <= e < P && PhaseOne(e, t, k) && t.v == 0
    ensures 0 < t.r < 2 * P && t.r != P
  {
    hide Congruent, KeepsDivisors, Times, Pow2;
    CofactorNotZero(e, t, k);
  }

  lemma FinalCongruence(e: nat, t: Kaliski, k: nat)
    requires PhaseOne(e, t, k)
    ensures Congruent(e, t, k)
  {
  }

  lemma ZeroNotCoprime()
    ensures !Coprime(0)
  {
    hide Times;
    TimesAdd(0, 0, P);
    TimesUnit(P);
    assert 0 == Times(P, 0) && P == Times(P, 1);
    assert Divides(P, 0) && Divides(P, P);
  }

  lemma TooFewSteps(e: nat, t: Kaliski, k: nat)
    requires 1 <= e < P && PhaseOne(e, t, k) && t.v == 0 && k < 381
    ensures !Coprime(e)
  {
    hide PhaseOne, Coprime;
    if Coprime(e) {
      EndsAtOne(e, t, k);
    }
  }

  lemma NotCoprime(e: nat, w: nat)
    requires !Coprime(e) && w < P
    ensures MontMul(w, e) != R1 && !Cong(Times(e, w), Pow2(768))
  {
    hide *;
    InverseMeaning(e, w);
    if Cong(Times(e, w), Pow2(768)) {
      NoInverse(e, w);
    }
  }

  lemma Result(e: nat, t: Kaliski, k: nat, w: nat)
    requires 1 <= e < P && PhaseOne(e, t, k) && t.v == 0 && PhaseTwo(e, w, t.u, 768)
    ensures Coprime(e) <==> MontMul(w, e) == R1
    ensures Coprime(e) <==> Cong(Times(e, w), Pow2(768))
  {
    hide PhaseOne, Cong, Times, Pow2, MontMul, Coprime;
    InverseMeaning(e, w);
    if Coprime(e) {
      EndsAtOne(e, t, k);
      TimesUnit(Pow2(768));
    } else {
      NotCoprime(e, w);
    }
  }
}
