/** Montgomery multiplication of six-limb elements, in place, without a seventh word for carries. */
module BlsMontgomery {
  import opened Arithmetic
  import opened BlsLimbs

  /** The field modulus. */
  const P: nat := 0x1a0111ea397fe69a4b1ba7b6434bacd764774b84f38512bf6730d2a0f6b0f6241eabfffeb153ffffb9feffffffffaaab
  /** 2^384, one more than any element can hold. */
  const R: nat := 0x1_000000000000000000000000000000000000000000000000000000000000000000000000000000000000000000000000
  /** The inverse of R modulo P. */
  const R_INVERSE: nat := 0x14fec701e8fb0ce9ed5e64273c4f538b1797ab1458a88de9343ea97914956dc87fe11274d898fafbf4d38259380b4820

  /** Six digits in base 2^64, least significant first. */
  function Horner(a: nat, b: nat, c: nat, d: nat, e: nat, f: nat): nat
  {
    a + 0x1_0000_0000_0000_0000 * (b + 0x1_0000_0000_0000_0000 * (c + 0x1_0000_0000_0000_0000 *
      (d + 0x1_0000_0000_0000_0000 * (e + 0x1_0000_0000_0000_0000 * f))))
  }

  function Val(s: seq<U64>): nat
    requires |s| == 6
  {
    Horner(s[0], s[1], s[2], s[3], s[4], s[5])
  }

  const Modulus: seq<U64> := [
    13402431016077863595, 2210141511517208575, 7435674573564081700,
    7239337960414712511, 5412103778470702295, 1873798617647539866]

  lemma ModulusValue()
    ensures |Modulus| == 6 && Val(Modulus) == P
  {
  }

  lemma ValBound(s: seq<U64>)
    requires |s| == 6
    ensures Val(s) < R
  {
  }

  lemma Spread(v: nat, a: nat, h: nat)
    ensures v * (a + 0x1_0000_0000_0000_0000 * h) == v * a + 0x1_0000_0000_0000_0000 * (v * h)
  {
  }

  /** A word times an element, limb by limb. */
  lemma SpreadProduct(v: nat, y: seq<U64>)
    requires |y| == 6
    ensures Prod(v, Val(y)) ==
            Horner(Prod(v, y[0]), Prod(v, y[1]), Prod(v, y[2]), Prod(v, y[3]), Prod(v, y[4]), Prod(v, y[5]))
  {
    var h5: nat := y[5];
    var h4: nat := y[4] as nat + 0x1_0000_0000_0000_0000 * h5;
    var h3 := y[3] as nat + 0x1_0000_0000_0000_0000 * h4;
    var h2 := y[2] as nat + 0x1_0000_0000_0000_0000 * h3;
    var h1 := y[1] as nat + 0x1_0000_0000_0000_0000 * h2;
    Spread(v, y[4], h5);
    Spread(v, y[3], h4);
    Spread(v, y[2], h3);
    Spread(v, y[1], h2);
    Spread(v, y[0], h1);
  }

  /** The multiple of the modulus that clears the low word. */
  function Reducer(c: U64): U64 { (c * 9940570264628428797) % 0x1_0000_0000_0000_0000 }

  lemma ReducerClears(c: U64)
    ensures Madd1(Reducer(c), 13402431016077863595, c).1 == 0
  {
    var k := (c * 9940570264628428797) / 0x1_0000_0000_0000_0000;
    var m := Reducer(c);
    var hi := Madd1(m, 13402431016077863595, c).0;
    var lo := Madd1(m, 13402431016077863595, c).1;
    assert m * 13402431016077863595 + c ==
           0x1_0000_0000_0000_0000 * (c * 0x643abe09d200a405 - k * 13402431016077863595);
    assert lo == 0x1_0000_0000_0000_0000 * (c * 0x643abe09d200a405 - k * 13402431016077863595 - hi);
  }

  /** The identity behind one round: the carries of its twelve lines cancel. */
  lemma RoundIdentity(
    t: seq<nat>, z: seq<nat>, vy: seq<nat>, mp: seq<nat>, c: seq<nat>, a: seq<nat>, d: seq<nat>)
    requires |t| == |z| == |vy| == |mp| == |c| == |a| == 6 && |d| == 5
    requires 0x1_0000_0000_0000_0000 * a[0] + c[0] == vy[0] + t[0]
    requires 0x1_0000_0000_0000_0000 * a[1] + c[1] == vy[1] + a[0] + t[1]
    requires 0x1_0000_0000_0000_0000 * a[2] + c[2] == vy[2] + a[1] + t[2]
    requires 0x1_0000_0000_0000_0000 * a[3] + c[3] == vy[3] + a[2] + t[3]
    requires 0x1_0000_0000_0000_0000 * a[4] + c[4] == vy[4] + a[3] + t[4]
    requires 0x1_0000_0000_0000_0000 * a[5] + c[5] == vy[5] + a[4] + t[5]
    requires 0x1_0000_0000_0000_0000 * d[0] == mp[0] + c[0]
    requires 0x1_0000_0000_0000_0000 * d[1] + z[0] == mp[1] + d[0] + c[1]
    requires 0x1_0000_0000_0000_0000 * d[2] + z[1] == mp[2] + d[1] + c[2]
    requires 0x1_0000_0000_0000_0000 * d[3] + z[2] == mp[3] + d[2] + c[3]
    requires 0x1_0000_0000_0000_0000 * d[4] + z[3] == mp[4] + d[3] + c[4]
    ensures 0x1_0000_0000_0000_0000 * (z[0] + 0x1_0000_0000_0000_0000 * (z[1] + 0x1_0000_0000_0000_0000 *
              (z[2] + 0x1_0000_0000_0000_0000 * (z[3] + 0x1_0000_0000_0000_0000 *
              (mp[5] + c[5] + d[4] + 0x1_0000_0000_0000_0000 * a[5]))))) ==
              Horner(t[0], t[1], t[2], t[3], t[4], t[5])
              + Horner(vy[0], vy[1], vy[2], vy[3], vy[4], vy[5]) + Horner(mp[0], mp[1], mp[2], mp[3], mp[4], mp[5])
  {
  }

  /** With t below y + p before a round, so is its result, and the round's sum fits six words after the shift. */
  lemma RoundBound(t: nat, v: nat, y: nat, m: nat)
    requires v < 0x1_0000_0000_0000_0000 && m < 0x1_0000_0000_0000_0000 && y < P && t < y + P
    ensures t + Prod(v, y) + Prod(m, P) < 0x1_0000_0000_0000_0000 * (y + P)
  {
    ProductGrows(v, 0xFFFF_FFFF_FFFF_FFFF, y);
    ProductGrows(m, 0xFFFF_FFFF_FFFF_FFFF, P);
  }

  /** The top two words of a round do not overflow, so the last line loses no carry. */
  lemma TopFits(
    t: nat, vy: nat, mp: nat, y: nat, z0: nat, z1: nat, z2: nat, z3: nat, z4: nat, z5: nat, top: nat)
    requires t + vy + mp < 0x1_0000_0000_0000_0000 * (y + P) && y < P
    requires 0x1_0000_0000_0000_0000 * (z0 + 0x1_0000_0000_0000_0000 * (z1 + 0x1_0000_0000_0000_0000 *
               (z2 + 0x1_0000_0000_0000_0000 * (z3 + 0x1_0000_0000_0000_0000 * top)))) == t + vy + mp
    requires top < 0x1_0000_0000_0000_0000 * 0x1_0000_0000_0000_0000 ==> 0x1_0000_0000_0000_0000 * z5 + z4 == top
    ensures 0x1_0000_0000_0000_0000 * Horner(z0, z1, z2, z3, z4, z5) == t + vy + mp
    ensures Horner(z0, z1, z2, z3, z4, z5) < y + P
  {
  }

  /** From the twelve lines of a round, with all products taken as given, to its effect on the values. */
  lemma RoundSum(
    t: seq<nat>, y: nat, vy: seq<nat>, mp: seq<nat>, vyv: nat, mpv: nat, z: seq<nat>, c: seq<nat>, a: seq<nat>, d: seq<nat>)
    requires |t| == |vy| == |mp| == |z| == |c| == |a| == 6 && |d| == 5 && y < P
    requires vyv == Horner(vy[0], vy[1], vy[2], vy[3], vy[4], vy[5])
    requires mpv == Horner(mp[0], mp[1], mp[2], mp[3], mp[4], mp[5])
    requires Horner(t[0], t[1], t[2], t[3], t[4], t[5]) + vyv + mpv < 0x1_0000_0000_0000_0000 * (y + P)
    requires 0x1_0000_0000_0000_0000 * a[0] + c[0] == vy[0] + t[0]
    requires 0x1_0000_0000_0000_0000 * a[1] + c[1] == vy[1] + a[0] + t[1]
    requires 0x1_0000_0000_0000_0000 * a[2] + c[2] == vy[2] + a[1] + t[2]
    requires 0x1_0000_0000_0000_0000 * a[3] + c[3] == vy[3] + a[2] + t[3]
    requires 0x1_0000_0000_0000_0000 * a[4] + c[4] == vy[4] + a[3] + t[4]
    requires 0x1_0000_0000_0000_0000 * a[5] + c[5] == vy[5] + a[4] + t[5]
    requires 0x1_0000_0000_0000_0000 * d[0] == mp[0] + c[0]
    requires 0x1_0000_0000_0000_0000 * d[1] + z[0] == mp[1] + d[0] + c[1]
    requires 0x1_0000_0000_0000_0000 * d[2] + z[1] == mp[2] + d[1] + c[2]
    requires 0x1_0000_0000_0000_0000 * d[3] + z[2] == mp[3] + d[2] + c[3]
    requires 0x1_0000_0000_0000_0000 * d[4] + z[3] == mp[4] + d[3] + c[4]
    requires mp[5] + c[5] + d[4] + 0x1_0000_0000_0000_0000 * a[5] < 0x1_0000_0000_0000_0000 * 0x1_0000_0000_0000_0000 ==>
             0x1_0000_0000_0000_0000 * z[5] + z[4] == mp[5] + c[5] + d[4] + 0x1_0000_0000_0000_0000 * a[5]
    ensures 0x1_0000_0000_0000_0000 * Horner(z[0], z[1], z[2], z[3], z[4], z[5]) ==
            Horner(t[0], t[1], t[2], t[3], t[4], t[5]) + vyv + mpv
    ensures Horner(z[0], z[1], z[2], z[3], z[4], z[5]) < y + P
  {
    hide Horner;
    RoundIdentity(t, z, vy, mp, c, a, d);
    TopFits(Horner(t[0], t[1], t[2], t[3], t[4], t[5]), vyv, mpv, y, z[0], z[1], z[2], z[3], z[4], z[5],
            mp[5] + c[5] + d[4] + 0x1_0000_0000_0000_0000 * a[5]);
  }

  /** The words one round computes. */
  datatype Line = Line(a: seq<U64>, c: seq<U64>, d: seq<U64>, m: U64, z: seq<U64>)

  function RoundLines(t: seq<U64>, v: U64, y: seq<U64>): (r: Line)
    requires |t| == |y| == 6
    ensures |r.a| == |r.c| == |r.z| == 6 && |r.d| == 5
  {
    var (a0, c0) := Madd1(v, y[0], t[0]);
    var m := Reducer(c0);
    var d0 := Madd0(m, 13402431016077863595, c0);
    var (a1, c1) := Madd2(v, y[1], a0, t[1]);
    var (d1, z0) := Madd2(m, 2210141511517208575, d0, c1);
    var (a2, c2) := Madd2(v, y[2], a1, t[2]);
    var (d2, z1) := Madd2(m, 7435674573564081700, d1, c2);
    var (a3, c3) := Madd2(v, y[3], a2, t[3]);
    var (d3, z2) := Madd2(m, 7239337960414712511, d2, c3);
    var (a4, c4) := Madd2(v, y[4], a3, t[4]);
    var (d4, z3) := Madd2(m, 5412103778470702295, d3, c4);
    var (a5, c5) := Madd2(v, y[5], a4, t[5]);
    var (z5, z4) := Madd3(m, 1873798617647539866, c5, d4, a5);
    Line([a0, a1, a2, a3, a4, a5], [c0, c1, c2, c3, c4, c5], [d0, d1, d2, d3, d4], m, [z0, z1, z2, z3, z4, z5])
  }

  /** A round adds v*y and a multiple of the modulus that clears the low word, and shifts that word out. */
  lemma RoundCorrect(t: seq<U64>, v: U64, y: seq<U64>)
    requires |t| == |y| == 6 && Val(y) < P && Val(t) < Val(y) + P
    ensures var r := RoundLines(t, v, y);
            && 0x1_0000_0000_0000_0000 * Val(r.z) == Val(t) + Prod(v, Val(y)) + Prod(r.m, P)
            && Val(r.z) < Val(y) + P
  {
    hide Prod, Madd0, Madd1, Madd2, Madd3, Reducer, Horner;
    var r := RoundLines(t, v, y);
    var m := r.m;
    ReducerClears(r.c[0]);
    SpreadProduct(v, y);
    SpreadProduct(m, Modulus);
    ModulusValue();
    RoundBound(Val(t), v, Val(y), m);
    RoundSum(t, Val(y), [Prod(v, y[0]), Prod(v, y[1]), Prod(v, y[2]), Prod(v, y[3]), Prod(v, y[4]), Prod(v, y[5])],
             [Prod(m, 13402431016077863595), Prod(m, 2210141511517208575), Prod(m, 7435674573564081700),
              Prod(m, 7239337960414712511), Prod(m, 5412103778470702295), Prod(m, 1873798617647539866)],
             Prod(v, Val(y)), Prod(m, P), r.z, r.c, r.a, r.d);
  }

  /**
   * One round in place. `out` may be `t` or `y`: a limb is overwritten only after it and the next have been read.
   */
  method Round(out: array<U64>, t: array<U64>, v: U64, y: array<U64>)
    requires out.Length == t.Length == y.Length == 6
    modifies out
    ensures out[..] == RoundLines(old(t[..]), v, old(y[..])).z
  {
    hide Prod, Madd0, Madd1, Madd2, Madd3, Reducer;
    ghost var ts, ys := t[..], y[..];
    var (a0, c0) := Madd1(v, y[0], t[0]);
    var m := Reducer(c0);
    var d0 := Madd0(m, 13402431016077863595, c0);
    var (a1, c1) := Madd2(v, y[1], a0, t[1]);
    var (d1, z0) := Madd2(m, 2210141511517208575, d0, c1);
    out[0] := z0;
    assert y[2] == ys[2] && t[2] == ts[2];
    var (a2, c2) := Madd2(v, y[2], a1, t[2]);
    var (d2, z1) := Madd2(m, 7435674573564081700, d1, c2);
    out[1] := z1;
    assert y[3] == ys[3] && t[3] == ts[3];
    var (a3, c3) := Madd2(v, y[3], a2, t[3]);
    var (d3, z2) := Madd2(m, 7239337960414712511, d2, c3);
    out[2] := z2;
    assert y[4] == ys[4] && t[4] == ts[4];
    var (a4, c4) := Madd2(v, y[4], a3, t[4]);
    var (d4, z3) := Madd2(m, 5412103778470702295, d3, c4);
    out[3] := z3;
    assert y[5] == ys[5] && t[5] == ts[5];
    var (a5, c5) := Madd2(v, y[5], a4, t[5]);
    var (z5, z4) := Madd3(m, 1873798617647539866, c5, d4, a5);
    out[4] := z4;
    out[5] := z5;
    assert out[..] == [z0, z1, z2, z3, z4, z5];
  }

  // ----- the product -----

  /** The accumulator after i rounds. */
  function Acc(x: seq<U64>, y: seq<U64>, i: nat): (t: seq<U64>)
    requires |x| == |y| == 6 && i <= 6
    ensures |t| == 6
  {
    if i == 0 then [0, 0, 0, 0, 0, 0] else RoundLines(Acc(x, y, i - 1), x[i - 1], y).z
  }

  /** Every intermediate stays below y + p. */
  lemma {:induction false} AccBound(x: seq<U64>, y: seq<U64>, i: nat)
    requires |x| == |y| == 6 && i <= 6 && Val(y) < P
    ensures Val(Acc(x, y, i)) < Val(y) + P
  {
    hide Prod, RoundLines, Horner;
    if i == 0 {
      ZeroValue();
    } else {
      AccBound(x, y, i - 1);
      RoundCorrect(Acc(x, y, i - 1), x[i - 1], y);
    }
  }

  /** Six rounds chained: a linear identity once the products are named. */
  lemma ChainIdentity(t: seq<nat>, xy: seq<nat>, mp: seq<nat>)
    requires |t| == 7 && |xy| == |mp| == 6 && t[0] == 0
    requires 0x1_0000_0000_0000_0000 * t[1] == t[0] + xy[0] + mp[0]
    requires 0x1_0000_0000_0000_0000 * t[2] == t[1] + xy[1] + mp[1]
    requires 0x1_0000_0000_0000_0000 * t[3] == t[2] + xy[2] + mp[2]
    requires 0x1_0000_0000_0000_0000 * t[4] == t[3] + xy[3] + mp[3]
    requires 0x1_0000_0000_0000_0000 * t[5] == t[4] + xy[4] + mp[4]
    requires 0x1_0000_0000_0000_0000 * t[6] == t[5] + xy[5] + mp[5]
    ensures R * t[6] == Horner(xy[0], xy[1], xy[2], xy[3], xy[4], xy[5]) + Horner(mp[0], mp[1], mp[2], mp[3], mp[4], mp[5])
  {
  }

  lemma Commute(a: nat, b: nat)
    ensures Prod(a, b) == Prod(b, a)
  {
  }

  /** The six multiples of the modulus that the rounds add. */
  function Multiples(x: seq<U64>, y: seq<U64>): (m: seq<U64>)
    requires |x| == |y| == 6
    ensures |m| == 6
  {
    seq(6, i requires 0 <= i < 6 => RoundLines(Acc(x, y, i), x[i], y).m)
  }

  /** After six rounds the accumulator times 2^384 is the product plus a multiple of the modulus, exactly. */
  lemma AccCorrect(x: seq<U64>, y: seq<U64>)
    requires |x| == |y| == 6 && Val(y) < P
    ensures R * Val(Acc(x, y, 6)) == Prod(Val(x), Val(y)) + Prod(Val(Multiples(x, y)), P)
    ensures Val(Acc(x, y, 6)) < Val(y) + P
  {
    hide Prod, RoundLines, Horner;
    var m := Multiples(x, y);
    forall i | 0 <= i < 6
      ensures 0x1_0000_0000_0000_0000 * Val(Acc(x, y, i + 1)) == Val(Acc(x, y, i)) + Prod(x[i], Val(y)) + Prod(m[i], P)
    {
      AccBound(x, y, i);
      RoundCorrect(Acc(x, y, i), x[i], y);
    }
    AccBound(x, y, 6);
    SpreadCommuted(x, Val(y));
    SpreadCommuted(m, P);
    assert Val(Acc(x, y, 0)) == 0 by { ZeroValue(); }
    ChainIdentity(
      [Val(Acc(x, y, 0)), Val(Acc(x, y, 1)), Val(Acc(x, y, 2)), Val(Acc(x, y, 3)),
       Val(Acc(x, y, 4)), Val(Acc(x, y, 5)), Val(Acc(x, y, 6))],
      [Prod(x[0], Val(y)), Prod(x[1], Val(y)), Prod(x[2], Val(y)), Prod(x[3], Val(y)), Prod(x[4], Val(y)), Prod(x[5], Val(y))],
      [Prod(m[0], P), Prod(m[1], P), Prod(m[2], P), Prod(m[3], P), Prod(m[4], P), Prod(m[5], P)]);
  }

  lemma ZeroValue()
    ensures Val([0, 0, 0, 0, 0, 0]) == 0
  {
  }

  lemma SpreadCommuted(x: seq<U64>, v: nat)
    requires |x| == 6
    ensures Prod(Val(x), v) ==
            Horner(Prod(x[0], v), Prod(x[1], v), Prod(x[2], v), Prod(x[3], v), Prod(x[4], v), Prod(x[5], v))
  {
    SpreadProduct(v, x);
    Commute(v, Val(x));
    forall i | 0 <= i < 6 ensures Prod(v, x[i]) == Prod(x[i], v) { Commute(v, x[i]); }
    hide Prod;
  }
}
