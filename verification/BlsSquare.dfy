/**
 * The separate squaring routine of the base field. Its helper for doubled products drops a carry for some operands;
 * squaring agrees with multiplication exactly for the elements where that never happens.
 */
module BlsSquare {
  import opened Arithmetic
  import opened BlsLimbs
  import opened BlsMontgomery
  import opened BlsModular
  import opened BlsField
  import opened BlsKaliski

  // ----- the helper -----

  /** The carry that is dropped: the doubled product p fits two words, but the whole sum does not. */
  function Dropped(p: nat, c: U64, d: nat, e: U64): (l: nat)
    ensures l <= 1
  {
    if 2 * p < 0x1_0000_0000_0000_0000_0000_0000_0000_0000
       && 2 * p + c + e + 0x1_0000_0000_0000_0000 * d >= 0x1_0000_0000_0000_0000_0000_0000_0000_0000 then 1 else 0
  }

  /** Three carries into a word, one after the other; what overflows is dropped. */
  function AddCarries(hi: U64, k1: nat, k2: nat, d: nat): (r: U64)
    requires k1 <= 1 && k2 <= 1 && d <= 1
    ensures r == if hi + k1 + k2 + d < 0x1_0000_0000_0000_0000 then hi + k1 + k2 + d
                 else hi + k1 + k2 + d - 0x1_0000_0000_0000_0000
  {
    Add64(Add64(Add64(hi, 0, k1).0, 0, k2).0, 0, d).0
  }

  /** Twice the product with the given words, plus c + e + d*2^64: top bit, high and low word. */
  function DoubledWords(hi: U64, lo: U64, c: U64, d: nat, e: U64): (r: (nat, U64, U64))
    requires d <= 1
    requires 0x1_0000_0000_0000_0000 * hi + lo <= 0xFFFF_FFFF_FFFF_FFFE_0000_0000_0000_0001
    ensures r.0 <= 1
    ensures var p := 0x1_0000_0000_0000_0000 * hi + lo;
            0x1_0000_0000_0000_0000_0000_0000_0000_0000 * (r.0 + Dropped(p, c, d, e)) + 0x1_0000_0000_0000_0000 * r.1 + r.2
            == 2 * p + c + e + 0x1_0000_0000_0000_0000 * d
  {
    var (lo1, carry1) := Add64(lo, lo, 0);
    var (hi1, superhi) := Add64(hi, hi, carry1);
    var (sum, carry2) := Add64(c, e, 0);
    var (lo2, carry3) := Add64(lo1, sum, 0);
    (superhi, AddCarries(hi1, carry2, carry3, d), lo2)
  }

  /** The words of 2ab + c + e + d*2^64, short of the dropped carry. */
  function Madd2s(a: U64, b: U64, c: U64, d: nat, e: U64): (r: (nat, U64, U64))
    requires d <= 1
    ensures r.0 <= 1
    ensures 0x1_0000_0000_0000_0000_0000_0000_0000_0000 * (r.0 + Dropped(Prod(a, b), c, d, e))
            + 0x1_0000_0000_0000_0000 * r.1 + r.2
            == 2 * Prod(a, b) + c + e + 0x1_0000_0000_0000_0000 * d
  {
    ProductBound(a, b, 0x1_0000_0000_0000_0000);
    var (hi, lo) := Mul64(a, b);
    DoubledWords(hi, lo, c, d, e)
  }

  /** The variants for a zero addend or no top bit. */
  function Madd1s(a: U64, b: U64, d: nat, e: U64): (nat, U64, U64)
    requires d <= 1
  {
    var (hi, lo) := Mul64(a, b);
    var (lo1, carry1) := Add64(lo, lo, 0);
    var (hi1, superhi) := Add64(hi, hi, carry1);
    var (lo2, carry2) := Add64(lo1, e, 0);
    var hi2 := Add64(hi1, 0, carry2).0;
    (superhi, Add64(hi2, 0, d).0, lo2)
  }

  function Madd2sb(a: U64, b: U64, c: U64, e: U64): (nat, U64, U64)
  {
    var (hi, lo) := Mul64(a, b);
    var (lo1, carry1) := Add64(lo, lo, 0);
    var (hi1, superhi) := Add64(hi, hi, carry1);
    var (sum, carry2) := Add64(c, e, 0);
    var hi2 := Add64(hi1, 0, carry2).0;
    var (lo2, carry3) := Add64(lo1, sum, 0);
    (superhi, Add64(hi2, 0, carry3).0, lo2)
  }

  function Madd1sb(a: U64, b: U64, e: U64): (nat, U64, U64)
  {
    var (hi, lo) := Mul64(a, b);
    var (lo1, carry1) := Add64(lo, lo, 0);
    var (hi1, superhi) := Add64(hi, hi, carry1);
    var (lo2, carry2) := Add64(lo1, e, 0);
    (superhi, Add64(hi1, 0, carry2).0, lo2)
  }

  /** They are the general helper with zeros, so the rounds below need only that one. */
  lemma HelpersAgree(a: U64, b: U64, c: U64, d: nat, e: U64)
    requires d <= 1
    ensures Madd1s(a, b, d, e) == Madd2s(a, b, 0, d, e)
    ensures Madd2sb(a, b, c, e) == Madd2s(a, b, c, 0, e)
    ensures Madd1sb(a, b, e) == Madd2s(a, b, 0, 0, e)
  {
    hide Mul64;
  }

  // ----- one round, column by column -----

  /** A column: its word, the high word and the top bit it hands on, and the carry it drops. */
  datatype Column = Column(v: U64, u: U64, t: nat, l: nat)

  /** What round i adds to column j. */
  function Addend(x: seq<U64>, i: nat, j: nat): nat
    requires |x| == 6 && i < 6 && j < 6
  {
    if j < i then 0 else if j == i then Prod(x[i], x[i]) else 2 * Prod(x[i], x[j])
  }

  function HandedOn(x: seq<U64>, p: seq<U64>, i: nat, j: nat): (h: nat)
    requires |x| == |p| == 6 && i < 6 && j <= 6
    decreases j, 0
  {
    if j == 0 then 0 else ColumnOf(x, p, i, j - 1).u as nat + 0x1_0000_0000_0000_0000 * ColumnOf(x, p, i, j - 1).t
  }

  function ColumnOf(x: seq<U64>, p: seq<U64>, i: nat, j: nat): (r: Column)
    requires |x| == |p| == 6 && i < 6 && j < 6
    ensures r.t <= 1 && r.l <= 1
    ensures r.v + 0x1_0000_0000_0000_0000 * r.u + 0x1_0000_0000_0000_0000_0000_0000_0000_0000 * (r.t + r.l)
         == p[j] + Addend(x, i, j) + HandedOn(x, p, i, j)
    ensures j < i ==> r == Column(p[j], 0, 0, 0)
    ensures j == i ==> r.t == 0 && r.l == 0
    decreases j, 1
  {
    if j < i then Column(p[j], 0, 0, 0)
    else if j == i then
      var (hi, lo) := Madd1(x[i], x[i], p[i]);
      Column(lo, hi, 0, 0)
    else
      var before := ColumnOf(x, p, i, j - 1);
      var (superhi, hi, lo) := Madd2s(x[i], x[j], p[j], before.t, before.u);
      Column(lo, hi, superhi, Dropped(Prod(x[i], x[j]), p[j], before.t, before.u))
  }

  /** The identity behind a round's columns: what is handed on cancels. */
  lemma ColumnIdentity(v: seq<nat>, u: seq<nat>, t: seq<nat>, l: seq<nat>, p: seq<nat>, a: seq<nat>)
    requires |v| == |u| == |t| == |l| == |p| == |a| == 6 && t[5] == 0 && l[5] == 0
    requires v[0] + 0x1_0000_0000_0000_0000 * u[0] + 0x1_0000_0000_0000_0000_0000_0000_0000_0000 * (t[0] + l[0]) == p[0] + a[0]
    requires v[1] + 0x1_0000_0000_0000_0000 * u[1] + 0x1_0000_0000_0000_0000_0000_0000_0000_0000 * (t[1] + l[1]) ==
             p[1] + a[1] + u[0] + 0x1_0000_0000_0000_0000 * t[0]
    requires v[2] + 0x1_0000_0000_0000_0000 * u[2] + 0x1_0000_0000_0000_0000_0000_0000_0000_0000 * (t[2] + l[2]) ==
             p[2] + a[2] + u[1] + 0x1_0000_0000_0000_0000 * t[1]
    requires v[3] + 0x1_0000_0000_0000_0000 * u[3] + 0x1_0000_0000_0000_0000_0000_0000_0000_0000 * (t[3] + l[3]) ==
             p[3] + a[3] + u[2] + 0x1_0000_0000_0000_0000 * t[2]
    requires v[4] + 0x1_0000_0000_0000_0000 * u[4] + 0x1_0000_0000_0000_0000_0000_0000_0000_0000 * (t[4] + l[4]) ==
             p[4] + a[4] + u[3] + 0x1_0000_0000_0000_0000 * t[3]
    requires v[5] + 0x1_0000_0000_0000_0000 * u[5] + 0x1_0000_0000_0000_0000_0000_0000_0000_0000 * (t[5] + l[5]) ==
             p[5] + a[5] + u[4] + 0x1_0000_0000_0000_0000 * t[4]
    ensures Horner(v[0], v[1], v[2], v[3], v[4], v[5]) + R * u[5]
            + 0x1_0000_0000_0000_0000_0000_0000_0000_0000 * Horner(l[0], l[1], l[2], l[3], l[4], 0)
         == Horner(p[0], p[1], p[2], p[3], p[4], p[5]) + Horner(a[0], a[1], a[2], a[3], a[4], a[5])
  {
  }

  /** The identity behind a round's reduction. */
  lemma ReduceIdentity(v: seq<nat>, u5: nat, mp: seq<nat>, d: seq<nat>, z: seq<nat>)
    requires |v| == |mp| == 6 && |d| == 5 && |z| >= 4
    requires 0x1_0000_0000_0000_0000 * d[0] == mp[0] + v[0]
    requires 0x1_0000_0000_0000_0000 * d[1] + z[0] == mp[1] + d[0] + v[1]
    requires 0x1_0000_0000_0000_0000 * d[2] + z[1] == mp[2] + d[1] + v[2]
    requires 0x1_0000_0000_0000_0000 * d[3] + z[2] == mp[3] + d[2] + v[3]
    requires 0x1_0000_0000_0000_0000 * d[4] + z[3] == mp[4] + d[3] + v[4]
    ensures 0x1_0000_0000_0000_0000 * (z[0] + 0x1_0000_0000_0000_0000 * (z[1] + 0x1_0000_0000_0000_0000 *
              (z[2] + 0x1_0000_0000_0000_0000 * (z[3] + 0x1_0000_0000_0000_0000 *
              (mp[5] + v[5] + d[4] + 0x1_0000_0000_0000_0000 * u5)))))
         == Horner(v[0], v[1], v[2], v[3], v[4], v[5]) + R * u5 + Horner(mp[0], mp[1], mp[2], mp[3], mp[4], mp[5])
  {
  }

  // ----- a whole round -----

  /** Dropped carries of a round, weighted by their columns. */
  function RoundLoss(x: seq<U64>, p: seq<U64>, i: nat): nat
    requires |x| == |p| == 6 && i < 6
  {
    Horner(ColumnOf(x, p, i, 0).l, ColumnOf(x, p, i, 1).l, ColumnOf(x, p, i, 2).l, ColumnOf(x, p, i, 3).l, ColumnOf(x, p, i, 4).l, 0)
  }

  function RoundGain(x: seq<U64>, i: nat): nat
    requires |x| == 6 && i < 6
  {
    Horner(Addend(x, i, 0), Addend(x, i, 1), Addend(x, i, 2), Addend(x, i, 3), Addend(x, i, 4), Addend(x, i, 5))
  }

  function RoundMultiple(x: seq<U64>, p: seq<U64>, i: nat): U64
    requires |x| == |p| == 6 && i < 6
  {
    Reducer(ColumnOf(x, p, i, 0).v)
  }

  /** The word handed on by the reduction of column j, and the word it leaves. */
  function Reduced(x: seq<U64>, p: seq<U64>, i: nat, j: nat): (r: (U64, U64))
    requires |x| == |p| == 6 && i < 6 && j < 5
  {
    var m := RoundMultiple(x, p, i);
    if j == 0 then (Madd0(m, 13402431016077863595, ColumnOf(x, p, i, 0).v), 0)
    else Madd2(m, Modulus[j], ColumnOf(x, p, i, j).v, Reduced(x, p, i, j - 1).0)
  }

  function RoundWords(x: seq<U64>, p: seq<U64>, i: nat): (z: seq<U64>)
    requires |x| == |p| == 6 && i < 6
    ensures |z| == 6
  {
    var top := ColumnOf(x, p, i, 5);
    var (z5, z4) := Madd3(RoundMultiple(x, p, i), 1873798617647539866, top.v, Reduced(x, p, i, 4).0, top.u);
    [Reduced(x, p, i, 1).1, Reduced(x, p, i, 2).1, Reduced(x, p, i, 3).1, Reduced(x, p, i, 4).1, z4, z5]
  }

  /** The last column is too small to have a top bit or to drop a carry. */
  lemma LastColumn(x: seq<U64>, p: seq<U64>, i: nat)
    requires |x| == |p| == 6 && i < 6 && Val(x) < P
    ensures ColumnOf(x, p, i, 5).t == 0 && ColumnOf(x, p, i, 5).l == 0
  {
    hide Madd1, Madd2s;
    TopLimb(x);
    if i < 5 {
      SmallProduct(x[i], x[5]);
    }
  }

  lemma TopLimb(x: seq<U64>)
    requires |x| == 6 && Val(x) < P
    ensures x[5] <= 1873798617647539866
  {
  }

  lemma SmallProduct(a: U64, b: U64)
    requires b <= 1873798617647539866
    ensures Prod(a, b) <= 0x1_0000_0000_0000_0000 * 1873798617647539866
  {
    ProductGrows(a, 0x1_0000_0000_0000_0000, b);
    ProductGrows(b, 1873798617647539866, 0x1_0000_0000_0000_0000);
  }

  /** The columns of a round, as a number. */
  function ColumnTotal(x: seq<U64>, p: seq<U64>, i: nat): nat
    requires |x| == |p| == 6 && i < 6
  {
    Horner(ColumnOf(x, p, i, 0).v, ColumnOf(x, p, i, 1).v, ColumnOf(x, p, i, 2).v,
           ColumnOf(x, p, i, 3).v, ColumnOf(x, p, i, 4).v, ColumnOf(x, p, i, 5).v)
    + 0x1_000000000000000000000000000000000000000000000000000000000000000000000000000000000000000000000000 * ColumnOf(x, p, i, 5).u
  }

  /** The columns hold the accumulator and the products with x[i], short of the dropped carries. */
  lemma ColumnSum(x: seq<U64>, p: seq<U64>, i: nat)
    requires |x| == |p| == 6 && i < 6 && Val(x) < P
    ensures ColumnTotal(x, p, i) + 0x1_0000_0000_0000_0000_0000_0000_0000_0000 * RoundLoss(x, p, i) == Val(p) + RoundGain(x, i)
  {
    hide Addend, Horner, ColumnOf;
    var c := seq(6, j requires 0 <= j < 6 => ColumnOf(x, p, i, j));
    var a := seq(6, j requires 0 <= j < 6 => Addend(x, i, j));
    LastColumn(x, p, i);
    ColumnIdentity([c[0].v, c[1].v, c[2].v, c[3].v, c[4].v, c[5].v], [c[0].u, c[1].u, c[2].u, c[3].u, c[4].u, c[5].u],
                   [c[0].t, c[1].t, c[2].t, c[3].t, c[4].t, c[5].t], [c[0].l, c[1].l, c[2].l, c[3].l, c[4].l, c[5].l], p, a);
  }

  /** The top two words of a round do not overflow. */
  lemma TopFitsThree(sum: nat, z0: nat, z1: nat, z2: nat, z3: nat, z4: nat, z5: nat, top: nat)
    requires sum < 0x1_0000_0000_0000_0000 * (3 * P)
    requires 0x1_0000_0000_0000_0000 * (z0 + 0x1_0000_0000_0000_0000 * (z1 + 0x1_0000_0000_0000_0000 *
               (z2 + 0x1_0000_0000_0000_0000 * (z3 + 0x1_0000_0000_0000_0000 * top)))) == sum
    requires top < 0x1_0000_0000_0000_0000 * 0x1_0000_0000_0000_0000 ==> 0x1_0000_0000_0000_0000 * z5 + z4 == top
    ensures 0x1_0000_0000_0000_0000 * Horner(z0, z1, z2, z3, z4, z5) == sum
    ensures Horner(z0, z1, z2, z3, z4, z5) < 3 * P
  {
  }

  /** The reduction adds the multiple of the modulus and shifts out the word it clears. */
  lemma ReduceEffect(x: seq<U64>, p: seq<U64>, i: nat)
    requires |x| == |p| == 6 && i < 6
    requires ColumnTotal(x, p, i) + Prod(RoundMultiple(x, p, i), P) < 0x1_0000_0000_0000_0000 * (3 * P)
    ensures 0x1_0000_0000_0000_0000 * Val(RoundWords(x, p, i)) == ColumnTotal(x, p, i) + Prod(RoundMultiple(x, p, i), P)
    ensures Val(RoundWords(x, p, i)) < 3 * P
  {
    hide Prod, Madd0, Madd1, Madd2, Madd3, Reducer, Horner, ColumnOf;
    var c := seq(6, j requires 0 <= j < 6 => ColumnOf(x, p, i, j));
    var m := RoundMultiple(x, p, i);
    var d := [Reduced(x, p, i, 0).0, Reduced(x, p, i, 1).0, Reduced(x, p, i, 2).0, Reduced(x, p, i, 3).0, Reduced(x, p, i, 4).0];
    var z := RoundWords(x, p, i);
    var mp := [Prod(m, 13402431016077863595), Prod(m, 2210141511517208575), Prod(m, 7435674573564081700),
               Prod(m, 7239337960414712511), Prod(m, 5412103778470702295), Prod(m, 1873798617647539866)];
    ReducerClears(c[0].v);
    SpreadProduct(m, Modulus);
    ModulusValue();
    ReduceIdentity([c[0].v, c[1].v, c[2].v, c[3].v, c[4].v, c[5].v], c[5].u, mp, d, z);
    TopFitsThree(ColumnTotal(x, p, i) + Prod(m, P), z[0], z[1], z[2], z[3], z[4], z[5],
                 mp[5] + c[5].v + d[4] + 0x1_0000_0000_0000_0000 * c[5].u);
  }

  // ----- six rounds -----

  /** The accumulator after i rounds. */
  function Sq(x: seq<U64>, i: nat): (t: seq<U64>)
    requires |x| == 6 && i <= 6
    ensures |t| == 6
  {
    if i == 0 then [0, 0, 0, 0, 0, 0] else RoundWords(x, Sq(x, i - 1), i - 1)
  }

  lemma HornerGrows(a: seq<nat>, b: seq<nat>)
    requires |a| == |b| == 6 && forall j :: 0 <= j < 6 ==> a[j] <= 2 * b[j]
    ensures Horner(a[0], a[1], a[2], a[3], a[4], a[5]) <= 2 * Horner(b[0], b[1], b[2], b[3], b[4], b[5])
  {
  }

  /** A round adds at most twice the limb times the element. */
  lemma GainBound(x: seq<U64>, i: nat)
    requires |x| == 6 && i < 6 && Val(x) < P
    ensures RoundGain(x, i) + 2 * P <= 0x1_0000_0000_0000_0000 * (2 * P)
  {
    hide Prod, Horner;
    SpreadProduct(x[i], x);
    HornerGrows([Addend(x, i, 0), Addend(x, i, 1), Addend(x, i, 2), Addend(x, i, 3), Addend(x, i, 4), Addend(x, i, 5)],
                [Prod(x[i], x[0]), Prod(x[i], x[1]), Prod(x[i], x[2]), Prod(x[i], x[3]), Prod(x[i], x[4]), Prod(x[i], x[5])]);
    LimbTimes(x[i], Val(x));
  }

  lemma LimbTimes(v: U64, y: nat)
    requires y <= P
    ensures Prod(v, y) + P <= 0x1_0000_0000_0000_0000 * P
  {
    ProductGrows(y, P, v);
    ProductGrows(v, 0xFFFF_FFFF_FFFF_FFFF, P);
  }

  /** A round's exact effect: the new value, shifted, and the loss against the old one, the gain and the multiple of p. */
  predicate RoundBalance(after: nat, loss: nat, before: nat, gain: nat, multiple: nat)
  {
    0x1_0000_0000_0000_0000 * after + 0x1_0000_0000_0000_0000_0000_0000_0000_0000 * loss == before + gain + multiple
  }

  /** Every intermediate stays below 3p, and each round has its exact effect. */
  lemma {:induction false} SqStep(x: seq<U64>, i: nat)
    requires |x| == 6 && i <= 6 && Val(x) < P
    ensures Val(Sq(x, i)) < 3 * P
    ensures i < 6 ==> RoundBalance(Val(Sq(x, i + 1)), RoundLoss(x, Sq(x, i), i), Val(Sq(x, i)), RoundGain(x, i),
                                   Prod(RoundMultiple(x, Sq(x, i), i), P))
    decreases i
  {
    hide Prod, Horner, RoundWords, RoundGain, RoundLoss, RoundMultiple, ColumnTotal, RoundBalance;
    if i == 0 {
      ZeroValue();
    } else {
      SqStep(x, i - 1);
      SqOne(x, Sq(x, i - 1), i - 1);
    }
    if i < 6 {
      SqOne(x, Sq(x, i), i);
    }
  }

  /** The accumulator before round i, and what round i drops and adds. */
  ghost function Held(x: seq<U64>, i: nat): nat
    requires |x| == 6 && i <= 6
  {
    Val(Sq(x, i))
  }

  ghost function LossAt(x: seq<U64>, i: nat): nat
    requires |x| == 6 && i < 6
  {
    RoundLoss(x, Sq(x, i), i)
  }

  ghost function MultipleAt(x: seq<U64>, i: nat): nat
    requires |x| == 6 && i < 6
  {
    Prod(RoundMultiple(x, Sq(x, i), i), P)
  }

  lemma RoundBalances(x: seq<U64>, i: nat)
    requires |x| == 6 && i < 6 && Val(x) < P
    ensures RoundBalance(Held(x, i + 1), LossAt(x, i), Held(x, i), RoundGain(x, i), MultipleAt(x, i))
  {
    hide Prod, Val, Sq, RoundGain, RoundLoss, RoundMultiple, RoundBalance;
    SqStep(x, i);
  }

  lemma SqOne(x: seq<U64>, p: seq<U64>, i: nat)
    requires |x| == |p| == 6 && i < 6 && Val(x) < P && Val(p) < 3 * P
    ensures Val(RoundWords(x, p, i)) < 3 * P
    ensures RoundBalance(Val(RoundWords(x, p, i)), RoundLoss(x, p, i), Val(p), RoundGain(x, i), Prod(RoundMultiple(x, p, i), P))
  {
    hide Prod, Horner, RoundWords, RoundGain, RoundLoss, RoundMultiple, ColumnTotal;
    GainBound(x, i);
    ColumnSum(x, p, i);
    LimbTimes(RoundMultiple(x, p, i), P);
    ReduceEffect(x, p, i);
  }

  /** Six rounds: what is left times 2^384, and what was lost, against what came in. */
  ghost predicate SquareBalance(left: nat, lost: nat, gained: nat, multiples: nat) {
    R * left + 0x1_0000_0000_0000_0000_0000_0000_0000_0000 * lost == gained + multiples
  }

  /** Six rounds chained. */
  lemma SqChain(
    t1: nat, t2: nat, t3: nat, t4: nat, t5: nat, t6: nat,
    g0: nat, g1: nat, g2: nat, g3: nat, g4: nat, g5: nat,
    l0: nat, l1: nat, l2: nat, l3: nat, l4: nat, l5: nat,
    m0: nat, m1: nat, m2: nat, m3: nat, m4: nat, m5: nat)
    requires RoundBalance(t1, l0, 0, g0, m0)
    requires RoundBalance(t2, l1, t1, g1, m1)
    requires RoundBalance(t3, l2, t2, g2, m2)
    requires RoundBalance(t4, l3, t3, g3, m3)
    requires RoundBalance(t5, l4, t4, g4, m4)
    requires RoundBalance(t6, l5, t5, g5, m5)
    ensures SquareBalance(t6, Horner(l0, l1, l2, l3, l4, l5), Horner(g0, g1, g2, g3, g4, g5),
                          Horner(m0, m1, m2, m3, m4, m5))
  {
  }

  /** All dropped carries together. */
  ghost function Loss(x: seq<U64>): nat
    requires |x| == 6
  {
    Horner(LossAt(x, 0), LossAt(x, 1), LossAt(x, 2), LossAt(x, 3), LossAt(x, 4), LossAt(x, 5))
  }

  /** All products of limbs together, and all multiples of the modulus. */
  ghost function Gains(x: seq<U64>): nat
    requires |x| == 6
  {
    Horner(RoundGain(x, 0), RoundGain(x, 1), RoundGain(x, 2), RoundGain(x, 3), RoundGain(x, 4), RoundGain(x, 5))
  }

  ghost function Multiples(x: seq<U64>): nat
    requires |x| == 6
  {
    Horner(MultipleAt(x, 0), MultipleAt(x, 1), MultipleAt(x, 2), MultipleAt(x, 3), MultipleAt(x, 4), MultipleAt(x, 5))
  }

  /** The multiple of the modulus that the rounds add. */
  function SqMultiples(x: seq<U64>): (m: seq<U64>)
    requires |x| == 6
    ensures |m| == 6
  {
    seq(6, i requires 0 <= i < 6 => RoundMultiple(x, Sq(x, i), i))
  }

  lemma HornerExpanded(a: nat, b: nat, c: nat, d: nat, e: nat, f: nat)
    ensures Horner(a, b, c, d, e, f) ==
            a + 0x10000000000000000 * b + 0x100000000000000000000000000000000 * c
            + 0x1000000000000000000000000000000000000000000000000 * d
            + 0x10000000000000000000000000000000000000000000000000000000000000000 * e
            + 0x100000000000000000000000000000000000000000000000000000000000000000000000000000000 * f
  {
  }

  /** Each cross product counted twice or each pair counted from both sides. */
  lemma SquareIdentity(
    a00: nat, a01: nat, a02: nat, a03: nat, a04: nat, a05: nat, a11: nat, a12: nat, a13: nat, a14: nat, a15: nat,
    a22: nat, a23: nat, a24: nat, a25: nat, a33: nat, a34: nat, a35: nat, a44: nat, a45: nat, a55: nat)
    ensures Horner(
              Horner(a00, 2 * a01, 2 * a02, 2 * a03, 2 * a04, 2 * a05),
              Horner(0, a11, 2 * a12, 2 * a13, 2 * a14, 2 * a15),
              Horner(0, 0, a22, 2 * a23, 2 * a24, 2 * a25),
              Horner(0, 0, 0, a33, 2 * a34, 2 * a35),
              Horner(0, 0, 0, 0, a44, 2 * a45),
              Horner(0, 0, 0, 0, 0, a55))
         == Horner(
              Horner(a00, a01, a02, a03, a04, a05),
              Horner(a01, a11, a12, a13, a14, a15),
              Horner(a02, a12, a22, a23, a24, a25),
              Horner(a03, a13, a23, a33, a34, a35),
              Horner(a04, a14, a24, a34, a44, a45),
              Horner(a05, a15, a25, a35, a45, a55))
  {
    hide Horner;
    HornerExpanded(a00, 2 * a01, 2 * a02, 2 * a03, 2 * a04, 2 * a05);
    HornerExpanded(a00, a01, a02, a03, a04, a05);
    HornerExpanded(0, a11, 2 * a12, 2 * a13, 2 * a14, 2 * a15);
    HornerExpanded(a01, a11, a12, a13, a14, a15);
    HornerExpanded(0, 0, a22, 2 * a23, 2 * a24, 2 * a25);
    HornerExpanded(a02, a12, a22, a23, a24, a25);
    HornerExpanded(0, 0, 0, a33, 2 * a34, 2 * a35);
    HornerExpanded(a03, a13, a23, a33, a34, a35);
    HornerExpanded(0, 0, 0, 0, a44, 2 * a45);
    HornerExpanded(a04, a14, a24, a34, a44, a45);
    HornerExpanded(0, 0, 0, 0, 0, a55);
    HornerExpanded(a05, a15, a25, a35, a45, a55);
    HornerExpanded(Horner(a00, 2 * a01, 2 * a02, 2 * a03, 2 * a04, 2 * a05),
                   Horner(0, a11, 2 * a12, 2 * a13, 2 * a14, 2 * a15),
                   Horner(0, 0, a22, 2 * a23, 2 * a24, 2 * a25),
                   Horner(0, 0, 0, a33, 2 * a34, 2 * a35),
                   Horner(0, 0, 0, 0, a44, 2 * a45),
                   Horner(0, 0, 0, 0, 0, a55));
    HornerExpanded(Horner(a00, a01, a02, a03, a04, a05),
                   Horner(a01, a11, a12, a13, a14, a15),
                   Horner(a02, a12, a22, a23, a24, a25),
                   Horner(a03, a13, a23, a33, a34, a35),
                   Horner(a04, a14, a24, a34, a44, a45),
                   Horner(a05, a15, a25, a35, a45, a55));
  }

  /** The products of all rounds make up the square. */
  lemma GainsMakeSquare(x: seq<U64>)
    requires |x| == 6
    ensures Gains(x) == Prod(Val(x), Val(x))
  {
    hide Prod, Horner;
    SpreadCommuted(x, Val(x));
    SpreadProduct(x[0], x);
    SpreadProduct(x[1], x);
    SpreadProduct(x[2], x);
    SpreadProduct(x[3], x);
    SpreadProduct(x[4], x);
    SpreadProduct(x[5], x);
    forall i, j | 0 <= i < j < 6 ensures Prod(x[i], x[j]) == Prod(x[j], x[i]) { Commute(x[i], x[j]); }
    SquareIdentity(
      Prod(x[0], x[0]), Prod(x[0], x[1]), Prod(x[0], x[2]), Prod(x[0], x[3]), Prod(x[0], x[4]),
      Prod(x[0], x[5]), Prod(x[1], x[1]), Prod(x[1], x[2]), Prod(x[1], x[3]), Prod(x[1], x[4]),
      Prod(x[1], x[5]), Prod(x[2], x[2]), Prod(x[2], x[3]), Prod(x[2], x[4]), Prod(x[2], x[5]),
      Prod(x[3], x[3]), Prod(x[3], x[4]), Prod(x[3], x[5]), Prod(x[4], x[4]), Prod(x[4], x[5]),
      Prod(x[5], x[5]));
  }

  /** The six rounds of one squaring, chained. */
  lemma SqRounds(x: seq<U64>)
    requires |x| == 6 && Val(x) < P
    ensures SquareBalance(Held(x, 6), Loss(x), Gains(x), Multiples(x))
  {
    hide Held, LossAt, RoundGain, MultipleAt, RoundBalance, SquareBalance, Horner, Val;
    SqStart(x);
    RoundBalances(x, 0);
    RoundBalances(x, 1);
    RoundBalances(x, 2);
    RoundBalances(x, 3);
    RoundBalances(x, 4);
    RoundBalances(x, 5);
    SqChain(Held(x, 1), Held(x, 2), Held(x, 3), Held(x, 4), Held(x, 5), Held(x, 6),
            RoundGain(x, 0), RoundGain(x, 1), RoundGain(x, 2), RoundGain(x, 3), RoundGain(x, 4), RoundGain(x, 5),
            LossAt(x, 0), LossAt(x, 1), LossAt(x, 2), LossAt(x, 3), LossAt(x, 4), LossAt(x, 5),
            MultipleAt(x, 0), MultipleAt(x, 1), MultipleAt(x, 2), MultipleAt(x, 3), MultipleAt(x, 4), MultipleAt(x, 5));
  }

  /** After six rounds the accumulator times 2^384 is the square, short of the dropped carries, plus a multiple of p. */
  lemma SqTotal(x: seq<U64>)
    requires |x| == 6 && Val(x) < P
    ensures SquareBalance(Held(x, 6), Loss(x), Prod(Val(x), Val(x)), Prod(Val(SqMultiples(x)), P))
  {
    hide *;
    SqRounds(x);
    GainsMakeSquare(x);
    MultiplesAdd(x);
  }

  lemma MultiplesAdd(x: seq<U64>)
    requires |x| == 6
    ensures Multiples(x) == Prod(Val(SqMultiples(x)), P)
  {
    hide Prod, Horner, Sq, RoundMultiple, Val;
    var m := SqMultiples(x);
    SpreadCommuted(m, P);
    assert forall i :: 0 <= i < 6 ==> Prod(m[i], P) == MultipleAt(x, i);
  }

  lemma SqStart(x: seq<U64>)
    requires |x| == 6
    ensures Held(x, 0) == 0
  {
    ZeroValue();
  }

  // ----- exactly when the square is right -----

  /** No column drops a carry. */
  ghost predicate DropsNothing(x: seq<U64>)
    requires |x| == 6
  {
    forall i, j :: 0 <= i < j < 5 ==> ColumnOf(x, Sq(x, i), i, j).l == 0
  }

  /** The dropped carries are a word above a small number whose low word is that of the first column. */
  function LossCore(l01: nat, l02: nat, l03: nat, l04: nat, l12: nat, l13: nat, l14: nat, l23: nat, l24: nat, l34: nat): nat
  {
    l01 + 0x1_0000_0000_0000_0000 * Horner(l02, l03 + l12, l04 + l13, l14 + l23, l24, l34)
  }

  lemma LossCoreExact(l01: nat, l02: nat, l03: nat, l04: nat, l12: nat, l13: nat, l14: nat, l23: nat, l24: nat, l34: nat)
    ensures Horner(Horner(0, l01, l02, l03, l04, 0), Horner(0, 0, l12, l13, l14, 0), Horner(0, 0, 0, l23, l24, 0),
                   Horner(0, 0, 0, 0, l34, 0), 0, 0)
         == 0x1_0000_0000_0000_0000 * LossCore(l01, l02, l03, l04, l12, l13, l14, l23, l24, l34)
  {
  }

  lemma LossCoreSmall(l01: nat, l02: nat, l03: nat, l04: nat, l12: nat, l13: nat, l14: nat, l23: nat, l24: nat, l34: nat)
    requires l01 <= 1 && l02 <= 1 && l03 <= 1 && l04 <= 1 && l12 <= 1 && l13 <= 1 && l14 <= 1 && l23 <= 1 && l24 <= 1 && l34 <= 1
    ensures LossCore(l01, l02, l03, l04, l12, l13, l14, l23, l24, l34) < 2 * R
    ensures LossCore(l01, l02, l03, l04, l12, l13, l14, l23, l24, l34) == 0 <==>
              l01 == 0 && l02 == 0 && l03 == 0 && l04 == 0 && l12 == 0 && l13 == 0 && l14 == 0 && l23 == 0 && l24 == 0 && l34 == 0
  {
  }

  ghost function Core(x: seq<U64>): nat
    requires |x| == 6
  {
    LossCore(ColumnOf(x, Sq(x, 0), 0, 1).l, ColumnOf(x, Sq(x, 0), 0, 2).l, ColumnOf(x, Sq(x, 0), 0, 3).l, ColumnOf(x, Sq(x, 0), 0, 4).l,
             ColumnOf(x, Sq(x, 1), 1, 2).l, ColumnOf(x, Sq(x, 1), 1, 3).l, ColumnOf(x, Sq(x, 1), 1, 4).l,
             ColumnOf(x, Sq(x, 2), 2, 3).l, ColumnOf(x, Sq(x, 2), 2, 4).l, ColumnOf(x, Sq(x, 3), 3, 4).l)
  }

  lemma LossIsCore(x: seq<U64>)
    requires |x| == 6
    ensures Loss(x) == 0x1_0000_0000_0000_0000 * Core(x)
    ensures Core(x) < 2 * R && (Core(x) == 0 <==> DropsNothing(x))
  {
    hide ColumnOf, Sq, LossCore, Horner;
    LossCoreExact(ColumnOf(x, Sq(x, 0), 0, 1).l, ColumnOf(x, Sq(x, 0), 0, 2).l, ColumnOf(x, Sq(x, 0), 0, 3).l, ColumnOf(x, Sq(x, 0), 0, 4).l,
                  ColumnOf(x, Sq(x, 1), 1, 2).l, ColumnOf(x, Sq(x, 1), 1, 3).l, ColumnOf(x, Sq(x, 1), 1, 4).l,
                  ColumnOf(x, Sq(x, 2), 2, 3).l, ColumnOf(x, Sq(x, 2), 2, 4).l, ColumnOf(x, Sq(x, 3), 3, 4).l);
    LossCoreSmall(ColumnOf(x, Sq(x, 0), 0, 1).l, ColumnOf(x, Sq(x, 0), 0, 2).l, ColumnOf(x, Sq(x, 0), 0, 3).l, ColumnOf(x, Sq(x, 0), 0, 4).l,
                  ColumnOf(x, Sq(x, 1), 1, 2).l, ColumnOf(x, Sq(x, 1), 1, 3).l, ColumnOf(x, Sq(x, 1), 1, 4).l,
                  ColumnOf(x, Sq(x, 2), 2, 3).l, ColumnOf(x, Sq(x, 2), 2, 4).l, ColumnOf(x, Sq(x, 3), 3, 4).l);
    HornerZero();
  }

  lemma HornerZero()
    ensures Horner(0, 0, 0, 0, 0, 0) == 0
  {
  }

  /** No small multiple of p but zero has a low word of zero or one. */
  lemma NoSmallMultiple(q: nat, l: nat, rest: nat)
    requires q < 20 && l <= 1 && l + 0x1_0000_0000_0000_0000 * rest == P * q
    ensures q == 0
  {
    var low := 13402431016077863595;
    var k := rest - 0x1a0111ea397fe69a4b1ba7b6434bacd764774b84f38512bf6730d2a0f6b0f6241eabfffeb153ffff * q;
    assert l + 0x1_0000_0000_0000_0000 * k == low * q;
    assert 0 <= k < 20;
  }

  lemma Pow192()
    ensures Pow2(192) == 0x1_0000_0000_0000_0000_0000_0000_0000_0000_0000_0000_0000_0000
  {
    assert Pow2(3) == 8;
    hide Pow2;
    Pow2Square(3, 8);
    Pow2Square(6, 0x40);
    Pow2Square(12, 0x1000);
    Pow2Square(24, 0x100_0000);
    Pow2Square(48, 0x1_0000_0000_0000);
    Pow2Square(96, 0x1_000000000000000000000000);
  }

  /** Dropped carries never add up to a multiple of the modulus. */
  lemma LossNoMultiple(x: seq<U64>)
    requires |x| == 6 && Cong(0x1_0000_0000_0000_0000_0000_0000_0000_0000 * Loss(x), 0)
    ensures Loss(x) == 0
  {
    hide Loss, Core, Pow2, Times, Multiple;
    LossIsCore(x);
    var g := Core(x);
    var k :| 0x1_0000_0000_0000_0000_0000_0000_0000_0000 * Loss(x) == 0 + Multiple(k);
    Pow192();
    TimesProduct(g, Pow2(192));
    MultipleIsTimes(k);
    TimesCommutes(k, P);
    assert Divides(P, Times(g, Pow2(192)));
    OddDividesScaled(P, g, 192);
    var q :| g == Times(P, q);
    TimesProduct(P, q);
    SmallQuotient(g, q);
    CoreLow(x, q);
  }

  lemma SmallQuotient(g: nat, q: int)
    requires g == P * q && g < 2 * R
    ensures 0 <= q < 20
  {
  }

  lemma CoreLow(x: seq<U64>, q: nat)
    requires |x| == 6 && q < 20 && Core(x) == P * q
    ensures Core(x) == 0
  {
    hide ColumnOf, Sq, Horner;
    var l := ColumnOf(x, Sq(x, 0), 0, 1).l;
    var rest := Horner(ColumnOf(x, Sq(x, 0), 0, 2).l, ColumnOf(x, Sq(x, 0), 0, 3).l + ColumnOf(x, Sq(x, 1), 1, 2).l,
                       ColumnOf(x, Sq(x, 0), 0, 4).l + ColumnOf(x, Sq(x, 1), 1, 3).l,
                       ColumnOf(x, Sq(x, 1), 1, 4).l + ColumnOf(x, Sq(x, 2), 2, 3).l,
                       ColumnOf(x, Sq(x, 2), 2, 4).l, ColumnOf(x, Sq(x, 3), 3, 4).l);
    NoSmallMultiple(q, l, rest);
  }

  lemma SqBelowTwice(x: seq<U64>)
    requires |x| == 6 && Val(x) < P
    ensures Val(Sq(x, 6)) < 2 * P
  {
    hide Sq, Loss, SqMultiples, Val;
    SqTotal(x);
    ValBound(SqMultiples(x));
    ProductGrows(Val(x), P, Val(x));
    ProductGrows(Val(x), P, P);
    ProductGrows(Val(SqMultiples(x)), R - 1, P);
  }

  /** The reduced result equals the Montgomery product of the element with itself exactly when no carry is dropped. */
  lemma SquareExact(x: seq<U64>)
    requires |x| == 6 && Val(x) < P
    ensures var t := Val(Sq(x, 6));
            t < 2 * P && ((if t < P then t else t - P) == MontMul(Val(x), Val(x)) <==> DropsNothing(x))
    ensures var t := Val(Sq(x, 6));
            Cong(Scaled(if t < P then t else t - P), Times(Val(x), Val(x)) - 0x1_0000_0000_0000_0000_0000_0000_0000_0000 * Loss(x))
  {
    hide *;
    SqScaled(x);
    SqBelowTwice(x);
    LossIsCore(x);
    var t, n := Val(Sq(x, 6)), Val(x);
    var loss := 0x1_0000_0000_0000_0000_0000_0000_0000_0000 * Loss(x);
    ReducedCong(t, Times(n, n) - loss, Val(SqMultiples(x)));
    var z := if t < P then t else t - P;
    assert Cong(Scaled(z), Times(n, n) - loss);
    if Loss(x) == 0 {
      MontUnique(z, n, n);
    } else if z == MontMul(n, n) {
      CongAdd(Scaled(z), Times(n, n), Scaled(z), Times(n, n) - loss);
      CongSym(0, loss);
      LossNoMultiple(x);
    }
  }

  lemma SqScaled(x: seq<U64>)
    requires |x| == 6 && Val(x) < P
    ensures Scaled(Val(Sq(x, 6))) == Times(Val(x), Val(x)) - 0x1_0000_0000_0000_0000_0000_0000_0000_0000 * Loss(x)
                                     + Multiple(Val(SqMultiples(x)))
  {
    hide Val, Sq, Loss, SqMultiples, Times;
    SqTotal(x);
    TimesProduct(Val(x), Val(x));
  }

  // ----- on limbs alone -----

  /** No doubled product of two lower limbs falls just short of two full words. */
  predicate ClearLimbs(x: seq<U64>)
    requires |x| == 6
  {
    forall i, j :: 0 <= i < j < 5 ==>
      2 * Prod(x[i], x[j]) < 0xFFFF_FFFF_FFFF_FFFD_0000_0000_0000_0002
      || 2 * Prod(x[i], x[j]) >= 0x1_0000_0000_0000_0000_0000_0000_0000_0000
  }

  lemma ClearLimbsDropNothing(x: seq<U64>)
    requires |x| == 6 && ClearLimbs(x)
    ensures DropsNothing(x)
  {
    hide Prod, Madd2s, Madd1, Sq;
    forall i, j | 0 <= i < j < 5 ensures ColumnOf(x, Sq(x, i), i, j).l == 0 {
      assert 2 * Prod(x[i], x[j]) < 0xFFFF_FFFF_FFFF_FFFD_0000_0000_0000_0002
             || 2 * Prod(x[i], x[j]) >= 0x1_0000_0000_0000_0000_0000_0000_0000_0000;
      assert ColumnOf(x, Sq(x, i), i, j - 1).t <= 1;
    }
  }

  /** The first two columns of an element that drops a carry in its first round. */
  lemma FirstDrop(x: seq<U64>)
    requires x == [0x8000_0000_0000_0001, 0xFFFF_FFFF_FFFF_FFFE, 0, 0, 0, 0]
    ensures !DropsNothing(x)
  {
    hide RoundWords;
    var p: seq<U64> := [0, 0, 0, 0, 0, 0];
    assert Sq(x, 0) == p;
    assert Madd1(0x8000_0000_0000_0001, 0x8000_0000_0000_0001, 0).0 == 0x4000_0000_0000_0001;
    assert ColumnOf(x, p, 0, 0) == Column(Madd1(x[0], x[0], 0).1, 0x4000_0000_0000_0001, 0, 0);
    assert Prod(x[0], x[1]) == 0x7FFF_FFFF_FFFF_FFFF_FFFF_FFFF_FFFF_FFFE;
    assert ColumnOf(x, p, 0, 1).l == 1;
  }

  /** Its square is not its product with itself. */
  lemma SquareFails()
    ensures var x: seq<U64> := [0x8000_0000_0000_0001, 0xFFFF_FFFF_FFFF_FFFE, 0, 0, 0, 0];
            var t := Val(Sq(x, 6));
            Val(x) < P && (if t < P then t else t - P) != MontMul(Val(x), Val(x))
  {
    hide Sq, MontMul, DropsNothing, Loss, Cong, Scaled, Times;
    var x: seq<U64> := [0x8000_0000_0000_0001, 0xFFFF_FFFF_FFFF_FFFE, 0, 0, 0, 0];
    assert Val(x) < P;
    FirstDrop(x);
    SquareExact(x);
  }

  // ----- in place -----

  /** One round in place; the output may be the accumulator, or in the last round the element. */
  method SquareRound(out: array<U64>, p: array<U64>, x: array<U64>, i: nat)
    requires out.Length == p.Length == x.Length == 6 && i < 6 && (out == x ==> i == 5)
    modifies out
    ensures out[..] == RoundWords(old(x[..]), old(p[..]), i)
  {
    hide Madd0, Madd1, Madd2, Madd3, Madd2s, Reducer, Addend, HandedOn, ColumnOf, Reduced, RoundMultiple;
    ghost var xs, ps := x[..], p[..];
    var v, u := FirstColumn(x, p, i);
    var t: nat := 0;
    var m := Reducer(v);
    var c := Madd0(m, 13402431016077863595, v);
    ReducedFirst(xs, ps, i);
    var j := 1;
    while j < 5
      invariant 1 <= j <= 5 && c == Reduced(xs, ps, i, j - 1).0 && m == RoundMultiple(xs, ps, i)
      invariant u == ColumnOf(xs, ps, i, j - 1).u && t == ColumnOf(xs, ps, i, j - 1).t
      invariant p[j..] == ps[j..] && x[j..] == xs[j..] && x[i] == xs[i]
      invariant forall k :: 0 <= k < j - 1 ==> out[k] == Reduced(xs, ps, i, k + 1).1
    {
      assert p[j] == p[j..][0] && x[j] == x[j..][0];
      v, u, t := NextColumn(x, p, i, j, u, t, xs, ps);
      ReducedStep(xs, ps, i, j);
      var (carry, w) := Madd2(m, ModulusLimb(j), v, c);
      c := carry;
      assert p[j + 1..] == p[j..][1..] && x[j + 1..] == x[j..][1..];
      out[j - 1] := w;
      j := j + 1;
    }
    assert p[5] == p[5..][0] && x[5] == x[5..][0];
    v, u, t := NextColumn(x, p, i, 5, u, t, xs, ps);
    var (z5, z4) := Madd3(m, 1873798617647539866, v, c, u);
    out[4] := z4;
    out[5] := z5;
  }

  method FirstColumn(x: array<U64>, p: array<U64>, i: nat) returns (v: U64, u: U64)
    requires x.Length == p.Length == 6 && i < 6
    ensures var c := ColumnOf(x[..], p[..], i, 0); v == c.v && u == c.u && c.t == 0
  {
    hide Madd1, Madd2s;
    v, u := p[0], 0;
    if i == 0 {
      var (hi, lo) := Madd1(x[0], x[0], p[0]);
      u, v := hi, lo;
    }
  }

  lemma ReducedFirst(x: seq<U64>, p: seq<U64>, i: nat)
    requires |x| == |p| == 6 && i < 6
    ensures RoundMultiple(x, p, i) == Reducer(ColumnOf(x, p, i, 0).v)
    ensures Reduced(x, p, i, 0).0 == Madd0(RoundMultiple(x, p, i), 13402431016077863595, ColumnOf(x, p, i, 0).v)
  {
    hide Madd0, ColumnOf, Reducer;
  }

  lemma ReducedStep(x: seq<U64>, p: seq<U64>, i: nat, j: nat)
    requires |x| == |p| == 6 && i < 6 && 1 <= j < 5
    ensures Reduced(x, p, i, j) == Madd2(RoundMultiple(x, p, i), Modulus[j], ColumnOf(x, p, i, j).v, Reduced(x, p, i, j - 1).0)
  {
    hide Madd0, Madd2, ColumnOf, Reducer;
  }

  function ModulusLimb(j: nat): (w: U64)
    requires j < 6
    ensures w == Modulus[j]
  {
    if j == 0 then 13402431016077863595 else if j == 1 then 2210141511517208575 else if j == 2 then 7435674573564081700
    else if j == 3 then 7239337960414712511 else if j == 4 then 5412103778470702295 else 1873798617647539866
  }

  /** A column of round i from the one before it: left alone, the square of the limb, or a doubled product. */
  method NextColumn(x: array<U64>, p: array<U64>, i: nat, j: nat, u: U64, t: nat, ghost xs: seq<U64>, ghost ps: seq<U64>)
    returns (v: U64, u': U64, t': nat)
    requires x.Length == p.Length == |xs| == |ps| == 6 && i < 6 && 0 < j < 6
    requires x[i] == xs[i] && x[j] == xs[j] && p[j] == ps[j]
    requires u == ColumnOf(xs, ps, i, j - 1).u && t == ColumnOf(xs, ps, i, j - 1).t
    ensures v == ColumnOf(xs, ps, i, j).v && u' == ColumnOf(xs, ps, i, j).u && t' == ColumnOf(xs, ps, i, j).t
  {
    hide Madd1, Madd2s, Addend, HandedOn;
    if j < i {
      v, u', t' := p[j], 0, 0;
    } else if j == i {
      var (hi, lo) := Madd1(x[i], x[i], p[i]);
      v, u', t' := lo, hi, 0;
    } else {
      var (superhi, hi, lo) := Madd2s(x[i], x[j], p[j], t, u);
      v, u', t' := lo, hi, superhi;
    }
  }

  /**
   * The squaring routine. The result is the one reduced number that stands for the square less the dropped carries; it is
   * the Montgomery product of the element with itself exactly when no column drops a carry. z may be x.
   */
  method Square(z: array<U64>, x: array<U64>)
    requires z.Length == x.Length == 6 && Val(x[..]) < P
    modifies z
    ensures Val(z[..]) < P
    ensures Cong(Scaled(Val(z[..])), Times(Val(old(x[..])), Val(old(x[..]))) - 0x1_0000_0000_0000_0000_0000_0000_0000_0000 * Loss(old(x[..])))
    ensures Val(z[..]) == MontMul(Val(old(x[..])), Val(old(x[..]))) <==> DropsNothing(old(x[..]))
    ensures ClearLimbs(old(x[..])) ==> Val(z[..]) == MontMul(Val(old(x[..])), Val(old(x[..])))
  {
    hide Horner, RoundWords, MontMul, DropsNothing, ClearLimbs, Loss, Cong, Scaled, Times;
    ghost var xs := x[..];
    var p := new U64[6];
    SetZero(p);
    SquareRound(p, p, x, 0);
    SquareRound(p, p, x, 1);
    SquareRound(p, p, x, 2);
    SquareRound(p, p, x, 3);
    SquareRound(p, p, x, 4);
    SquareRound(z, p, x, 5);
    SqUnrolled(xs);
    SquareExact(xs);
    Reduce(z);
    if ClearLimbs(xs) {
      ClearLimbsDropNothing(xs);
    }
  }

  lemma SqUnrolled(x: seq<U64>)
    requires |x| == 6
    ensures Sq(x, 6) == RoundWords(x, RoundWords(x, RoundWords(x, RoundWords(x, RoundWords(x, RoundWords(x,
                          [0, 0, 0, 0, 0, 0], 0), 1), 2), 3), 4), 5)
  {
    hide RoundWords;
    assert Sq(x, 0) == [0, 0, 0, 0, 0, 0];
    assert Sq(x, 1) == RoundWords(x, Sq(x, 0), 0);
    assert Sq(x, 2) == RoundWords(x, Sq(x, 1), 1);
    assert Sq(x, 3) == RoundWords(x, Sq(x, 2), 2);
    assert Sq(x, 4) == RoundWords(x, Sq(x, 3), 3);
    assert Sq(x, 5) == RoundWords(x, Sq(x, 4), 4);
  }
}
