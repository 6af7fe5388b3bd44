/** Scalar multiplication and windowed bucket multi-exponentiation over any commutative group. */
module BlsMultiExp {
  import opened Results
  import opened Arithmetic
  import opened BlsDigits

  /** What the algorithms use of a group: its zero and its addition. */
  datatype Group<!T> = Group(zero: T, add: (T, T) -> T)

  ghost predicate Laws<T(!new)>(g: Group<T>)
  {
    && (forall x: T {:trigger g.add(x, g.zero)} :: g.add(x, g.zero) == x)
    && (forall x: T, y: T :: g.add(x, y) == g.add(y, x))
    && (forall x: T, y: T, z: T {:trigger g.add(g.add(x, y), z)} :: g.add(g.add(x, y), z) == g.add(x, g.add(y, z)))
  }

  // The laws one instance at a time: with all three in view the solver would rearrange sums for ever.

  lemma Unit<T(!new)>(g: Group<T>, x: T)
    requires Laws(g)
    ensures g.add(x, g.zero) == x == g.add(g.zero, x)
  {
    assert g.add(g.zero, x) == g.add(x, g.zero);
  }

  lemma Commutes<T(!new)>(g: Group<T>, x: T, y: T)
    requires Laws(g)
    ensures g.add(x, y) == g.add(y, x)
  {
  }

  lemma Associates<T(!new)>(g: Group<T>, x: T, y: T, z: T)
    requires Laws(g)
    ensures g.add(g.add(x, y), z) == g.add(x, g.add(y, z))
  {
  }

  /** Two sums of pairs, regrouped. */
  lemma Regroup<T(!new)>(g: Group<T>, a: T, b: T, c: T, d: T)
    requires Laws(g)
    ensures g.add(g.add(a, b), g.add(c, d)) == g.add(g.add(a, c), g.add(b, d))
  {
    hide Laws;
    Associates(g, a, b, g.add(c, d));
    Associates(g, b, c, d);
    Commutes(g, b, c);
    Associates(g, c, b, d);
    Associates(g, a, c, g.add(b, d));
  }

  // ----- repeated addition -----

  /** n times p. */
  function Mult<T>(g: Group<T>, n: nat, p: T): T
  {
    if n == 0 then g.zero else g.add(Mult(g, n - 1, p), p)
  }

  lemma {:induction false} MultSum<T(!new)>(g: Group<T>, m: nat, n: nat, p: T)
    requires Laws(g)
    ensures Mult(g, m + n, p) == g.add(Mult(g, m, p), Mult(g, n, p))
    decreases n
  {
    hide Laws;
    if n == 0 {
      Unit(g, Mult(g, m, p));
    } else {
      MultSum(g, m, n - 1, p);
      Associates(g, Mult(g, m, p), Mult(g, n - 1, p), p);
    }
  }

  lemma {:induction false} MultOfSum<T(!new)>(g: Group<T>, n: nat, p: T, q: T)
    requires Laws(g)
    ensures Mult(g, n, g.add(p, q)) == g.add(Mult(g, n, p), Mult(g, n, q))
  {
    hide Laws;
    if n == 0 {
      Unit(g, g.zero);
    } else {
      MultOfSum(g, n - 1, p, q);
      Regroup(g, Mult(g, n - 1, p), Mult(g, n - 1, q), p, q);
    }
  }

  lemma {:induction false} MultOfZero<T(!new)>(g: Group<T>, n: nat)
    requires Laws(g)
    ensures Mult(g, n, g.zero) == g.zero
  {
    hide Laws;
    if n > 0 {
      MultOfZero(g, n - 1);
      Unit(g, g.zero);
    }
  }

  lemma {:induction false} MultProduct<T(!new)>(g: Group<T>, m: nat, n: nat, p: T)
    requires Laws(g)
    ensures Times(m, n) >= 0 && Mult(g, Times(m, n), p) == Mult(g, m, Mult(g, n, p))
  {
    hide Laws, Times;
    TimesPositive(m, n);
    TimesAdd(0, 0, n);
    if m > 0 {
      MultProduct(g, m - 1, n, p);
      TimesAdd(m - 1, 1, n);
      TimesUnit(n);
      MultSum(g, Times(m - 1, n), n, p);
    }
  }

  lemma MultTwice<T(!new)>(g: Group<T>, n: nat, p: T)
    requires Laws(g)
    ensures Mult(g, n, g.add(p, p)) == Mult(g, 2 * n, p)
  {
    hide Laws;
    MultOfSum(g, n, p, p);
    MultSum(g, n, n, p);
  }

  // ----- double and add -----

  /** Taking the low binary digit of n times p into the running sum. */
  lemma DoubleAndAdd<T(!new)>(g: Group<T>, q: T, n: nat, p: T)
    requires Laws(g)
    ensures g.add(if n % 2 == 1 then g.add(q, p) else q, Mult(g, n / 2, g.add(p, p))) == g.add(q, Mult(g, n, p))
  {
    hide Laws, Mult;
    MultTwice(g, n / 2, p);
    if n % 2 == 1 {
      MultSum(g, 1, 2 * (n / 2), p);
      MultOnce(g, p);
      Associates(g, q, p, Mult(g, 2 * (n / 2), p));
    }
  }

  lemma MultOnce<T(!new)>(g: Group<T>, p: T)
    requires Laws(g)
    ensures Mult(g, 1, p) == p
  {
    hide Laws;
    Unit(g, p);
    assert Mult(g, 1, p) == g.add(Mult(g, 0, p), p);
  }

  lemma NextBit(e: nat, i: nat)
    requires BitLen(Shift(e, 2, i)) > 0
    ensures Shift(e, 2, i + 1) == Shift(e, 2, i) / 2 && BitLen(Shift(e, 2, i + 1)) == BitLen(Shift(e, 2, i)) - 1
  {
  }

  lemma BitsStart<T(!new)>(g: Group<T>, e: nat, p: T)
    ensures Shift(e, 2, 0) == e && Mult(g, 0, p) == g.zero && (BitLen(e) == 0 ==> e == 0)
  {
  }

  /** Right-to-left double and add is repeated addition. */
  method MulScalar<T(!new)>(g: Group<T>, p: T, e: nat) returns (c: T)
    requires Laws(g)
    ensures c == Mult(g, e, p)
  {
    hide Laws, Mult, Shift, BitLen;
    var q, n := g.zero, p;
    ghost var rest := e;
    var l := BitLen(e);
    var i := 0;
    Unit(g, Mult(g, e, p));
    BitsStart(g, e, p);
    while i < l
      invariant 0 <= i <= l && BitLen(rest) == l - i && rest == Shift(e, 2, i)
      invariant g.add(q, Mult(g, rest, n)) == Mult(g, e, p)
    {
      DoubleAndAdd(g, q, rest, n);
      NextBit(e, i);
      if Shift(e, 2, i) % 2 == 1 {
        q := g.add(q, n);
      }
      n := g.add(n, n);
      rest := rest / 2;
      i := i + 1;
    }
    Unit(g, q);
    BitsStart(g, rest, n);
    c := q;
  }

  // ----- sums of multiples -----

  /** e[0]*p[0] + ... + e[n-1]*p[n-1]. */
  function Dot<T>(g: Group<T>, e: seq<nat>, p: seq<T>, n: nat): T
    requires n <= |e| && n <= |p|
  {
    if n == 0 then g.zero else g.add(Dot(g, e, p, n - 1), Mult(g, e[n - 1], p[n - 1]))
  }

  /** Dot is linear in the scalars: scaling by b and adding digits. */
  lemma {:induction false} DotLinear<T(!new)>(
    g: Group<T>, b: nat, hi: seq<nat>, lo: seq<nat>, e: seq<nat>, p: seq<T>, n: nat)
    requires Laws(g) && |hi| == |lo| == |e| == |p| && n <= |p|
    requires forall k :: 0 <= k < n ==> e[k] == Times(b, hi[k]) + lo[k]
    ensures Dot(g, e, p, n) == g.add(Mult(g, b, Dot(g, hi, p, n)), Dot(g, lo, p, n))
  {
    hide Laws, Mult, Times;
    if n == 0 {
      MultOfZero(g, b);
      Unit(g, g.zero);
    } else {
      var h, l, q := hi[n - 1], lo[n - 1], p[n - 1];
      DotLinear(g, b, hi, lo, e, p, n - 1);
      MultOfSum(g, b, Dot(g, hi, p, n - 1), Mult(g, h, q));
      MultProduct(g, b, h, q);
      MultSum(g, Times(b, h), l, q);
      Regroup(g, Mult(g, b, Dot(g, hi, p, n - 1)), Dot(g, lo, p, n - 1), Mult(g, Times(b, h), q), Mult(g, l, q));
    }
  }

  // ----- buckets -----

  /** b[i] + b[i+1] + ... */
  function Suffix<T>(g: Group<T>, b: seq<T>, i: nat): T
    requires i <= |b|
    decreases |b| - i
  {
    if i == |b| then g.zero else g.add(Suffix(g, b, i + 1), b[i])
  }

  /** The sum of the suffix sums from i on: every bucket weighted by its distance. */
  function Weighted<T>(g: Group<T>, b: seq<T>, i: nat): T
    requires i <= |b|
    decreases |b| - i
  {
    if i == |b| then g.zero else g.add(Weighted(g, b, i + 1), Suffix(g, b, i))
  }

  lemma {:induction false} WeightedZero<T(!new)>(g: Group<T>, b: seq<T>, i: nat)
    requires Laws(g) && i <= |b| && forall k :: 0 <= k < |b| ==> b[k] == g.zero
    ensures Suffix(g, b, i) == g.zero && Weighted(g, b, i) == g.zero
    decreases |b| - i
  {
    hide Laws;
    if i < |b| {
      WeightedZero(g, b, i + 1);
      Unit(g, g.zero);
    }
  }

  lemma {:induction false} SuffixUpdate<T(!new)>(g: Group<T>, b: seq<T>, k: nat, p: T, i: nat)
    requires Laws(g) && k < |b| && i <= |b|
    ensures Suffix(g, b[k := g.add(b[k], p)], i) == if i <= k then g.add(Suffix(g, b, i), p) else Suffix(g, b, i)
    decreases |b| - i
  {
    hide Laws;
    if i < |b| {
      SuffixUpdate(g, b, k, p, i + 1);
      var s := Suffix(g, b, i + 1);
      Associates(g, s, p, b[i]);
      Commutes(g, p, b[i]);
      Associates(g, s, b[i], p);
    }
  }

  /** Adding a point to a bucket adds the point as often as the bucket's number says. */
  lemma {:induction false} WeightedUpdate<T(!new)>(g: Group<T>, b: seq<T>, k: nat, p: T, i: nat)
    requires Laws(g) && k < |b| && i <= |b|
    ensures Weighted(g, b[k := g.add(b[k], p)], i) ==
            if i <= k then g.add(Weighted(g, b, i), Mult(g, k - i + 1, p)) else Weighted(g, b, i)
    decreases |b| - i
  {
    hide Laws, Suffix;
    if i < |b| {
      WeightedUpdate(g, b, k, p, i + 1);
      SuffixUpdate(g, b, k, p, i);
      if i <= k {
        var w, s := Weighted(g, b, i + 1), Suffix(g, b, i);
        Unit(g, w);
        Regroup(g, w, Mult(g, k - i, p), s, p);
      }
    }
  }

  // ----- windows -----

  /** The bit length of the group order. */
  const NUM_BITS: nat := 255

  /** Digit i of every scalar. */
  function DigitAt(e: seq<nat>, b: nat, i: nat): (d: seq<nat>)
    requires b > 0
    ensures |d| == |e| && forall k :: 0 <= k < |e| ==> d[k] == Digit(e[k], b, i)
  {
    seq(|e|, k requires 0 <= k < |e| => Digit(e[k], b, i))
  }

  /** The digits from i to n of every scalar. */
  function DigitsFrom(e: seq<nat>, b: nat, i: nat, n: nat): (d: seq<nat>)
    requires b > 0
    ensures |d| == |e| && forall k :: 0 <= k < |e| ==> d[k] == Digits(e[k], b, i, n)
  {
    seq(|e|, k requires 0 <= k < |e| => Digits(e[k], b, i, n))
  }

  function Shifted(e: seq<nat>, b: nat, i: nat): (d: seq<nat>)
    requires b > 0
    ensures |d| == |e| && forall k :: 0 <= k < |e| ==> d[k] == Shift(e[k], b, i)
  {
    seq(|e|, k requires 0 <= k < |e| => Shift(e[k], b, i))
  }

  /** Adds a point to the bucket of its digit; digit zero has none. */
  method AddToBucket<T(!new)>(g: Group<T>, bucket: array<T>, index: nat, p: T)
    requires Laws(g) && index <= bucket.Length
    modifies bucket
    ensures Weighted(g, bucket[..], 0) == g.add(old(Weighted(g, bucket[..], 0)), Mult(g, index, p))
  {
    hide Laws, Weighted, Mult;
    ghost var was := bucket[..];
    if index != 0 {
      WeightedUpdate(g, was, index - 1, p, 0);
      bucket[index - 1] := g.add(bucket[index - 1], p);
      assert bucket[..] == was[index - 1 := g.add(was[index - 1], p)];
    } else {
      Unit(g, Weighted(g, was, 0));
      MultNone(g, p);
    }
  }

  /** The low c bits of a scalar, taken from its low machine word. */
  function LowDigit(e: nat, c: nat): (d: nat)
    requires c <= 63
    ensures d < Pow2(c)
  {
    (e % 0x1_0000_0000_0000_0000) % Pow2(c)
  }

  lemma ShiftStep(e: nat, c: nat, w: nat)
    requires c <= 63
    ensures Shift(Shift(e, Pow2(c), w), Pow2(c), 1) == Shift(e, Pow2(c), w + 1)
    ensures LowDigit(Shift(e, Pow2(c), w), c) == Digit(e, Pow2(c), w)
  {
    hide Pow2;
    LowWord(Shift(e, Pow2(c), w), c);
  }

  /** Distributes the points over the buckets of their current digits and moves the scalars on. */
  method FillBuckets<T(!new)>(g: Group<T>, bucket: array<T>, points: seq<T>, powers: array<nat>, c: nat,
                              ghost e: seq<nat>, ghost w: nat)
    requires Laws(g) && 1 <= c <= 63 && |points| == powers.Length == |e|
    requires bucket.Length == Pow2(c) - 1 && forall k :: 0 <= k < bucket.Length ==> bucket[k] == g.zero
    requires powers[..] == Shifted(e, Pow2(c), w) && (bucket as object) != powers
    modifies bucket, powers
    ensures Weighted(g, bucket[..], 0) == Dot(g, DigitAt(e, Pow2(c), w), points, |points|)
    ensures powers[..] == Shifted(e, Pow2(c), w + 1)
  {
    hide Laws, Pow2, Weighted, Mult, LowDigit, Shift, Digit;
    ghost var d := DigitAt(e, Pow2(c), w);
    WeightedZero(g, bucket[..], 0);
    var i := 0;
    while i < powers.Length
      invariant 0 <= i <= powers.Length
      invariant Weighted(g, bucket[..], 0) == Dot(g, d, points, i)
      invariant forall k :: 0 <= k < powers.Length ==> powers[k] == Shift(e[k], Pow2(c), if k < i then w + 1 else w)
    {
      ShiftStep(e[i], c, w);
      AddToBucket(g, bucket, LowDigit(powers[i], c), points[i]);
      powers[i] := Shift(powers[i], Pow2(c), 1);
      i := i + 1;
    }
  }

  lemma MultNone<T>(g: Group<T>, p: T)
    ensures Mult(g, 0, p) == g.zero
  {
  }

  /** Masking the low 64 bits gives the low digit. */
  lemma LowWord(e: nat, c: nat)
    requires c <= 64
    ensures (e % 0x1_0000_0000_0000_0000) % Pow2(c) == e % Pow2(c)
  {
    hide Pow2, Times;
    var b, m := Pow2(c), Pow2(64 - c);
    Pow2Add(c, 64 - c);
    TimesProduct(b, m);
    WordSize();
    var q := e / 0x1_0000_0000_0000_0000;
    var r := e % 0x1_0000_0000_0000_0000;
    assert e == r + b * m * q == r + b * (m * q);
    RemainderUnchanged(r, b, m * q);
  }

  lemma WordSize()
    ensures Pow2(64) == 0x1_0000_0000_0000_0000
  {
    assert Pow2(4) == 16;
    hide Pow2;
    Pow2Square(4, 16);
    Pow2Square(8, 256);
    Pow2Square(16, 65536);
    Pow2Square(32, 0x1_0000_0000);
  }

  lemma RemainderUnchanged(r: nat, b: nat, k: nat)
    requires b > 0
    ensures (r + b * k) % b == r % b
  {
    var q := r / b;
    assert r + b * k == b * (q + k) + r % b;
    RemainderUnique(r + b * k, b, q + k, r % b);
  }

  /** Running suffix sums, added up, weigh each bucket by its digit. */
  method SumBuckets<T(!new)>(g: Group<T>, bucket: array<T>) returns (acc: T)
    ensures acc == Weighted(g, bucket[..], 0)
  {
    acc := g.zero;
    var sum := g.zero;
    var i := bucket.Length;
    while i > 0
      invariant 0 <= i <= bucket.Length
      invariant sum == Suffix(g, bucket[..], i) && acc == Weighted(g, bucket[..], i)
    {
      i := i - 1;
      sum := g.add(sum, bucket[i]);
      acc := g.add(acc, sum);
    }
  }

  /** Horner's rule over the windows, with c doublings between them. */
  method Combine<T(!new)>(g: Group<T>, windows: array<T>, points: seq<T>, c: nat, ghost e: seq<nat>) returns (acc: T)
    requires Laws(g) && |points| == |e|
    requires forall w :: 0 <= w < windows.Length ==> windows[w] == Dot(g, DigitAt(e, Pow2(c), w), points, |points|)
    ensures acc == Dot(g, DigitsFrom(e, Pow2(c), 0, windows.Length), points, |points|)
  {
    hide Laws, Mult, Dot, Shift, Pow2, Digits;
    acc := g.zero;
    ghost var b, n := Pow2(c), |points|;
    NoDigits(g, e, b, windows.Length, points);
    var i := windows.Length;
    while i > 0
      invariant 0 <= i <= windows.Length
      invariant acc == Dot(g, DigitsFrom(e, b, i, windows.Length), points, n)
    {
      i := i - 1;
      ghost var high := acc;
      MultOnce(g, acc);
      Pow2Zero();
      var j := 0;
      while j < c
        invariant 0 <= j <= c
        invariant acc == Mult(g, Pow2(j), high)
      {
        Pow2Step(j);
        MultSum(g, Pow2(j), Pow2(j), high);
        acc := g.add(acc, acc);
        j := j + 1;
      }
      acc := g.add(acc, windows[i]);
      NextDigit(g, e, b, i, windows.Length, points);
    }
  }

  lemma {:induction false} DotZero<T(!new)>(g: Group<T>, e: seq<nat>, p: seq<T>, n: nat)
    requires Laws(g) && n <= |e| && n <= |p| && forall k :: 0 <= k < |e| ==> e[k] == 0
    ensures Dot(g, e, p, n) == g.zero
  {
    hide Laws;
    if n > 0 {
      DotZero(g, e, p, n - 1);
      Unit(g, g.zero);
    }
  }

  lemma NoDigits<T(!new)>(g: Group<T>, e: seq<nat>, b: nat, n: nat, points: seq<T>)
    requires Laws(g) && b > 0 && |points| == |e|
    ensures Dot(g, DigitsFrom(e, b, n, n), points, |points|) == g.zero
  {
    hide Laws;
    DotZero(g, DigitsFrom(e, b, n, n), points, |points|);
  }

  lemma NextDigit<T(!new)>(g: Group<T>, e: seq<nat>, b: nat, i: nat, n: nat, points: seq<T>)
    requires Laws(g) && b > 0 && i < n && |points| == |e|
    ensures Dot(g, DigitsFrom(e, b, i, n), points, |points|) ==
            g.add(Mult(g, b, Dot(g, DigitsFrom(e, b, i + 1, n), points, |points|)), Dot(g, DigitAt(e, b, i), points, |points|))
  {
    hide Laws, Mult, Dot, Shift, Times;
    DotLinear(g, b, DigitsFrom(e, b, i + 1, n), DigitAt(e, b, i), DigitsFrom(e, b, i, n), points, |points|);
  }

  datatype LengthError = LengthMismatch

  /**
   * The sum of all multiples, for every window width. The scalars are shifted down in the caller's own array; the
   * windows are filled exactly, and scalars of up to 256 bits are covered in full.
   */
  method MultiExp<T(!new)>(g: Group<T>, points: seq<T>, powers: array<nat>, c: nat) returns (r: Result<T, LengthError>)
    requires Laws(g) && 1 <= c <= 63
    modifies powers
    ensures r.Err? <==> |points| != powers.Length
    ensures r.Err? ==> powers[..] == old(powers[..])
    ensures r.Ok? ==> r.value == Dot(g, DigitsFrom(old(powers[..]), Pow2(c), 0, NUM_BITS / c + 1), points, |points|)
    ensures r.Ok? ==> powers[..] == Shifted(old(powers[..]), Pow2(c), NUM_BITS / c + 1)
    ensures r.Ok? && (forall k :: 0 <= k < powers.Length ==> old(powers[k]) < Pow2(256)) ==>
              r.value == Dot(g, old(powers[..]), points, |points|)
  {
    hide Laws, Mult, Dot, Shift, Pow2, Digits, Window, Weighted;
    if |points| != powers.Length {
      return Err(LengthMismatch);
    }
    ghost var e := powers[..];
    var size := Pow2(c) - 1;
    var windows := new T[NUM_BITS / c + 1](_ => g.zero);
    Unshifted(e, Pow2(c));
    var j, cur := 0, 0;
    WindowEdge(c, 0);
    while cur <= NUM_BITS
      invariant 0 <= j <= windows.Length && cur == Window(c, j) && (cur <= NUM_BITS <==> j < windows.Length)
      invariant fresh(windows) && powers[..] == Shifted(e, Pow2(c), j)
      invariant forall w :: 0 <= w < j ==> windows[w] == Dot(g, DigitAt(e, Pow2(c), w), points, |points|)
      decreases windows.Length - j
    {
      var bucket := new T[size](_ => g.zero);
      FillBuckets(g, bucket, points, powers, c, e, j);
      var acc := SumBuckets(g, bucket);
      windows[j] := acc;
      j := j + 1;
      cur := cur + c;
      OneMoreWindow(c, j - 1);
      WindowEdge(c, j);
    }
    var acc := Combine(g, windows, points, c, e);
    r := Ok(acc);
    if forall k :: 0 <= k < |e| ==> e[k] < Pow2(256) {
      FullScalars(e, c);
    }
  }

  lemma WindowIsTimes(c: nat, j: nat)
    ensures Window(c, j) == Times(c, j)
  {
  }

  lemma WindowEdge(c: nat, j: nat)
    requires 1 <= c
    ensures Window(c, j) <= NUM_BITS <==> j < NUM_BITS / c + 1
    ensures Window(c, 0) == 0
  {
    hide Times, Window;
    var q := NUM_BITS / c;
    Division(NUM_BITS, c);
    WindowIsTimes(c, j);
    WindowIsTimes(c, 0);
    TimesAdd(0, 0, c);
    TimesAdd(q, 1, c);
    TimesUnit(c);
    if j <= q {
      TimesGrows(j, q, c);
    } else {
      TimesGrows(q + 1, j, c);
    }
  }

  lemma Unshifted(e: seq<nat>, b: nat)
    requires b > 0
    ensures Shifted(e, b, 0) == e
  {
  }

  lemma FullScalars(e: seq<nat>, c: nat)
    requires 1 <= c <= 63 && forall k :: 0 <= k < |e| ==> e[k] < Pow2(256)
    ensures DigitsFrom(e, Pow2(c), 0, NUM_BITS / c + 1) == e
  {
    hide Pow2;
    var n := NUM_BITS / c + 1;
    forall k | 0 <= k < |e| ensures DigitsFrom(e, Pow2(c), 0, n)[k] == e[k] {
      Covered(e[k], c);
      AllDigits(e[k], Pow2(c), 0, n);
    }
  }
}
