/** Numbers as big-endian byte strings. */
module BigEndian {
  import opened Basics
  import opened Arithmetic

  function Pow256(k: nat): (p: nat)
    ensures p >= 1
  {
    if k == 0 then 1 else 256 * Pow256(k - 1)
  }

  /** Big-endian value of a byte string of any length. */
  function FromBytes(b: Bytes): nat
  {
    if b == [] then 0 else FromBytes(b[..|b| - 1]) * 256 + b[|b| - 1]
  }

  /** The low `len` bytes of n, big-endian. */
  function BytesOfNat(n: nat, len: nat): (b: Bytes)
    ensures |b| == len
    decreases len
  {
    if len == 0 then [] else BytesOfNat(n / 256, len - 1) + [n % 256]
  }

  /** n modulo 256^k: what its low k bytes hold. */
  function Low(n: nat, k: nat): nat { n % Pow256(k) }

  // ----- facts -----

  lemma ModStep(n: nat, p: nat)
    requires p >= 1
    ensures (n / 256 % p) * 256 + n % 256 == n % (256 * p)
  {
    var q, r := n / 256 / p, n / 256 % p;
    assert n / 256 == p * q + r;
    assert n == 256 * (p * q + r) + n % 256 == (256 * p) * q + (r * 256 + n % 256);
    assert r <= p - 1;
    RemainderUnique(n, 256 * p, q, r * 256 + n % 256);
  }

  /** Reading back the low bytes of a number. */
  lemma {:induction false} FromBytesOfNat(n: nat, len: nat)
    ensures FromBytes(BytesOfNat(n, len)) == Low(n, len)
    decreases len
  {
    if len > 0 {
      FromBytesOfNat(n / 256, len - 1);
      ModStep(n, Pow256(len - 1));
      assert BytesOfNat(n, len)[..len - 1] == BytesOfNat(n / 256, len - 1);
    }
  }

  /** The last bytes of a long form are the short form. */
  lemma {:induction false} BytesOfNatTail(n: nat, len: nat, k: nat)
    requires k <= len
    ensures BytesOfNat(n, len)[len - k..] == BytesOfNat(n, k)
    decreases k
  {
    if k > 0 {
      BytesOfNatTail(n / 256, len - 1, k - 1);
      assert BytesOfNat(n, len) == BytesOfNat(n / 256, len - 1) + [n % 256];
      assert BytesOfNat(n, len)[len - k..] == BytesOfNat(n / 256, len - 1)[len - k..] + [n % 256];
    }
  }

  lemma LowSmall(n: nat, k: nat)
    requires n < Pow256(k)
    ensures Low(n, k) == n
  {
    RemainderUnique(n, Pow256(k), 0, n);
  }

  lemma WordPower()
    ensures Pow256(32) == TWO_256 && Pow256(1) == 0x100 && Pow256(2) == 0x1_0000
    ensures Pow256(4) == 0x1_0000_0000 && Pow256(8) == 0x1_0000_0000_0000_0000
  {
    assert Pow256(4) == 0x1_0000_0000;
    assert Pow256(8) == 0x1_0000_0000 * Pow256(4) by { Pow256Add(4, 4); }
    Pow256Add(8, 8);
    Pow256Add(16, 16);
  }

  lemma {:induction false} Pow256Add(j: nat, k: nat)
    ensures Pow256(j + k) == Pow256(j) * Pow256(k)
  {
    if j > 0 {
      Pow256Add(j - 1, k);
    }
  }

  lemma NumberSplit(b: Bytes)
    requires b != []
    ensures FromBytes(b) / 256 == FromBytes(b[..|b| - 1]) && FromBytes(b) % 256 == b[|b| - 1]
  {
  }

  /** The last k bytes of a big-endian number are the number modulo 256^k. */
  lemma {:induction false} LowBytes(b: Bytes, k: nat)
    requires k <= |b|
    ensures FromBytes(b[|b| - k..]) == Low(FromBytes(b), k)
    decreases k
  {
    hide FromBytes, Low;
    var low := b[|b| - k..];
    if k == 0 {
      assert low == [];
      LowNone(FromBytes(b));
    } else {
      var front := b[..|b| - 1];
      LowBytes(front, k - 1);
      assert low[..k - 1] == front[|front| - (k - 1)..];
      NumberSplit(b);
      NumberSplit(low);
      LowStep(FromBytes(b), k);
    }
  }

  lemma LowNone(n: nat)
    ensures Low(n, 0) == 0 == FromBytes([])
  {
  }

  lemma LowStep(n: nat, k: nat)
    requires k > 0
    ensures Low(n, k) == 256 * Low(n / 256, k - 1) + n % 256
  {
    ModStep(n, Pow256(k - 1));
  }

  lemma {:induction false} Pow256Grows(j: nat, k: nat)
    requires j <= k
    ensures Pow256(j) <= Pow256(k)
    decreases k - j
  {
    if j < k {
      Pow256Grows(j + 1, k);
    }
  }

  lemma {:induction false} FromBytesBound(b: Bytes)
    ensures FromBytes(b) < Pow256(|b|)
  {
    if b != [] {
      FromBytesBound(b[..|b| - 1]);
    }
  }

  /** At most 32 bytes make a number of at most 256 bits. */
  lemma WordBound(b: Bytes)
    requires |b| <= 32
    ensures FromBytes(b) < TWO_256
  {
    hide Pow256, FromBytes;
    WordPower();
    Pow256Grows(|b|, 32);
    FromBytesBound(b);
  }
}
