/** 32-byte words: padding, big-endian numbers and their reading. */
module AbiWords {
  import opened BigEndian
  import opened Basics

  /** The shortest big-endian form; empty for zero. */
  function MinimalBytes(n: nat): Bytes
  {
    if n == 0 then [] else MinimalBytes(n / 256) + [n % 256]
  }

  function Zeros(n: nat): (z: Bytes)
    ensures |z| == n && forall i :: 0 <= i < n ==> z[i] == 0
  {
    seq(n, _ => 0)
  }

  /** Pads to a size, on either side; what is too long loses its front. */
  function PadBytes(b: Bytes, size: nat, left: bool): (p: Bytes)
    ensures |p| == size
    ensures |b| <= size ==>
              var at := if left then size - |b| else 0;
              p[at..at + |b|] == b && forall i :: 0 <= i < size && !(at <= i < at + |b|) ==> p[i] == 0
    ensures |b| > size ==> b[|b| - size..] == p
  {
    if |b| > size then b[|b| - size..]
    else if left then Zeros(size - |b|) + b
    else b + Zeros(size - |b|)
  }

  /** n modulo 2^256: two's complement for negative numbers. */
  function Wrapped(n: int): (w: nat)
    ensures w < TWO_256
    ensures 0 <= n + TWO_256 < 2 * TWO_256 ==> w == if n < 0 then n + TWO_256 else n
  {
    n % TWO_256
  }

  /** A number as a 256-bit word; what does not fit is reduced modulo 2^256, two's complement for negatives. */
  function ToU256(n: int): (w: Bytes)
    ensures |w| == 32
  {
    PadBytes(MinimalBytes(if n < 0 || n >= TWO_256 then Wrapped(n) else n), 32, true)
  }

  // ----- facts -----

  lemma {:induction false} ZeroBytes(len: nat)
    ensures BytesOfNat(0, len) == Zeros(len)
  {
    if len > 0 {
      ZeroBytes(len - 1);
    }
  }

  /** Padding the shortest form on the left gives the form of that length. */
  lemma {:induction false} PaddedMinimal(n: nat, len: nat)
    requires n < Pow256(len)
    ensures |MinimalBytes(n)| <= len && PadBytes(MinimalBytes(n), len, true) == BytesOfNat(n, len)
    decreases len
  {
    if n == 0 {
      ZeroBytes(len);
    } else if len > 0 {
      PaddedMinimal(n / 256, len - 1);
      var m := MinimalBytes(n / 256);
      assert Zeros(len - 1 - |m|) + (m + [n % 256]) == (Zeros(len - 1 - |m|) + m) + [n % 256];
    }
  }

  /** A word holds a number modulo 2^256, and its low bytes hold it modulo their own size. */
  lemma WordReads(n: int, k: nat)
    requires k <= 32
    ensures FromBytes(ToU256(n)) == Wrapped(n)
    ensures FromBytes(ToU256(n)[32 - k..]) == Low(Wrapped(n), k)
  {
    hide Pow256, BytesOfNat, Wrapped, Low, MinimalBytes, PadBytes;
    WordPower();
    PaddedMinimal(Wrapped(n), 32);
    FromBytesOfNat(Wrapped(n), 32);
    LowSmall(Wrapped(n), 32);
    BytesOfNatTail(Wrapped(n), 32, k);
    FromBytesOfNat(Wrapped(n), k);
  }
}
