/** BLAKE2b as section 3.3 of RFC 7693 states it, over any compression function, and its 128-bit counter. */
module Blake2bModel {
  import opened Arithmetic
  import opened Basics

  const BLOCK: nat := 128
  const SIZE: nat := 64

  /** The eight words of chaining state. */
  type Words = s: seq<U64> | |s| == 8 witness [0, 0, 0, 0, 0, 0, 0, 0]

  /**
   * What hashing is built on and this model leaves open: compression of one block under a counter and a final flag, and
   * the initial states for a plain hash, an extendable output and one output node.
   */
  datatype Core = Core(
    f: (Words, Bytes, U64, U64, bool) -> Words,
    init: (nat, nat) -> Words,
    xofInit: (nat, nat) -> Words,
    initConfig: (nat, nat, nat) -> Words)

  // ----- the counter -----

  datatype Counter = Counter(lo: U64, hi: U64)

  /** A count of bytes modulo 2^128. */
  function CountOf(n: nat): Counter
  {
    Counter(n % 0x1_0000_0000_0000_0000, n / 0x1_0000_0000_0000_0000 % 0x1_0000_0000_0000_0000)
  }

  /** A word after a step up or down, wrapped once. */
  function Wrap(n: int): (w: U64)
    requires 0 <= n + 0x1_0000_0000_0000_0000 && n < 0x1_0000_0000_0000_0000 + 0x1_0000_0000_0000_0000
  {
    if n < 0 then n + 0x1_0000_0000_0000_0000
    else if n >= 0x1_0000_0000_0000_0000 then n - 0x1_0000_0000_0000_0000
    else n
  }

  /** One block more; the carry is seen in the low word having wrapped. */
  function AddBlock(c: Counter): Counter
  {
    var lo := Wrap(c.lo + 128);
    Counter(lo, if lo < 128 then Wrap(c.hi + 1) else c.hi)
  }

  /** Fewer bytes, with a borrow from the high word. */
  function Without(c: Counter, r: nat): Counter
    requires r <= 128
  {
    Counter(Wrap(c.lo - r), if c.lo < r then Wrap(c.hi - 1) else c.hi)
  }

  /** A counter and how often it has wrapped determine the count. */
  lemma CountUnique(n: nat, lo: U64, hi: U64, q: nat)
    requires n == lo + 0x1_0000_0000_0000_0000 * (hi + 0x1_0000_0000_0000_0000 * q)
    ensures CountOf(n) == Counter(lo, hi)
  {
    var k := hi + 0x1_0000_0000_0000_0000 * q;
    RemainderUnique(n, 0x1_0000_0000_0000_0000, k, lo);
    RemainderUnique(k, 0x1_0000_0000_0000_0000, q, hi);
  }

  lemma CountWraps(n: nat) returns (q: nat)
    ensures n == CountOf(n).lo + 0x1_0000_0000_0000_0000 * (CountOf(n).hi + 0x1_0000_0000_0000_0000 * q)
  {
    q := n / 0x1_0000_0000_0000_0000 / 0x1_0000_0000_0000_0000;
  }

  lemma AddBlockCounts(n: nat)
    ensures AddBlock(CountOf(n)) == CountOf(n + BLOCK)
  {
    var q := CountWraps(n);
    var c := CountOf(n);
    hide CountOf;
    var d := AddBlock(c);
    CountUnique(n + BLOCK, d.lo, d.hi, if c.lo + 128 >= 0x1_0000_0000_0000_0000 && c.hi == 0xFFFF_FFFF_FFFF_FFFF then q + 1 else q);
  }

  /** The borrow before the last block and the carry in it cancel: the last counter is the length of the message. */
  lemma LastCount(n: nat, r: nat)
    requires r <= BLOCK
    ensures AddBlock(Without(CountOf(n), BLOCK - r)) == CountOf(n + r)
  {
    var q := CountWraps(n);
    var c := CountOf(n);
    hide CountOf;
    var d := AddBlock(Without(c, BLOCK - r));
    CountUnique(n + r, d.lo, d.hi, if c.lo + r >= 0x1_0000_0000_0000_0000 && c.hi == 0xFFFF_FFFF_FFFF_FFFF then q + 1 else q);
  }

  // ----- the hash of a whole message -----

  /** The blocks that are hashed before the last one; a full last block is kept back. */
  function FullBlocks(n: nat): nat { if n == 0 then 0 else (n - 1) / BLOCK }

  /** The state after the first k blocks. */
  function Chain(core: Core, h: Words, m: Bytes, k: nat): Words
    requires BLOCK * k <= |m|
  {
    if k == 0 then h
    else
      var c := CountOf(BLOCK * k);
      core.f(Chain(core, h, m, k - 1), m[BLOCK * (k - 1)..BLOCK * k], c.lo, c.hi, false)
  }

  function ZeroPad(b: Bytes): (r: Bytes)
    requires |b| <= BLOCK
    ensures |r| == BLOCK
  {
    b + seq(BLOCK - |b|, _ => 0)
  }

  /** The state after the last block, which is padded and counted by the bytes it holds. */
  function Digest(core: Core, h: Words, m: Bytes): Words
  {
    var k := FullBlocks(|m|);
    var c := CountOf(|m|);
    core.f(Chain(core, h, m, k), ZeroPad(m[BLOCK * k..]), c.lo, c.hi, true)
  }

  /** Little-endian bytes of a word. */
  function WordBytes(w: nat, n: nat): (b: Bytes)
    ensures |b| == n
  {
    if n == 0 then [] else [w % 256] + WordBytes(w / 256, n - 1)
  }

  /** The bytes of the first n words of a state. */
  function StateBytes(h: Words, n: nat): (b: Bytes)
    requires n <= 8
    ensures |b| == 8 * n
  {
    if n == 0 then [] else StateBytes(h, n - 1) + WordBytes(h[n - 1], 8)
  }

  lemma {:induction false} StatePrefix(h: Words, i: nat, n: nat)
    requires i <= n <= 8
    ensures StateBytes(h, n)[..8 * i] == StateBytes(h, i)
    decreases n - i
  {
    if i < n {
      StatePrefix(h, i, n - 1);
    }
  }

  /** A key, as the block it is hashed in before the message. */
  function KeyBlock(key: Bytes): Bytes
    requires |key| <= SIZE
  {
    if |key| == 0 then [] else ZeroPad(key)
  }

  // ----- folding blocks -----

  /** The state and counter after some more whole blocks. */
  function Fold(core: Core, h: Words, c: Counter, final: bool, blocks: Bytes): (r: (Words, Counter))
    requires |blocks| % BLOCK == 0
    decreases |blocks|
  {
    if blocks == [] then (h, c)
    else
      var d := AddBlock(c);
      Fold(core, core.f(h, blocks[..BLOCK], d.lo, d.hi, final), d, final, blocks[BLOCK..])
  }

  /** Folding the next blocks of a message continues its chain. */
  lemma {:induction false} FoldContinues(core: Core, h: Words, m: Bytes, k: nat, n: nat)
    requires k <= n && BLOCK * n <= |m|
    ensures Fold(core, Chain(core, h, m, k), CountOf(BLOCK * k), false, m[BLOCK * k..BLOCK * n])
         == (Chain(core, h, m, n), CountOf(BLOCK * n))
    decreases n - k
  {
    hide CountOf;
    var blocks := m[BLOCK * k..BLOCK * n];
    if k < n {
      AddBlockCounts(BLOCK * k);
      assert blocks[..BLOCK] == m[BLOCK * k..BLOCK * (k + 1)];
      assert blocks[BLOCK..] == m[BLOCK * (k + 1)..BLOCK * n];
      FoldContinues(core, h, m, k + 1, n);
    }
  }

  /** The chain of a message depends on the blocks it covers only. */
  lemma {:induction false} ChainPrefix(core: Core, h: Words, m: Bytes, more: Bytes, k: nat)
    requires BLOCK * k <= |m|
    ensures Chain(core, h, m + more, k) == Chain(core, h, m, k)
  {
    hide CountOf;
    if k > 0 {
      ChainPrefix(core, h, m, more, k - 1);
      assert (m + more)[BLOCK * (k - 1)..BLOCK * k] == m[BLOCK * (k - 1)..BLOCK * k];
    }
  }
}
