/** The digest against section 3.3 of RFC 7693, in positions and numbers: which bytes each compression is given, under
    which count and flag, and which byte of which word each byte of the output is. */
module Blake2bStandard {
  import opened Arithmetic
  import opened Basics
  import opened BigEndian
  import opened Blake2bModel
  import Blake2x

  /** dd blocks hold n bytes and no fewer do; the empty message has one. */
  predicate Blocks(n: nat, dd: nat)
  {
    dd >= 1 && n <= 128 * dd && (dd == 1 || 128 * (dd - 1) < n)
  }

  /** Byte p of the padded message. */
  function PaddedByte(m: Bytes, p: nat): Byte { if p < |m| then m[p] else 0 }

  /** The bytes up to the end of block i: all that came before, or the whole message. */
  function BytesSoFar(m: Bytes, i: nat): nat { Min(128 * (i + 1), |m|) }

  /** State x is followed by y when block i is compressed, last or not. */
  ghost predicate Compressed(core: Core, m: Bytes, i: nat, last: bool, x: Words, y: Words)
  {
    exists block: Bytes ::
      && |block| == 128 && (forall j :: 0 <= j < 128 ==> block[j] == PaddedByte(m, 128 * i + j))
      && y == core.f(x, block, BytesSoFar(m, i) % 0x1_0000_0000_0000_0000,
                     BytesSoFar(m, i) / 0x1_0000_0000_0000_0000 % 0x1_0000_0000_0000_0000, last)
  }

  /** The states a message goes through. */
  ghost predicate Hashed(core: Core, h: Words, m: Bytes, s: seq<Words>)
  {
    && |s| >= 2 && s[0] == h && Blocks(|m|, |s| - 1)
    && forall i :: 0 <= i < |s| - 1 ==> Compressed(core, m, i, i == |s| - 2, s[i], s[i + 1])
  }

  lemma BlocksAre(n: nat, dd: nat)
    requires Blocks(n, dd)
    ensures FullBlocks(n) == dd - 1
  {
  }

  lemma SameBlock(m: Bytes, i: nat, block: Bytes, other: Bytes)
    requires |block| == 128 && (forall j :: 0 <= j < 128 ==> block[j] == PaddedByte(m, 128 * i + j))
    requires |other| == 128 && (forall j :: 0 <= j < 128 ==> other[j] == PaddedByte(m, 128 * i + j))
    ensures block == other
  {
    assert forall j :: 0 <= j < 128 ==> block[j] == other[j];
  }

  lemma CompressedOnce(core: Core, m: Bytes, i: nat, last: bool, x: Words, y: Words, z: Words)
    requires Compressed(core, m, i, last, x, y) && Compressed(core, m, i, last, x, z)
    ensures y == z
  {
    var lo, hi := BytesSoFar(m, i) % 0x1_0000_0000_0000_0000,
                  BytesSoFar(m, i) / 0x1_0000_0000_0000_0000 % 0x1_0000_0000_0000_0000;
    var block: Bytes :|
      |block| == 128 && (forall j :: 0 <= j < 128 ==> block[j] == PaddedByte(m, 128 * i + j)) && y == core.f(x, block, lo, hi, last);
    var other: Bytes :|
      |other| == 128 && (forall j :: 0 <= j < 128 ==> other[j] == PaddedByte(m, 128 * i + j)) && z == core.f(x, other, lo, hi, last);
    SameBlock(m, i, block, other);
  }

  /** Before the last block the states are those of the chain. */
  lemma {:induction false} ChainHashed(core: Core, h: Words, m: Bytes, s: seq<Words>, k: nat)
    requires Hashed(core, h, m, s) && k < |s| - 1
    ensures BLOCK * k <= |m| && s[k] == Chain(core, h, m, k)
  {
    hide Chain, Compressed;
    ChainZero(core, h, m);
    if k > 0 {
      ChainHashed(core, h, m, s, k - 1);
      ChainCompresses(core, h, m, k - 1);
      assert Compressed(core, m, k - 1, false, s[k - 1], s[k - 1 + 1]);
      CompressedOnce(core, m, k - 1, false, s[k - 1], s[k], Chain(core, h, m, k));
    }
  }

  /** However the states are found, the last one is the digest. */
  lemma DigestIsStandard(core: Core, h: Words, m: Bytes, s: seq<Words>)
    requires Hashed(core, h, m, s)
    ensures |s| > 0 && s[|s| - 1] == Digest(core, h, m)
  {
    hide Chain, Digest, Compressed;
    var k := |s| - 2;
    BlocksAre(|m|, k + 1);
    ChainHashed(core, h, m, s, k);
    DigestCompresses(core, h, m);
    assert Compressed(core, m, k, true, s[k], s[k + 1]);
    CompressedOnce(core, m, k, true, s[k], s[k + 1], Digest(core, h, m));
  }

  /** Every message goes through such states. */
  lemma EveryMessageHashed(core: Core, h: Words, m: Bytes) returns (s: seq<Words>)
    ensures Hashed(core, h, m, s)
  {
    hide Chain, Digest;
    var k := FullBlocks(|m|);
    s := seq<Words>(k + 1, i requires 0 <= i <= k => assert BLOCK * i <= BLOCK * k; Chain(core, h, m, i)) + [Digest(core, h, m)];
    ChainZero(core, h, m);
    forall i | 0 <= i <= k ensures Compressed(core, m, i, i == k, s[i], s[i + 1]) {
      assert BLOCK * i <= BLOCK * k;
      if i < k {
        ChainCompresses(core, h, m, i);
      } else {
        DigestCompresses(core, h, m);
      }
    }
  }

  lemma ChainZero(core: Core, h: Words, m: Bytes)
    ensures Chain(core, h, m, 0) == h
  {
  }

  lemma ChainCompresses(core: Core, h: Words, m: Bytes, i: nat)
    requires BLOCK * (i + 1) <= |m|
    ensures Compressed(core, m, i, false, Chain(core, h, m, i), Chain(core, h, m, i + 1))
  {
    var block := m[BLOCK * i..BLOCK * (i + 1)];
    assert forall j :: 0 <= j < 128 ==> block[j] == PaddedByte(m, 128 * i + j);
    assert BytesSoFar(m, i) == BLOCK * (i + 1);
  }

  lemma DigestCompresses(core: Core, h: Words, m: Bytes)
    ensures var k := FullBlocks(|m|);
            Compressed(core, m, k, true, Chain(core, h, m, k), Digest(core, h, m))
  {
    hide Chain;
    var k := FullBlocks(|m|);
    var block := ZeroPad(m[BLOCK * k..]);
    assert forall j :: 0 <= j < 128 ==> block[j] == PaddedByte(m, 128 * k + j);
    assert BytesSoFar(m, k) == |m|;
  }

  // ----- the bytes of a state -----

  /** The bytes of a word are its digits to the base 256, the lowest first. */
  lemma {:induction false} WordByteAt(w: nat, n: nat, k: nat)
    requires k < n
    ensures WordBytes(w, n)[k] == w / Pow256(k) % 256
  {
    if k > 0 {
      WordByteAt(w / 256, n - 1, k - 1);
      DivideTwice(w, Pow256(k - 1));
    }
  }

  lemma DivideTwice(w: nat, p: nat)
    requires p >= 1
    ensures w / 256 / p == w / (256 * p)
  {
    var q, r, d := w / 256 / p, w / 256 % p, w % 256;
    assert w / 256 == p * q + r;
    assert w == (256 * p) * q + (256 * r + d);
    RemainderUnique(w, 256 * p, q, 256 * r + d);
  }

  /** Byte r of word i is byte 8i + r of the output. */
  lemma {:induction false} OutputByte(h: Words, n: nat, i: nat, r: nat)
    requires i < n <= 8 && r < 8
    ensures StateBytes(h, n)[8 * i + r] == h[i] / Pow256(r) % 256
    decreases n
  {
    hide Pow256, WordBytes;
    if i < n - 1 {
      OutputByte(h, n - 1, i, r);
    } else {
      WordByteAt(h[i], 8, r);
    }
  }

  /** A key is the first block, followed by zeros; without one there is no such block. */
  lemma KeyFirst(key: Bytes)
    requires |key| <= SIZE
    ensures |KeyBlock(key)| == if key == [] then 0 else 128
    ensures forall i :: 0 <= i < |KeyBlock(key)| ==> KeyBlock(key)[i] == PaddedByte(key, i)
  {
  }

  /** Byte k of an output of `total` bytes: byte k mod 64 of the digest of the root under the configuration of node k / 64,
      whose length is 64 or, in the last node, what is left. */
  lemma StreamByte(core: Core, length: nat, total: nat, root: Bytes, k: nat, s: seq<Words>)
    requires k < total
    requires Hashed(core, core.initConfig(Min(64, total - 64 * (k / 64)), k / 64, length), root, s)
    ensures Blake2x.Stream(core, length, total, root, 0, total)[k] == s[|s| - 1][k % 64 / 8] / Pow256(k % 8) % 256
  {
    hide Hashed, Digest, StateBytes, Pow256;
    DigestIsStandard(core, core.initConfig(Min(64, total - 64 * (k / 64)), k / 64, length), root, s);
    OutputByte(s[|s| - 1], 8, k % 64 / 8, k % 8);
    assert k % 64 == 8 * (k % 64 / 8) + k % 8;
    assert Blake2x.Stream(core, length, total, root, 0, total)[k] == Blake2x.ByteAt(core, length, total, root, k);
  }
}
