/** The streaming hash: a buffered digest that agrees with the hash of the whole message however the data arrives. */
module Blake2b {
  import opened Basics
  import opened Blake2bModel

  /** Compresses whole blocks, one after the other. */
  method HashBlocks(core: Core, h0: Words, c0: Counter, final: bool, blocks: Bytes) returns (h: Words, c: Counter)
    requires |blocks| % BLOCK == 0
    ensures (h, c) == Fold(core, h0, c0, final, blocks)
  {
    hide AddBlock;
    h, c := h0, c0;
    var i := 0;
    assert blocks[0..] == blocks;
    while i < |blocks|
      invariant 0 <= i <= |blocks| && i % BLOCK == 0
      invariant Fold(core, h, c, final, blocks[i..]) == Fold(core, h0, c0, final, blocks)
    {
      c := AddBlock(c);
      assert blocks[i..][..BLOCK] == blocks[i..i + BLOCK] && blocks[i..][BLOCK..] == blocks[i + BLOCK..];
      h := core.f(h, blocks[i..i + BLOCK], c.lo, c.hi, final);
      i := i + BLOCK;
    }
  }

  /** The number of bytes to hash before the last block, when there is more than one. */
  function Leading(n: nat): (k: nat)
    ensures n > 0 ==> k == BLOCK * FullBlocks(n) && k < n <= k + BLOCK
  {
    if n <= BLOCK then 0 else var k := n - n % BLOCK; if k == n then k - BLOCK else k
  }

  /** Hashes the last, padded block after taking back the bytes it does not hold. */
  method Last(core: Core, h: Words, c: Counter, rest: Bytes) returns (out: Words)
    requires |rest| <= BLOCK
    ensures out == Fold(core, h, Without(c, BLOCK - |rest|), true, ZeroPad(rest)).0
  {
    var d := Without(c, BLOCK - |rest|);
    var h', _ := HashBlocks(core, h, d, true, ZeroPad(rest));
    out := h';
  }

  /** From the chain of all but the last block to the digest. */
  lemma LastIsDigest(core: Core, start: Words, m: Bytes)
    ensures var k := FullBlocks(|m|);
            Fold(core, Chain(core, start, m, k), Without(CountOf(BLOCK * k), BLOCK - |m[BLOCK * k..]|), true, ZeroPad(m[BLOCK * k..])).0
            == Digest(core, start, m)
  {
    hide CountOf, Chain, Without, AddBlock;
    var k := FullBlocks(|m|);
    var r := |m| - BLOCK * k;
    LastCount(BLOCK * k, r);
    var p := ZeroPad(m[BLOCK * k..]);
    assert p[..BLOCK] == p && p[BLOCK..] == [];
  }

  /** The one-shot hash of unkeyed data. */
  method CheckSum(core: Core, hashSize: nat, data: Bytes) returns (sum: Bytes)
    requires 1 <= hashSize <= SIZE
    ensures |sum| == SIZE
    ensures sum[..hashSize] == StateBytes(Digest(core, core.init(hashSize, 0), data), 8)[..hashSize]
  {
    hide CountOf, Chain, Fold, Digest;
    var start := core.init(hashSize, 0);
    var h, c := start, Counter(0, 0);
    var rest := data;
    ChainStart(core, start, data);
    if |data| > BLOCK {
      var n := Leading(|data|);
      FoldContinues(core, start, data, 0, FullBlocks(|data|));
      h, c := HashBlocks(core, h, c, false, data[..n]);
      rest := data[n..];
    }
    assert rest == data[BLOCK * FullBlocks(|data|)..];
    LastIsDigest(core, start, data);
    h := Last(core, h, c, rest);
    var words := (hashSize + 7) / 8;
    sum := StateBytes(h, words) + seq(SIZE - 8 * words, _ => 0);
    StatePrefix(h, words, 8);
    assert StateBytes(h, 8)[..hashSize] == StateBytes(h, words)[..hashSize];
  }

  lemma ChainStart(core: Core, start: Words, m: Bytes)
    ensures Chain(core, start, m, 0) == start && CountOf(0) == Counter(0, 0) && m[0..] == m
    ensures |m| <= BLOCK ==> FullBlocks(|m|) == 0
  {
  }

  class Hasher {
    const core: Core
    const size: nat
    const key: Bytes
    var h: Words
    var c: Counter
    const block: array<Byte>
    var offset: nat
    /** What has been hashed since the last reset, key block first, and from which state. */
    ghost var message: Bytes
    ghost var start: Words

    ghost predicate Shape()
    {
      1 <= size <= SIZE && |key| <= SIZE && block.Length == BLOCK
    }

    /** All blocks but the last have been compressed; the last, full or not, is in the buffer. */
    ghost predicate Valid()
      reads this, block
    {
      && Shape()
      && Buffered(core, start, message, h, c, block[..], offset)
    }

    constructor (core: Core, size: nat, key: Bytes)
      requires 1 <= size <= SIZE && |key| <= SIZE
      ensures Valid() && fresh(block) && this.core == core && this.size == size && this.key == key
      ensures message == KeyBlock(key) && start == core.init(size, |key|)
    {
      this.core, this.size, this.key := core, size, key;
      block := new Byte[BLOCK](_ => 0);
      h, c, offset := core.init(size, |key|), Counter(0, 0), 0;
      message, start := [], core.init(size, |key|);
      new;
      Reset();
    }

    /** Back to the state of a new digest. */
    method Reset()
      requires Shape()
      modifies this, block
      ensures Valid() && message == KeyBlock(key) && start == core.init(size, |key|)
    {
      ResetFrom(core.init(size, |key|));
    }

    /** Starts again from a given state, with the key block first. */
    method ResetFrom(from: Words)
      requires Shape()
      modifies this, block
      ensures Valid() && message == KeyBlock(key) && start == from
    {
      h := from;
      offset, c := 0, Counter(0, 0);
      if |key| > 0 {
        CopyIn(0, ZeroPad(key));
        offset := BLOCK;
      }
      message, start := KeyBlock(key), from;
      ChainStart(core, start, message);
      assert block[..offset] == message;
    }

    /** Starts again from a given state and nothing hashed. */
    method Restart(from: Words)
      requires Shape()
      modifies this
      ensures Valid() && message == [] && start == from
    {
      h, offset, c := from, 0, Counter(0, 0);
      message, start := [], from;
      ChainStart(core, start, message);
    }

    method CopyIn(at: nat, data: Bytes)
      requires block.Length == BLOCK && at + |data| <= BLOCK
      modifies block
      ensures block[..] == old(block[..])[..at] + data + old(block[..])[at + |data|..]
    {
      forall i | 0 <= i < |data| {
        block[at + i] := data[i];
      }
    }

    /** Adds data to the message. */
    method Write(p: Bytes)
      requires Valid()
      modifies this, block
      ensures Valid() && message == old(message) + p && start == old(start)
    {
      hide Chain, CountOf, Fold;
      ghost var m := message + p;
      ghost var k := FullBlocks(|message|);
      var rest := p;
      if offset > 0 {
        var remaining := BLOCK - offset;
        if |p| <= remaining {
          CopyIn(offset, p);
          GrowsInBuffer(core, start, message, p);
          offset := offset + |p|;
          message := m;
          return;
        }
        CopyIn(offset, p[..remaining]);
        ghost var full := k + 1;
        FillsBuffer(core, start, message, p, block[..], k);
        var h', c' := HashBlocks(core, h, c, false, block[..]);
        h, c, offset := h', c', 0;
        k := full;
        rest := p[remaining..];
      } else {
        assert message == [] && m == p;
        ChainStart(core, start, message);
        ChainStart(core, start, m);
      }
      message := m;
      Absorb(rest, k);
    }

    /** At a block boundary: hashes all but the last block of what is left, and keeps the last. */
    method Absorb(rest: Bytes, ghost k: nat)
      requires Shape() && offset == 0 && BLOCK * k <= |message| && rest == message[BLOCK * k..]
      requires h == Chain(core, start, message, k) && c == CountOf(BLOCK * k) && (rest == [] ==> k == 0)
      modifies this, block
      ensures Valid() && message == old(message) && start == old(start)
    {
      hide Chain, CountOf, Fold, FullBlocks, Leading;
      NoFullBlock();
      var p := rest;
      if |p| > 0 {
        ghost var n := FullBlocks(|message|);
        Boundary(|message|, k);
        var nn := Leading(|p|);
        if |p| > BLOCK {
          FoldContinues(core, start, message, k, n);
          assert p[..nn] == message[BLOCK * k..BLOCK * n];
          var h', c' := HashBlocks(core, h, c, false, p[..nn]);
          h, c := h', c';
          DropTwice(message, BLOCK * k, nn);
          p := p[nn..];
        }
        assert p == message[BLOCK * n..];
        CopyIn(0, p);
        offset := offset + |p|;
        assert block[..offset] == p;
      }
    }

    /** The digest of the message so far; the state is left as it was. */
    method Finalize() returns (hash: Bytes)
      requires Valid()
      ensures hash == StateBytes(Digest(core, start, message), 8)
    {
      LastIsDigest(core, start, message);
      var out := Last(core, h, c, block[..offset]);
      hash := StateBytes(out, 8);
    }

    /** Appends the digest, cut to its size. */
    method Sum(prefix: Bytes) returns (r: Bytes)
      requires Valid()
      ensures r == prefix + StateBytes(Digest(core, start, message), 8)[..size]
    {
      var hash := Finalize();
      r := prefix + hash[..size];
    }
  }

  ghost predicate Buffered(core: Core, start: Words, m: Bytes, h: Words, c: Counter, block: Bytes, offset: nat)
  {
    var k := FullBlocks(|m|);
    && h == Chain(core, start, m, k) && c == CountOf(BLOCK * k)
    && offset == |m| - BLOCK * k && offset <= |block| && block[..offset] == m[BLOCK * k..]
  }

  /** Data that still fits the buffer completes no block. */
  lemma GrowsInBuffer(core: Core, start: Words, m: Bytes, p: Bytes)
    requires m != [] && |m| - BLOCK * FullBlocks(|m|) + |p| <= BLOCK
    ensures FullBlocks(|m + p|) == FullBlocks(|m|)
    ensures Chain(core, start, m + p, FullBlocks(|m|)) == Chain(core, start, m, FullBlocks(|m|))
    ensures (m + p)[BLOCK * FullBlocks(|m|)..] == m[BLOCK * FullBlocks(|m|)..] + p
  {
    ChainPrefix(core, start, m, p, FullBlocks(|m|));
  }

  /** A filled buffer is the next block of the longer message. */
  lemma FillsBuffer(core: Core, start: Words, m: Bytes, p: Bytes, block: Bytes, k: nat)
    requires m != [] && k == FullBlocks(|m|) && |block| == BLOCK && |m| + |p| > BLOCK * (k + 1)
    requires block == m[BLOCK * k..] + p[..BLOCK * (k + 1) - |m|]
    ensures Fold(core, Chain(core, start, m, k), CountOf(BLOCK * k), false, block)
         == (Chain(core, start, m + p, k + 1), CountOf(BLOCK * (k + 1)))
    ensures (m + p)[BLOCK * (k + 1)..] == p[BLOCK * (k + 1) - |m|..]
  {
    hide Fold, CountOf, Chain;
    ChainPrefix(core, start, m, p, k);
    assert block == (m + p)[BLOCK * k..BLOCK * (k + 1)];
    FoldContinues(core, start, m + p, k, k + 1);
  }

  /** From a block boundary on, the full blocks of the rest are the remaining full blocks of the whole. */
  lemma Boundary(n: nat, k: nat)
    requires BLOCK * k < n
    ensures FullBlocks(n) == k + FullBlocks(n - BLOCK * k)
  {
  }

  lemma DropTwice(m: Bytes, a: nat, b: nat)
    requires a + b <= |m|
    ensures m[a..][b..] == m[a + b..]
  {
  }

  lemma NoFullBlock()
    ensures FullBlocks(0) == 0
  {
  }

  // ----- any chunking -----

  function Concat(chunks: seq<Bytes>): Bytes
  {
    if chunks == [] then [] else Concat(chunks[..|chunks| - 1]) + chunks[|chunks| - 1]
  }

  /** However the data is split into writes, also by empty ones, the digest is that of the key block and all the data. */
  method HashChunks(core: Core, size: nat, key: Bytes, chunks: seq<Bytes>) returns (out: Bytes)
    requires 1 <= size <= SIZE && |key| <= SIZE
    ensures out == StateBytes(Digest(core, core.init(size, |key|), KeyBlock(key) + Concat(chunks)), 8)[..size]
  {
    hide Digest, Buffered, StateBytes;
    var d := new Hasher(core, size, key);
    assert d.message == KeyBlock(key) + Concat([]);
    var i := 0;
    while i < |chunks|
      invariant 0 <= i <= |chunks|
      invariant d.Valid() && fresh(d) && fresh(d.block) && d.core == core && d.size == size
      invariant d.start == core.init(size, |key|) && d.message == KeyBlock(key) + Concat(chunks[..i])
    {
      assert chunks[..i + 1][..i] == chunks[..i];
      d.Write(chunks[i]);
      i := i + 1;
    }
    assert chunks[..|chunks|] == chunks;
    out := d.Sum([]);
  }
}
