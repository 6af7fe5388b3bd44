/** The extendable output: a stream of 64-byte nodes derived from the root digest, read in pieces of any size. */
module Blake2x {
  import opened Basics
  import opened Blake2bModel
  import opened Blake2b

  const UNKNOWN_LENGTH: nat := 0xFFFF_FFFF
  const MAX_OUTPUT: nat := 0x40_0000_0000

  // ----- the stream -----

  /** Node i of the output: the root hashed under a configuration with the node's number and, for the last, its length. */
  function Node(core: Core, length: nat, total: nat, root: Bytes, i: nat): (b: Bytes)
    ensures |b| == SIZE
  {
    var left := if SIZE * i <= total then total - SIZE * i else 0;
    StateBytes(Digest(core, core.initConfig(if left < SIZE then left else SIZE, i, length), root), 8)
  }

  /** Bytes from..until of the output. */
  function Stream(core: Core, length: nat, total: nat, root: Bytes, from: nat, until: nat): (b: Bytes)
    requires from <= until
    ensures |b| == until - from
  {
    seq<Byte>(until - from, k requires 0 <= k < until - from => ByteAt(core, length, total, root, from + k))
  }

  function ByteAt(core: Core, length: nat, total: nat, root: Bytes, k: nat): Byte
  {
    Node(core, length, total, root, NodeOf(k))[Within(k)]
  }

  /** The node byte k lies in, and its place there. */
  function NodeOf(k: nat): nat { k / 64 }

  function Within(k: nat): (r: nat)
    ensures r < SIZE
  {
    k % 64
  }

  /** The nodes begun before byte k. */
  function NodesBegun(k: nat): nat { (k + 63) / 64 }

  lemma Split(i: nat, r: nat)
    requires r < SIZE
    ensures NodeOf(SIZE * i + r) == i && Within(SIZE * i + r) == r
    ensures NodesBegun(SIZE * i + r) == if r == 0 then i else i + 1
  {
  }

  lemma Splits(k: nat)
    ensures k == SIZE * NodeOf(k) + Within(k)
    ensures k < MAX_OUTPUT ==> NodeOf(k) < 0x1_0000_0000
  {
  }

  /** Pieces of the stream join. */
  lemma StreamsJoin(core: Core, length: nat, total: nat, root: Bytes, a: nat, b: nat, c: nat)
    requires a <= b <= c
    ensures Stream(core, length, total, root, a, b) + Stream(core, length, total, root, b, c) == Stream(core, length, total, root, a, c)
  {
  }

  /** A piece inside one node. */
  lemma InsideNode(core: Core, length: nat, total: nat, root: Bytes, i: nat, a: nat, b: nat)
    requires a <= b <= SIZE
    ensures Stream(core, length, total, root, SIZE * i + a, SIZE * i + b) == Node(core, length, total, root, i)[a..b]
  {
    hide Node, NodeOf, Within;
    var s, node := Stream(core, length, total, root, SIZE * i + a, SIZE * i + b), Node(core, length, total, root, i);
    forall k | 0 <= k < |s| ensures s[k] == node[a + k] {
      assert s[k] == ByteAt(core, length, total, root, SIZE * i + a + k);
      Split(i, a + k);
      assert SIZE * i + a + k == SIZE * i + (a + k);
    }
  }

  /** The number of bytes an output of the given length parameter has in all. */
  function Total(length: nat): nat { if length == UNKNOWN_LENGTH then MAX_OUTPUT else length }

  class Xof {
    const core: Core
    const key: Bytes
    const length: nat
    const d: Hasher
    var remaining: nat
    var root: Bytes
    var block: Bytes
    /** The digest length in the node configuration. */
    var first: nat
    var offset: nat
    var nodeOffset: nat
    var readMode: bool
    /** The message, once reading has begun. */
    ghost var absorbed: Bytes

    ghost predicate Shape()
    {
      1 <= length <= UNKNOWN_LENGTH && d.core == core && d.key == key && d.Shape()
    }

    /** The message so far and, when reading, how far the stream has been read and what the buffer holds. */
    ghost predicate Valid()
      reads this, d, d.block
    {
      && Shape() && d.Valid() && remaining <= Total(length) && |block| == SIZE && offset < SIZE
      && (!readMode ==> remaining == Total(length) && d.start == core.xofInit(|key|, length))
      && (readMode ==> root == Root(core, key, length, absorbed))
      && InStep()
    }

    /** Buffer, node number and configuration fit the position in the stream. */
    ghost predicate InStep()
      requires remaining <= Total(length)
      reads this
    {
      remaining > 0 ==>
        var pos := Total(length) - remaining;
        && offset == Within(pos) && nodeOffset == NodesBegun(pos) % 0x1_0000_0000
        && (first == if offset > 0 && remaining + offset < SIZE then remaining + offset else SIZE)
        && (offset > 0 ==> readMode && block == Node(core, length, Total(length), root, NodeOf(pos)))
    }

    ghost function Position(): nat
      requires remaining <= Total(length)
      reads this`remaining
    {
      Total(length) - remaining
    }

    /** The message that is or was hashed into the root. */
    ghost function Message(): Bytes
      reads this, d
    {
      if readMode then absorbed else d.message
    }

    constructor (core: Core, length: nat, key: Bytes)
      requires |key| <= SIZE && 1 <= length <= UNKNOWN_LENGTH
      ensures Valid() && fresh(d) && fresh(d.block) && this.core == core && this.length == length && this.key == key
      ensures !readMode && Message() == KeyBlock(key) && Position() == 0
    {
      this.core, this.key, this.length := core, key, length;
      d := new Hasher(core, SIZE, key);
      remaining, root, block, first, offset, nodeOffset, readMode := 0, [], seq(SIZE, _ => 0), SIZE, 0, 0, false;
      absorbed := [];
      new;
      Reset();
    }

    method Reset()
      requires Shape() && |block| == SIZE
      modifies this, d, d.block
      ensures Valid() && !readMode && Message() == KeyBlock(key) && Position() == 0
    {
      first := SIZE;
      d.ResetFrom(core.xofInit(|key|, length));
      remaining := Total(length);
      offset, nodeOffset := 0, 0;
      readMode := false;
    }

    /** Absorbs more data; only before the first read. */
    method Write(p: Bytes)
      requires Valid() && !readMode
      modifies d, d.block
      ensures Valid() && Message() == old(Message()) + p
    {
      d.Write(p);
    }

    /** Computes the next node of the output into the buffer. */
    method NextNode(ghost i: nat)
      requires Shape() && nodeOffset == i && i < 0x1_0000_0000 && SIZE * i <= Total(length)
      requires var left := Total(length) - SIZE * i; first == if left < SIZE then left else SIZE
      modifies this`block, this`nodeOffset, d, d.block
      ensures block == Node(core, length, Total(length), root, i) && nodeOffset == (i + 1) % 0x1_0000_0000
      ensures Shape() && d.Valid()
    {
      hide StateBytes, Digest, Buffered, Root;
      var config := core.initConfig(first, nodeOffset, length);
      nodeOffset := (nodeOffset + 1) % 0x1_0000_0000;
      d.Restart(config);
      d.Write(root);
      assert d.message == root;
      block := d.Finalize();
    }

    /** The first `at` bytes of p are the stream from q to the current position. */
    ghost predicate Filled(p: array<Byte>, at: nat, q: nat)
      reads this, p
    {
      && remaining <= Total(length) && at <= p.Length && Position() == q + at
      && p[..at] == Stream(core, length, Total(length), root, q, q + at)
    }

    /** Copies the next k bytes of the buffered node. */
    method CopyOut(p: array<Byte>, at: nat, skip: nat, k: nat, ghost q: nat, ghost i: nat)
      requires Filled(p, at, q) && at + k <= p.Length && skip + k <= |block| == SIZE && k <= remaining
      requires q + at == SIZE * i + skip && block == Node(core, length, Total(length), root, i)
      modifies p, this`remaining
      ensures Filled(p, at + k, q) && remaining == old(remaining) - k
      ensures p[at + k..] == old(p[at + k..])
    {
      hide Stream, Node;
      ghost var before := p[..];
      forall j | 0 <= j < k {
        p[at + j] := block[skip + j];
      }
      remaining := remaining - k;
      InsideNode(core, length, Total(length), root, i, skip, skip + k);
      StreamsJoin(core, length, Total(length), root, q, q + at, q + at + k);
      assert p[..at + k] == before[..at] + block[skip..skip + k];
    }

    /** Takes what the buffer still holds of the current node. */
    method FromBuffer(p: array<Byte>, n: nat, ghost q: nat) returns (at: nat)
      requires Valid() && readMode && offset > 0 && 0 < remaining && n <= remaining && n <= p.Length && q == Position()
      requires p != d.block
      modifies p, this`remaining, this`offset
      ensures Valid() && Filled(p, at, q) && at <= n <= at + remaining && (at == n || offset == 0)
      ensures p[at..] == old(p[at..])
    {
      hide Node, StateBytes, Digest, Buffered, Stream, NodeOf, Within, NodesBegun, Root;
      var blockRemaining := SIZE - offset;
      ghost var i := NodeOf(q);
      Splits(q);
      Split(i, offset);
      StreamStart(core, length, Total(length), root, q);
      if n < blockRemaining {
        CopyOut(p, 0, offset, n, q, i);
        offset := offset + n;
        Split(i, offset);
        return n;
      }
      CopyOut(p, 0, offset, blockRemaining, q, i);
      offset := 0;
      Split(i + 1, 0);
      at := blockRemaining;
    }

    /** Computes and copies whole nodes. */
    method WholeNodes(p: array<Byte>, n: nat, at0: nat, ghost q: nat) returns (at: nat)
      requires Valid() && readMode && Filled(p, at0, q) && at0 <= n <= at0 + remaining && n <= p.Length && p != d.block
      requires at0 == n || offset == 0
      modifies this`remaining, this`block, this`nodeOffset, d, d.block, p
      ensures Valid() && Filled(p, at, q) && at <= n <= at + remaining && n - at < SIZE && (at == n || offset == 0)
      ensures p[n..] == old(p[n..])
    {
      hide Node, StateBytes, Digest, Buffered, Stream, NodeOf, Within, NodesBegun, Root;
      at := at0;
      while n - at >= SIZE
        invariant Valid() && Filled(p, at, q) && at <= n <= at + remaining && (at == n || offset == 0)
        invariant p[n..] == old(p[n..])
      {
        ghost var i := NodeOf(Position());
        Splits(Position());
        Split(i, 0);
        NextNode(i);
        CopyOut(p, at, 0, SIZE, q, i);
        at := at + SIZE;
        Split(i + 1, 0);
      }
    }

    /** Computes a node, the last one under its own length, and copies its beginning. */
    method PartNode(p: array<Byte>, n: nat, at: nat, ghost q: nat)
      requires Valid() && readMode && Filled(p, at, q) && at < n <= at + remaining && n <= p.Length && p != d.block
      requires n - at < SIZE && offset == 0
      modifies this`remaining, this`block, this`nodeOffset, this`first, this`offset, d, d.block, p
      ensures Valid() && Filled(p, n, q)
      ensures p[n..] == old(p[n..])
    {
      hide Node, StateBytes, Digest, Buffered, Stream, NodeOf, Within, NodesBegun, Root;
      var todo := n - at;
      ghost var i := NodeOf(Position());
      Splits(Position());
      Split(i, 0);
      if remaining < SIZE {
        first := remaining;
      }
      NextNode(i);
      CopyOut(p, at, 0, todo, q, i);
      offset := todo;
      Split(i, todo);
    }

    /** The first read fixes the root. */
    method BeginRead()
      requires Valid()
      modifies this`absorbed, this`root, this`readMode
      ensures Valid() && readMode && Message() == old(Message())
    {
      hide StateBytes, Digest, Buffered, Node;
      if !readMode {
        absorbed := d.message;
        root := d.Finalize();
        readMode := true;
      }
    }

    /** The three phases: what the buffer holds, whole nodes, and the beginning of one more. */
    method Fill(p: array<Byte>, n: nat, ghost q: nat)
      requires Valid() && readMode && 0 < remaining && n <= remaining && n <= p.Length && p != d.block && q == Position()
      modifies this`remaining, this`block, this`nodeOffset, this`first, this`offset, d, d.block, p
      ensures Valid() && Filled(p, n, q)
      ensures p[n..] == old(p[n..])
    {
      hide StateBytes, Digest, Buffered, Stream, Node, NodeOf, Within, NodesBegun, InStep, Root;
      var at := 0;
      ghost var before := p[..];
      if offset > 0 {
        at := FromBuffer(p, n, q);
      } else {
        StreamStart(core, length, Total(length), root, q);
      }
      assert p[n..] == before[n..] by { assert p[n..] == p[at..][n - at..]; }
      at := WholeNodes(p, n, at, q);
      assert p[n..] == before[n..];
      if n > at {
        PartNode(p, n, at, q);
      }
    }

    /**
     * Fills as much of the buffer as the output has left. What is read is the next piece of the stream, wherever the
     * reads before it stopped.
     */
    method Read(p: array<Byte>) returns (n: nat, eof: bool)
      requires Valid() && p != d.block
      modifies this, d, d.block, p
      ensures Valid() && readMode && Message() == old(Message())
      ensures eof <==> old(remaining) == 0
      ensures n == (if p.Length <= old(remaining) then p.Length else old(remaining)) && Position() == old(Position()) + n
      ensures p[..n] == Stream(core, length, Total(length), Root(core, key, length, Message()), old(Position()), Position())
      ensures p[n..] == old(p[n..])
    {
      hide StateBytes, Digest, Buffered, Stream, Node, NodeOf, Within, NodesBegun, InStep, Root;
      BeginRead();
      ghost var q := Position();
      if remaining == 0 {
        StreamStart(core, length, Total(length), root, q);
        return 0, true;
      }
      eof := false;
      n := p.Length;
      if n > remaining {
        n := remaining;
      }
      Fill(p, n, q);
    }
  }

  lemma StreamStart(core: Core, length: nat, total: nat, root: Bytes, q: nat)
    ensures Stream(core, length, total, root, q, q) == []
  {
  }

  ghost function Root(core: Core, key: Bytes, length: nat, message: Bytes): Bytes
  {
    StateBytes(Digest(core, core.xofInit(|key|, length), message), 8)
  }

  // ----- reading in pieces -----

  function Sum(sizes: seq<nat>): nat { if sizes == [] then 0 else Sum(sizes[..|sizes| - 1]) + sizes[|sizes| - 1] }

  /** Reads in pieces of any sizes, also past the end, give the beginning of the same stream. */
  method ReadPieces(x: Xof, sizes: seq<nat>) returns (out: Bytes)
    requires x.Valid() && x.Position() == 0
    modifies x, x.d, x.d.block
    ensures x.Valid() && out == Stream(x.core, x.length, Total(x.length), Root(x.core, x.key, x.length, old(x.Message())),
                                       0, Min(Sum(sizes), Total(x.length)))
  {
    hide Stream, Node, StateBytes, Digest, Buffered;
    ghost var message := x.Message();
    ghost var root := Root(x.core, x.key, x.length, message);
    out := [];
    StreamStart(x.core, x.length, Total(x.length), root, 0);
    var i := 0;
    while i < |sizes|
      invariant 0 <= i <= |sizes| && x.Valid() && x.Message() == message
      invariant x.Position() == Min(Sum(sizes[..i]), Total(x.length))
      invariant out == Stream(x.core, x.length, Total(x.length), root, 0, x.Position())
    {
      var p := new Byte[sizes[i]](_ => 0);
      ghost var q := x.Position();
      var n, _ := x.Read(p);
      StreamsJoin(x.core, x.length, Total(x.length), root, 0, q, x.Position());
      out := out + p[..n];
      assert sizes[..i + 1][..i] == sizes[..i];
      i := i + 1;
    }
    assert sizes[..|sizes|] == sizes;
  }

  /** A length of zero asks for an output of unknown length; keys over 64 bytes and the length 2^32 - 1 are refused. */
  method NewXof(core: Core, size: nat, key: Bytes) returns (x: Xof?)
    requires size < 0x1_0000_0000
    ensures x == null <==> |key| > SIZE || size == UNKNOWN_LENGTH
    ensures x != null ==> fresh(x) && fresh(x.d) && fresh(x.d.block) && x.Valid() && !x.readMode && x.core == core && x.key == key
    ensures x != null ==> x.Message() == KeyBlock(key) && x.Position() == 0
    ensures x != null ==> x.length == if size == 0 then UNKNOWN_LENGTH else size
  {
    if |key| > SIZE {
      return null;
    }
    if size == UNKNOWN_LENGTH {
      return null;
    }
    x := new Xof(core, if size == 0 then UNKNOWN_LENGTH else size, key);
  }
}
