/** What the opcodes that read and write memory, input, code and return data do, byte by byte. */
module EvmMemoryOps {
  import opened Basics
  import opened BigEndian
  import opened EvmTypes
  import opened EvmTable
  import opened EvmWorld
  import opened EvmCode
  import opened EvmGas
  import opened EvmSemantics
  import opened EvmFrames
  import opened EvmOpcodes

  lemma QueryLocal(env: Env, w: World, c: Frame, op: Byte, o: Operation)
    requires Lookup(TableOf(env.rules), op) == Some(o) && IsQuery(op) && |c.stack| >= o.pops && Covered(c, op)
    ensures |c.stack| >= 1 && (op == MLOAD ==> c.stack[|c.stack| - 1] + 32 <= |c.store|)
    ensures LocalOp(env, w, c, op, o) == Ok(Onward(c, 1, [QueryValue(env, w, c, op, c.stack[|c.stack| - 1])]))
  {
    hide QueryValue;
  }

  /** A query replaces the top by its answer. */
  lemma QueryReplaces(env: Env, w: World, f: Frame, depth: nat, readOnly: bool)
    requires Pays(env, w, f, readOnly) && IsQuery(OpAt(f.code, f.pc))
    ensures var op := OpAt(f.code, f.pc);
            var c := PaidFrame(env, w, f, readOnly);
            && |f.stack| >= 1 && c.stack == f.stack && (op == MLOAD ==> f.stack[|f.stack| - 1] + 32 <= |c.store|)
            && Simply(w, f, Step(env, w, f, depth, readOnly), 1, [QueryValue(env, w, c, op, f.stack[|f.stack| - 1])])
  {
    hide Step, LocalOp, Lookup, Charge, Covered, QueryValue;
    var c := PaidFrame(env, w, f, readOnly);
    PaidRuns(env, w, f, readOnly);
    QueryLocal(env, w, c, OpAt(f.code, f.pc), Entry(env, f));
    StepSimply(env, w, f, depth, readOnly, 1, [QueryValue(env, w, c, OpAt(f.code, f.pc), f.stack[|f.stack| - 1])]);
  }

  /** A piece of a grown memory is a window of the memory before it grew. */
  lemma GrownWindow(store: Bytes, store': Bytes, need: nat, from: nat, n: nat)
    requires Grown(store, store', need) && from + n <= |store'|
    ensures Window(store'[from..from + n], store, from, n)
  {
  }

  /** MLOAD pushes the number that 32 bytes of memory make. */
  lemma MloadPushes(env: Env, w: World, f: Frame, depth: nat, readOnly: bool) returns (b: Bytes)
    requires Pays(env, w, f, readOnly) && OpAt(f.code, f.pc) == MLOAD
    ensures |f.stack| >= 1 && Window(b, f.store, f.stack[|f.stack| - 1], 32) && FromBytes(b) < TWO_256
    ensures Simply(w, f, Step(env, w, f, depth, readOnly), 1, [FromBytes(b)])
  {
    hide Step, Charge, Lookup, Simply, FromBytes, Window, Grown, MemoryNeeded, WordOfBytes;
    QueryReplaces(env, w, f, depth, readOnly);
    PaidMemory(env, w, f, readOnly);
    var c, x := PaidFrame(env, w, f, readOnly), f.stack[|f.stack| - 1];
    b := c.store[x..x + 32];
    GrownWindow(f.store, c.store, MemoryNeeded(MLOAD, f.stack).value, x, 32);
    WordNumber(b);
    WordBound(b);
  }

  /** CALLDATALOAD pushes the number that 32 bytes of the input make, zero beyond its end. */
  lemma CallDataPushes(env: Env, w: World, f: Frame, depth: nat, readOnly: bool) returns (b: Bytes)
    requires Pays(env, w, f, readOnly) && OpAt(f.code, f.pc) == CALLDATALOAD && |f.input| <= TWO_64
    ensures |f.stack| >= 1 && Window(b, f.input, f.stack[|f.stack| - 1], 32) && FromBytes(b) < TWO_256
    ensures Simply(w, f, Step(env, w, f, depth, readOnly), 1, [FromBytes(b)])
  {
    hide Step, Charge, Lookup, Simply, FromBytes, Window, WordOfBytes, GetData;
    QueryReplaces(env, w, f, depth, readOnly);
    PaidMemory(env, w, f, readOnly);
    var x := f.stack[|f.stack| - 1];
    b := GetData(f.input, x, 32);
    DataWindow(f.input, x, 32);
    WordNumber(b);
    WordBound(b);
    if x >= TWO_64 {
      BeyondEnd(b, f.input, x);
    }
  }

  lemma BeyondEnd(b: Bytes, data: Bytes, from: nat)
    requires Window(b, data, from, 32) && |data| <= from
    ensures FromBytes(b) == 0
  {
    NoNumber(b);
  }

  lemma {:induction false} NoNumber(b: Bytes)
    requires forall i :: 0 <= i < |b| ==> b[i] == 0
    ensures FromBytes(b) == 0
  {
    if b != [] {
      NoNumber(b[..|b| - 1]);
    }
  }

  // ----- writing -----

  /** A memory after a range of it was written: the data there, and the old bytes everywhere else. */
  ghost predicate Written(store: Bytes, store': Bytes, off: nat, data: Bytes)
  {
    && |store| <= |store'| && (data != [] ==> off + |data| <= |store'|)
    && forall i :: 0 <= i < |store'| ==> store'[i] == if off <= i < off + |data| then data[i - off] else ByteAt(store, i)
  }

  lemma WriteIsWritten(store: Bytes, grown: Bytes, need: nat, off: Word, size: Word, data: Bytes)
    requires Grown(store, grown, need) && (size > 0 ==> off + size <= |grown|)
    ensures Written(store, Write(grown, off, size, data), off, data[..Min(size, |data|)])
  {
    var (n, after) := (Min(size, |data|), Write(grown, off, size, data));
    if size > 0 {
      assert forall i :: 0 <= i < off ==> after[i] == grown[i];
      assert forall i :: off <= i < off + n ==> after[i] == data[i - off];
      assert forall i :: off + n <= i < |after| ==> after[i] == grown[i];
    }
  }

  predicate IsMemoryWrite(op: Byte) { op == MSTORE || op == MSTORE8 || IsCopy(op) }

  /** How many items a writing opcode takes, and which of them are the destination and the length. */
  function WriteArity(op: Byte): nat { if op == MSTORE || op == MSTORE8 then 2 else if op == EXTCODECOPY then 4 else 3 }

  /** Where a writing opcode writes. */
  function WriteAt(op: Byte, s: seq<Word>): Word
    requires |s| >= WriteArity(op)
  {
    if op == EXTCODECOPY then s[|s| - 2] else s[|s| - 1]
  }

  /** What a writing opcode writes: a word, its low byte, or a window of the source that its name says. */
  ghost predicate WritesData(env: Env, w: World, f: Frame, op: Byte, data: Bytes)
    requires |f.stack| >= WriteArity(op)
  {
    var s, n := f.stack, |f.stack|;
    && (op == MSTORE ==> |data| == 32 && FromBytes(data) == s[n - 2])
    && (op == MSTORE8 ==> data == [s[n - 2] % 256])
    && (op == CALLDATACOPY && |f.input| < TWO_64 ==> Window(data, f.input, s[n - 2], s[n - 3]))
    && (op == CODECOPY && |f.code| < TWO_64 ==> Window(data, f.code, s[n - 2], s[n - 3]))
    && (op == EXTCODECOPY ==>
          var code := AccountOf(env, w, s[n - 1] % TWO_160).code;
          |code| < TWO_64 ==> Window(data, code, s[n - 3], s[n - 4]))
    && (op == RETURNDATACOPY ==>
          var (from, len) := (s[n - 2] as nat, s[n - 3] as nat);
          from + len <= |f.returnData| && data == f.returnData[from..from + len])
  }

  /** RETURNDATACOPY fails when it reaches beyond the data. */
  predicate OutOfBounds(f: Frame, op: Byte)
    requires |f.stack| >= WriteArity(op)
  {
    var s, n := f.stack, |f.stack|;
    op == RETURNDATACOPY && (s[n - 2] + s[n - 3] > |f.returnData| || s[n - 2] + s[n - 3] >= TWO_64)
  }

  /** The data in the terms of the operation itself. */
  ghost function Source(env: Env, w: World, c: Frame, op: Byte): Bytes
    requires |c.stack| >= WriteArity(op) && IsMemoryWrite(op)
  {
    var s, n := c.stack, |c.stack|;
    if op == MSTORE then BytesOfNat(s[n - 2], 32)
    else if op == MSTORE8 then [s[n - 2] % 256]
    else if op == CALLDATACOPY then GetData(c.input, Min(s[n - 2], TWO_64 - 1), s[n - 3])
    else if op == CODECOPY then GetData(c.code, Min(s[n - 2], TWO_64 - 1), s[n - 3])
    else if op == EXTCODECOPY then GetData(AccountOf(env, w, s[n - 1] % TWO_160).code, Min(s[n - 3], TWO_64 - 1), s[n - 4])
    else GetData(c.returnData, s[n - 2], s[n - 3])
  }

  lemma WriteLocal(env: Env, w: World, c: Frame, op: Byte, o: Operation)
    requires Lookup(TableOf(env.rules), op) == Some(o) && IsMemoryWrite(op) && |c.stack| >= o.pops && Covered(c, op)
    ensures |c.stack| >= WriteArity(op) == o.pops
    ensures var (data, at) := (Source(env, w, c, op), WriteAt(op, c.stack));
            && |data| < TWO_256 && (|data| > 0 ==> at + |data| <= |c.store|)
            && LocalOp(env, w, c, op, o) ==
                 if OutOfBounds(c, op) then Bad(ReturnDataOutOfBounds)
                 else Ok(Onward(c.(store := Write(c.store, at, |data|, data)), WriteArity(op), []))
  {
    hide Write, GetData, BytesOfNat, AccountOf, Covered;
    OperandRange(c, op);
    if op == MSTORE || op == MSTORE8 {
      WordWriteLocal(env, w, c, op, o);
    } else {
      CopyLocal(env, w, c, op, o);
    }
  }

  lemma WordWriteLocal(env: Env, w: World, c: Frame, op: Byte, o: Operation)
    requires Lookup(TableOf(env.rules), op) == Some(o) && (op == MSTORE || op == MSTORE8) && |c.stack| >= o.pops && Covered(c, op)
    ensures |c.stack| >= 2 == o.pops
    ensures var (data, at) := (Source(env, w, c, op), WriteAt(op, c.stack));
            && at + |data| <= |c.store|
            && LocalOp(env, w, c, op, o) == Ok(Onward(c.(store := Write(c.store, at, |data|, data)), 2, []))
  {
    hide Write, BytesOfNat, Covered;
    OperandRange(c, op);
    NothingPushed(c.stack, 2);
  }

  lemma NothingPushed(s: seq<Word>, n: nat)
    requires n <= |s|
    ensures s[..|s| - n] + [] == s[..|s| - n]
  {
  }

  lemma CopyLocal(env: Env, w: World, c: Frame, op: Byte, o: Operation)
    requires Lookup(TableOf(env.rules), op) == Some(o) && IsCopy(op) && |c.stack| >= o.pops && Covered(c, op)
    ensures |c.stack| >= WriteArity(op) == o.pops
    ensures var (data, at) := (Source(env, w, c, op), WriteAt(op, c.stack));
            && |data| < TWO_256 && (|data| > 0 ==> at + |data| <= |c.store|)
            && LocalOp(env, w, c, op, o) ==
                 if OutOfBounds(c, op) then Bad(ReturnDataOutOfBounds)
                 else Ok(Onward(c.(store := Write(c.store, at, |data|, data)), WriteArity(op), []))
  {
    hide Write, GetData, AccountOf, Covered;
    OperandRange(c, op);
    NothingPushed(c.stack, WriteArity(op));
  }

  lemma MinWindow(data: Bytes, from: Word, n: Word)
    requires |data| < TWO_64
    ensures Window(GetData(data, Min(from, TWO_64 - 1), n), data, from, n)
  {
  }

  lemma SourceIsData(env: Env, w: World, f: Frame, op: Byte)
    requires |f.stack| >= WriteArity(op) && IsMemoryWrite(op) && !OutOfBounds(f, op)
    ensures WritesData(env, w, f, op, Source(env, w, f, op))
  {
    hide GetData, BytesOfNat, FromBytes, AccountOf, Window, Pow256;
    var s, n := f.stack, |f.stack|;
    if op == MSTORE {
      WordPower();
      FromBytesOfNat(s[n - 2], 32);
      LowSmall(s[n - 2], 32);
    } else if op == CALLDATACOPY && |f.input| < TWO_64 {
      MinWindow(f.input, s[n - 2], s[n - 3]);
    } else if op == CODECOPY && |f.code| < TWO_64 {
      MinWindow(f.code, s[n - 2], s[n - 3]);
    } else if op == EXTCODECOPY && |AccountOf(env, w, s[n - 1] % TWO_160).code| < TWO_64 {
      MinWindow(AccountOf(env, w, s[n - 1] % TWO_160).code, s[n - 3], s[n - 4]);
    } else if op == RETURNDATACOPY {
      InsideWindow(f.returnData, s[n - 2], s[n - 3]);
    }
  }

  lemma InsideWindow(data: Bytes, from: nat, n: nat)
    requires from + n <= |data|
    ensures GetData(data, from, n) == data[from..from + n]
  {
  }

  /** An opcode that writes memory writes its data at its place, keeps every other byte, and takes its operands. */
  lemma MemoryWrites(env: Env, w: World, f: Frame, depth: nat, readOnly: bool) returns (data: Bytes)
    requires Pays(env, w, f, readOnly) && IsMemoryWrite(OpAt(f.code, f.pc))
    ensures var op := OpAt(f.code, f.pc);
            var r := Step(env, w, f, depth, readOnly);
            && |f.stack| >= WriteArity(op)
            && if OutOfBounds(f, op) then r == Stop(Failed(ReturnDataOutOfBounds))
               else
                 && WritesData(env, w, f, op, data)
                 && r.Next? && r.w == w && r.f.pc == f.pc + 1 && Effect(f, r.f, WriteArity(op), [])
                 && Written(f.store, r.f.store, WriteAt(op, f.stack), data)
  {
    hide Step, LocalOp, Lookup, Charge, Covered, Source, Write, WritesData, Written, Grown, MemoryNeeded;
    var op, c := OpAt(f.code, f.pc), PaidFrame(env, w, f, readOnly);
    PaidRuns(env, w, f, readOnly);
    PaidMemory(env, w, f, readOnly);
    LocalStep(env, w, f, depth, readOnly);
    WriteLocal(env, w, c, op, Entry(env, f));
    SameSource(env, w, f, c, op);
    data := Source(env, w, f, op);
    if !OutOfBounds(f, op) {
      SourceIsData(env, w, f, op);
      WriteIsWritten(f.store, c.store, MemoryNeeded(op, f.stack).value, WriteAt(op, f.stack), |data|, data);
      assert data[..|data|] == data;
    }
  }

  lemma SameSource(env: Env, w: World, f: Frame, c: Frame, op: Byte)
    requires |f.stack| >= WriteArity(op) && IsMemoryWrite(op)
    requires c == f.(gas := c.gas, lastGasCost := c.lastGasCost, store := c.store)
    ensures Source(env, w, c, op) == Source(env, w, f, op) && OutOfBounds(c, op) == OutOfBounds(f, op)
  {
    hide GetData, BytesOfNat, AccountOf;
  }

  /** SHA3 pushes the hash of a range of memory. */
  lemma Sha3Pushes(env: Env, w: World, f: Frame, depth: nat, readOnly: bool) returns (b: Bytes)
    requires Pays(env, w, f, readOnly) && OpAt(f.code, f.pc) == SHA3
    ensures |f.stack| >= 2 && Window(b, f.store, f.stack[|f.stack| - 1], f.stack[|f.stack| - 2])
    ensures Simply(w, f, Step(env, w, f, depth, readOnly), 2, [env.sha3(b)])
  {
    hide Step, LocalOp, Lookup, Charge, Covered, Window, Grown, MemoryNeeded, Slice;
    var c := PaidFrame(env, w, f, readOnly);
    PaidRuns(env, w, f, readOnly);
    PaidMemory(env, w, f, readOnly);
    Sha3Local(env, w, c, Entry(env, f));
    b := Slice(c.store, f.stack[|f.stack| - 1], f.stack[|f.stack| - 2]);
    SliceWindow(f.store, c.store, MemoryNeeded(SHA3, f.stack).value, f.stack[|f.stack| - 1], f.stack[|f.stack| - 2]);
    StepSimply(env, w, f, depth, readOnly, 2, [env.sha3(b)]);
  }

  lemma Sha3Local(env: Env, w: World, c: Frame, o: Operation)
    requires Lookup(TableOf(env.rules), SHA3) == Some(o) && |c.stack| >= o.pops && Covered(c, SHA3)
    ensures |c.stack| >= 2
    ensures var (off, n) := (c.stack[|c.stack| - 1], c.stack[|c.stack| - 2]);
            && (n > 0 ==> off + n <= |c.store|)
            && LocalOp(env, w, c, SHA3, o) == Ok(Onward(c, 2, [env.sha3(Slice(c.store, off, n))]))
  {
  }

  lemma SliceWindow(store: Bytes, grown: Bytes, need: nat, off: Word, n: Word)
    requires Grown(store, grown, need) && (n > 0 ==> off + n <= |grown|)
    ensures Window(Slice(grown, off, n), store, off, n)
  {
  }

  // ----- what is stored is loaded -----

  predicate WordsApart(x: nat, y: nat) { y + 32 <= x || x + 32 <= y }

  /** What a load in g gives after a store in f, of which `before` is what was there. */
  ghost predicate LoadsStored(w: World, f: Frame, g: Frame, r: StepResult, before: Bytes)
  {
    && |f.stack| >= 2 && |g.stack| >= 1
    && var (x, v, y) := (f.stack[|f.stack| - 1], f.stack[|f.stack| - 2], g.stack[|g.stack| - 1]);
       && (y == x ==> Simply(w, g, r, 1, [v]))
       && (WordsApart(x, y) ==>
             Window(before, f.store, y, 32) && FromBytes(before) < TWO_256 && Simply(w, g, r, 1, [FromBytes(before)]))
  }

  /** After MSTORE of v, MLOAD from the same place gives v, and MLOAD from a place apart gives what it gave before. */
  lemma StoredWordLoads(env: Env, w: World, f: Frame, g: Frame, depth: nat, readOnly: bool) returns (before: Bytes)
    requires Pays(env, w, f, readOnly) && OpAt(f.code, f.pc) == MSTORE
    requires Step(env, w, f, depth, readOnly).Next? && g.store == Step(env, w, f, depth, readOnly).f.store
    requires Pays(env, w, g, readOnly) && OpAt(g.code, g.pc) == MLOAD
    ensures LoadsStored(w, f, g, Step(env, w, g, depth, readOnly), before)
  {
    hide Step, Charge, Lookup, Simply, FromBytes, Effect;
    var data := MemoryWrites(env, w, f, depth, readOnly);
    before := MloadPushes(env, w, g, depth, readOnly);
    var x, y := f.stack[|f.stack| - 1], g.stack[|g.stack| - 1];
    if y == x {
      assert before == data;
    }
  }
}
