/** What the opcodes inside a frame do, seen from one step: values pushed, bytes written, positions reached. */
module EvmOpcodes {
  import opened Basics
  import opened BigEndian
  import opened EvmTypes
  import opened EvmTable
  import opened EvmWorld
  import opened EvmCode
  import opened EvmGas
  import opened EvmSemantics
  import opened EvmFrames

  // ----- paying for the next opcode -----

  /** The rules define the next opcode, and the frame passes its checks and pays for it. */
  predicate Pays(env: Env, w: World, f: Frame, readOnly: bool)
  {
    var op := OpAt(f.code, f.pc);
    var entry := Lookup(TableOf(env.rules), op);
    entry.Some? && Charge(env, w, f, op, entry.value, readOnly).Paid?
  }

  /** The frame once it has paid: less gas, and memory for what the opcode names. */
  function PaidFrame(env: Env, w: World, f: Frame, readOnly: bool): Frame
    requires Pays(env, w, f, readOnly)
  {
    var op := OpAt(f.code, f.pc);
    Charge(env, w, f, op, Lookup(TableOf(env.rules), op).value, readOnly).f
  }

  /** Bytes of a memory, which is zero beyond its end. */
  function ByteAt(store: Bytes, i: nat): Byte { if i < |store| then store[i] else 0 }

  /** A memory of at least the given size that reads as before. */
  ghost predicate Grown(store: Bytes, store': Bytes, need: nat)
  {
    && |store'| == (if |store| < WordCount(need) * 32 then WordCount(need) * 32 else |store|) && need <= |store'|
    && forall i :: 0 <= i < |store'| ==> store'[i] == ByteAt(store, i)
  }

  lemma PaidMemory(env: Env, w: World, f: Frame, readOnly: bool)
    requires Pays(env, w, f, readOnly)
    ensures var op := OpAt(f.code, f.pc);
            var c := PaidFrame(env, w, f, readOnly);
            && |f.stack| >= MemoryArgs(op) && MemoryNeeded(op, f.stack).Some?
            && c == f.(gas := c.gas, lastGasCost := c.lastGasCost, store := c.store) && c.gas <= f.gas
            && Grown(f.store, c.store, MemoryNeeded(op, f.stack).value)
  {
    hide Lookup, DynamicPrice, MemoryNeeded, MemoryArgs, PriceArgs;
  }

  /** What an opcode does to the stack; contract, return stack and return data stay. */
  ghost predicate Effect(f: Frame, f': Frame, pops: nat, pushed: seq<Word>)
  {
    && pops <= |f.stack| && f'.stack == f.stack[..|f.stack| - pops] + pushed
    && SameContract(f, f') && f'.returns_ == f.returns_ && f'.returnData == f.returnData && f'.gas <= f.gas
  }

  /** A step that goes on to the next instruction, with nothing but the stack and the size of the memory changed. */
  ghost predicate Simply(w: World, f: Frame, r: StepResult, pops: nat, pushed: seq<Word>)
  {
    && r.Next? && r.w == w && Effect(f, r.f, pops, pushed) && r.f.pc == f.pc + 1
    && f.store <= r.f.store && forall i :: |f.store| <= i < |r.f.store| ==> r.f.store[i] == 0
  }

  /** A step of an opcode that stays inside the frame. */
  lemma LocalStep(env: Env, w: World, f: Frame, depth: nat, readOnly: bool)
    requires Pays(env, w, f, readOnly) && !IsSystem(OpAt(f.code, f.pc))
    ensures var op := OpAt(f.code, f.pc);
            var o := Lookup(TableOf(env.rules), op).value;
            var c := PaidFrame(env, w, f, readOnly);
            && |c.stack| >= o.pops && Covered(c, op)
            && Step(env, w, f, depth, readOnly) ==
                 match LocalOp(env, w, c, op, o) case Bad(e) => Stop(Failed(e)) case Ok(f') => Next(w, f')
  {
    hide Charge, Lookup, LocalOp, Covered;
  }

  /** The entry of the next opcode. */
  function Entry(env: Env, f: Frame): Operation
    requires Lookup(TableOf(env.rules), OpAt(f.code, f.pc)).Some?
  {
    Lookup(TableOf(env.rules), OpAt(f.code, f.pc)).value
  }

  /** A frame with some items taken from the stack and others put there, at the next instruction. */
  function Onward(c: Frame, pops: nat, pushed: seq<Word>): Frame
    requires pops <= |c.stack|
  {
    c.(stack := c.stack[..|c.stack| - pops] + pushed, pc := c.pc + 1)
  }

  /** From what an opcode does to the frame that has paid, to the step. */
  lemma StepSimply(env: Env, w: World, f: Frame, depth: nat, readOnly: bool, pops: nat, pushed: seq<Word>)
    requires Pays(env, w, f, readOnly) && !IsSystem(OpAt(f.code, f.pc))
    requires var c := PaidFrame(env, w, f, readOnly);
             && |c.stack| >= Entry(env, f).pops && Covered(c, OpAt(f.code, f.pc)) && pops <= |c.stack|
             && LocalOp(env, w, c, OpAt(f.code, f.pc), Entry(env, f)) == Ok(Onward(c, pops, pushed))
    ensures Simply(w, f, Step(env, w, f, depth, readOnly), pops, pushed)
    ensures Step(env, w, f, depth, readOnly).f.gas == PaidFrame(env, w, f, readOnly).gas
    ensures Step(env, w, f, depth, readOnly).f.store == PaidFrame(env, w, f, readOnly).store
  {
    hide Step, LocalOp, Lookup, Charge, MemoryNeeded, Covered;
    LocalStep(env, w, f, depth, readOnly);
    PaidMemory(env, w, f, readOnly);
  }

  /** The frame that has paid may run its opcode. */
  lemma PaidRuns(env: Env, w: World, f: Frame, readOnly: bool)
    requires Pays(env, w, f, readOnly)
    ensures var c := PaidFrame(env, w, f, readOnly);
            && |c.stack| >= Entry(env, f).pops && Covered(c, OpAt(f.code, f.pc))
            && c == f.(gas := c.gas, lastGasCost := c.lastGasCost, store := c.store)
            && (MemoryArgs(OpAt(f.code, f.pc)) == 0 ==> c.store == f.store)
  {
    hide Lookup, Charge, MemoryNeeded, Covered, MemoryArgs;
    ChargeCovers(env, w, f, readOnly);
    PaidMemory(env, w, f, readOnly);
    if MemoryArgs(OpAt(f.code, f.pc)) == 0 {
      NoRange(OpAt(f.code, f.pc), f.stack);
      assert PaidFrame(env, w, f, readOnly).store == f.store;
    }
  }

  lemma ChargeCovers(env: Env, w: World, f: Frame, readOnly: bool)
    requires Pays(env, w, f, readOnly)
    ensures |f.stack| >= Entry(env, f).pops && Covered(PaidFrame(env, w, f, readOnly), OpAt(f.code, f.pc))
  {
    hide Lookup, Charge, Covered;
  }

  // ----- constants of the frame and of the block -----

  /** What an opcode that pushes a property of the frame, the account or the block pushes; `gas` is what is left after it. */
  ghost predicate Property(env: Env, w: World, f: Frame, op: Byte, gas: nat, x: Word)
  {
    && (op == ADDRESS ==> x == f.self) && (op == CALLER ==> x == f.caller) && (op == CALLVALUE ==> x == f.value)
    && (op == CALLDATASIZE && |f.input| < TWO_256 ==> x == |f.input|)
    && (op == CODESIZE && |f.code| < TWO_256 ==> x == |f.code|)
    && (op == RETURNDATASIZE && |f.returnData| < TWO_256 ==> x == |f.returnData|)
    && (op == SELFBALANCE ==> x == AccountOf(env, w, f.self).balance)
    && (op == PC && f.pc < TWO_256 ==> x == f.pc)
    && (op == MSIZE && |f.store| < TWO_256 ==> x == |f.store|)
    && (op == GAS && gas < TWO_256 ==> x == gas)
    && (op == ORIGIN || op == GASPRICE || COINBASE <= op <= CHAINID ==> x == env.blockInfo(op))
  }

  lemma EnvLocal(env: Env, w: World, c: Frame, op: Byte, o: Operation)
    requires Lookup(TableOf(env.rules), op) == Some(o) && IsEnvPush(op) && |c.stack| >= o.pops && Covered(c, op)
    ensures LocalOp(env, w, c, op, o) == Ok(Onward(c, 0, [EnvValue(env, w, c, op)]))
    ensures Property(env, w, c, op, c.gas, EnvValue(env, w, c, op))
  {
    hide Lookup, Covered;
    assert c.stack[..|c.stack|] == c.stack;
  }

  /** Opcodes that push a property of the frame, the account or the block. */
  lemma EnvironmentPushes(env: Env, w: World, f: Frame, depth: nat, readOnly: bool) returns (x: Word)
    requires Pays(env, w, f, readOnly) && IsEnvPush(OpAt(f.code, f.pc))
    ensures var r := Step(env, w, f, depth, readOnly);
            Simply(w, f, r, 0, [x]) && Property(env, w, f, OpAt(f.code, f.pc), r.f.gas, x)
  {
    hide Step, LocalOp, Lookup, Charge, Covered, EnvValue;
    var c := PaidFrame(env, w, f, readOnly);
    PaidRuns(env, w, f, readOnly);
    EnvLocal(env, w, c, OpAt(f.code, f.pc), Entry(env, f));
    x := EnvValue(env, w, c, OpAt(f.code, f.pc));
    StepSimply(env, w, f, depth, readOnly, 0, [x]);
  }

  /** The top items of a stack, topmost first. */
  ghost predicate TopItems(args: seq<Word>, stack: seq<Word>, n: nat)
  {
    |args| == n <= |stack| && forall i :: 0 <= i < n ==> args[i] == stack[|stack| - 1 - i]
  }

  function AluArity(op: Byte): nat { if op == 0x15 || op == 0x19 then 1 else if op == 0x08 || op == 0x09 then 3 else 2 }

  lemma AluLocal(env: Env, w: World, c: Frame, op: Byte, o: Operation) returns (args: seq<Word>)
    requires Lookup(TableOf(env.rules), op) == Some(o) && IsAlu(op) && |c.stack| >= o.pops && Covered(c, op)
    ensures TopItems(args, c.stack, AluArity(op))
    ensures LocalOp(env, w, c, op, o) == Ok(Onward(c, AluArity(op), [env.alu(op, args)]))
  {
    hide Covered;
    args := Top(c.stack, AluArity(op));
  }

  /** Arithmetic, comparison and bitwise opcodes hand over their operands from the top down. */
  lemma AluComputes(env: Env, w: World, f: Frame, depth: nat, readOnly: bool) returns (args: seq<Word>)
    requires Pays(env, w, f, readOnly) && IsAlu(OpAt(f.code, f.pc))
    ensures var n := AluArity(OpAt(f.code, f.pc));
            TopItems(args, f.stack, n) && Simply(w, f, Step(env, w, f, depth, readOnly), n, [env.alu(OpAt(f.code, f.pc), args)])
  {
    hide Step, LocalOp, Lookup, Charge, Covered;
    PaidRuns(env, w, f, readOnly);
    args := AluLocal(env, w, PaidFrame(env, w, f, readOnly), OpAt(f.code, f.pc), Entry(env, f));
    StepSimply(env, w, f, depth, readOnly, AluArity(OpAt(f.code, f.pc)), [env.alu(OpAt(f.code, f.pc), args)]);
  }

  // ----- the stack -----

  /** Bytes of data from a position on, zero beyond its end. */
  ghost predicate Window(b: Bytes, data: Bytes, from: nat, n: nat)
  {
    |b| == n && forall i :: 0 <= i < n ==> b[i] == ByteAt(data, from + i)
  }

  lemma {:induction false} WordNumber(b: Bytes)
    requires |b| <= 32
    ensures WordOfBytes(b) == FromBytes(b)
  {
    if b != [] {
      WordNumber(b[..|b| - 1]);
      WordBound(b);
    }
  }

  lemma DataWindow(data: Bytes, from: nat, n: nat)
    ensures Window(GetData(data, from, n), data, from, n)
  {
  }

  lemma PushLocal(env: Env, w: World, c: Frame, op: Byte, o: Operation)
    requires Lookup(TableOf(env.rules), op) == Some(o) && IsPush(op) && |c.stack| >= o.pops && Covered(c, op)
    ensures LocalOp(env, w, c, op, o) ==
            Ok(c.(stack := c.stack + [WordOfBytes(GetData(c.code, c.pc + 1, op - 0x5f))], pc := c.pc + 1 + (op - 0x5f)))
  {
    hide Covered;
  }

  /** PUSHn pushes the number that the n bytes behind it make, and continues behind them. */
  lemma PushPushes(env: Env, w: World, f: Frame, depth: nat, readOnly: bool) returns (b: Bytes)
    requires Pays(env, w, f, readOnly) && IsPush(OpAt(f.code, f.pc))
    ensures var n := OpAt(f.code, f.pc) - 0x5f;
            var r := Step(env, w, f, depth, readOnly);
            && Window(b, f.code, f.pc + 1, n) && FromBytes(b) < TWO_256
            && r.Next? && r.w == w && r.f.pc == f.pc + 1 + n && r.f.store == f.store && Effect(f, r.f, 0, [FromBytes(b)])
  {
    hide Step, LocalOp, Lookup, Charge, Covered, FromBytes, Window;
    var op := OpAt(f.code, f.pc);
    PaidRuns(env, w, f, readOnly);
    PaidMemory(env, w, f, readOnly);
    LocalStep(env, w, f, depth, readOnly);
    PushLocal(env, w, PaidFrame(env, w, f, readOnly), op, Entry(env, f));
    b := GetData(f.code, f.pc + 1, op - 0x5f);
    DataWindow(f.code, f.pc + 1, op - 0x5f);
    WordNumber(b);
    WordBound(b);
    assert f.stack[..|f.stack|] == f.stack;
  }

  /** What DUPn, SWAPn, POP and JUMPDEST take from the stack and put there. */
  function Rearranged(op: Byte, s: seq<Word>): (seq<Word>)
    requires IsDup(op) ==> op - 0x7f <= |s|
    requires IsSwap(op) ==> op - 0x8f < |s|
  {
    if IsDup(op) then [s[|s| - (op - 0x7f)]]
    else if IsSwap(op) then [s[|s| - 1]] + s[|s| - (op - 0x8f)..|s| - 1] + [s[|s| - 1 - (op - 0x8f)]]
    else []
  }

  predicate IsStackOp(op: Byte) { IsDup(op) || IsSwap(op) || op == POP || op == JUMPDEST }

  function Taken(op: Byte): nat { if IsSwap(op) then op - 0x8f + 1 else if op == POP then 1 else 0 }

  lemma StackLocal(env: Env, w: World, c: Frame, op: Byte, o: Operation)
    requires Lookup(TableOf(env.rules), op) == Some(o) && IsStackOp(op) && |c.stack| >= o.pops && Covered(c, op)
    ensures Taken(op) <= |c.stack| && (IsDup(op) ==> op - 0x7f <= |c.stack|)
    ensures LocalOp(env, w, c, op, o) == Ok(Onward(c, Taken(op), Rearranged(op, c.stack)))
  {
    hide Covered;
    var s := c.stack;
    if IsSwap(op) {
      SwapParts(s, op - 0x8f);
    } else if !IsDup(op) {
      assert s[..|s|] == s;
    }
  }

  lemma SwapParts(s: seq<Word>, n: nat)
    requires 0 < n < |s|
    ensures var (top, at) := (|s| - 1, |s| - 1 - n);
            s[at := s[top]][top := s[at]] == s[..at] + ([s[top]] + s[at + 1..top] + [s[at]])
  {
  }

  /** DUPn copies the n-th item from the top; SWAPn exchanges the top with the item n below it; POP drops the top. */
  lemma StackOps(env: Env, w: World, f: Frame, depth: nat, readOnly: bool)
    requires Pays(env, w, f, readOnly) && IsStackOp(OpAt(f.code, f.pc))
    ensures var op := OpAt(f.code, f.pc);
            && Taken(op) <= |f.stack| && (IsDup(op) ==> op - 0x7f <= |f.stack|)
            && Simply(w, f, Step(env, w, f, depth, readOnly), Taken(op), Rearranged(op, f.stack))
  {
    hide Step, LocalOp, Lookup, Charge, Covered;
    PaidRuns(env, w, f, readOnly);
    StackLocal(env, w, PaidFrame(env, w, f, readOnly), OpAt(f.code, f.pc), Entry(env, f));
    StepSimply(env, w, f, depth, readOnly, Taken(OpAt(f.code, f.pc)), Rearranged(OpAt(f.code, f.pc), f.stack));
  }

  // ----- jumps -----

  /** A position that may be jumped to: an instruction, not a data byte, of the wanted kind. */
  predicate Target(code: Bytes, dest: Word, marker: Byte) { dest < |code| && code[dest] == marker && IsBoundary(code, dest) }

  predicate IsJump(op: Byte) { op == JUMP || op == JUMPI || op == BEGINSUB || op == JUMPSUB || op == RETURNSUB }

  /** The frame after a jump, or why there is none; a conditional jump that is not taken falls through. */
  function Jumped(c: Frame, op: Byte): Local
    requires IsJump(op) && |c.stack| >= (if op == JUMPI then 2 else if op == JUMP || op == JUMPSUB then 1 else 0)
  {
    var n := |c.stack|;
    if op == BEGINSUB then Bad(InvalidSubroutineEntry)
    else if op == RETURNSUB then
      if c.returns_ == [] then Bad(InvalidRetsub)
      else
        var top := |c.returns_| - 1;
        Ok(c.(pc := c.returns_[top] + 1, returns_ := c.returns_[..top]))
    else if op == JUMPSUB && |c.returns_| >= 1023 then Bad(ReturnStackExceeded)
    else if op == JUMPI && c.stack[n - 2] == 0 then Ok(c.(pc := c.pc + 1, stack := c.stack[..n - 2]))
    else if !Target(c.code, c.stack[n - 1], if op == JUMPSUB then BEGINSUB else JUMPDEST) then Bad(InvalidJump)
    else if op == JUMPSUB then
      Ok(c.(pc := 1 + c.stack[n - 1] as int, stack := c.stack[..n - 1], returns_ := c.returns_ + [c.pc % 0x1_0000_0000]))
    else Ok(c.(pc := c.stack[n - 1], stack := c.stack[..n - if op == JUMPI then 2 else 1]))
  }

  lemma JumpLocal(env: Env, w: World, c: Frame, op: Byte, o: Operation)
    requires Lookup(TableOf(env.rules), op) == Some(o) && IsJump(op) && |c.stack| >= o.pops && Covered(c, op)
    ensures |c.stack| >= (if op == JUMPI then 2 else if op == JUMP || op == JUMPSUB then 1 else 0)
    ensures LocalOp(env, w, c, op, o) == Jumped(c, op)
  {
    hide Covered, IsBoundary;
  }

  /** JUMP, JUMPI and the subroutine opcodes go where their targets are valid, and fail otherwise. */
  lemma JumpsGo(env: Env, w: World, f: Frame, depth: nat, readOnly: bool)
    requires Pays(env, w, f, readOnly) && IsJump(OpAt(f.code, f.pc))
    ensures var op := OpAt(f.code, f.pc);
            && |f.stack| >= (if op == JUMPI then 2 else if op == JUMP || op == JUMPSUB then 1 else 0)
            && match Jumped(f, op)
               case Bad(e) => Step(env, w, f, depth, readOnly) == Stop(Failed(e))
               case Ok(f') =>
                 var r := Step(env, w, f, depth, readOnly);
                 r.Next? && r.w == w && r.f == f'.(gas := r.f.gas, lastGasCost := r.f.lastGasCost)
  {
    hide Step, LocalOp, Lookup, Charge, Covered, Target;
    PaidRuns(env, w, f, readOnly);
    LocalStep(env, w, f, depth, readOnly);
    JumpLocal(env, w, PaidFrame(env, w, f, readOnly), OpAt(f.code, f.pc), Entry(env, f));
  }
}
