/** Safety of every frame at every iteration: stack, memory, program counter and gas. */
module EvmFrames {
  import opened Basics
  import opened EvmTypes
  import opened EvmTable
  import opened EvmWorld
  import opened EvmCode
  import opened EvmGas
  import opened EvmSemantics

  /** Return addresses are kept in 32 bits, so codes with subroutines must be that short. */
  predicate Addressable(env: Env, code: Bytes) { env.rules.yoloV2 ==> |code| <= TWO_32 }

  /** A position the return stack may hold: a JUMPSUB instruction. */
  predicate ReturnPoint(code: Bytes, r: nat)
  {
    r < |code| && IsBoundary(code, r) && code[r] == JUMPSUB
  }

  predicate PcSafe(env: Env, f: Frame)
  {
    Addressable(env, f.code) ==>
      && FetchSafe(f.code, f.pc)
      && (forall i | 0 <= i < |f.returns_| :: ReturnPoint(f.code, f.returns_[i]))
  }

  predicate MemorySafe(f: Frame)
  {
    && |f.store| % 32 == 0 && |f.store| <= MEMORY_LIMIT
    && f.lastGasCost == MemoryFee(|f.store| / 32)
  }

  predicate FrameSafe(env: Env, f: Frame)
  {
    && |f.stack| <= STACK_LIMIT && |f.returns_| <= RETURN_STACK_LIMIT
    && MemorySafe(f) && PcSafe(env, f) && f.gas < TWO_64
  }

  /** The part of a frame that never changes. */
  predicate SameContract(f: Frame, f': Frame)
  {
    f'.self == f.self && f'.caller == f.caller && f'.value == f.value && f'.code == f.code && f'.input == f.input
  }

  /** The memory has the size it had, and the fee recorded for it. */
  predicate SameMemory(f: Frame, f': Frame) { |f'.store| == |f.store| && f'.lastGasCost == f.lastGasCost }

  // ----- memory -----

  lemma SquareMono(v: nat, w: nat)
    ensures v <= w ==> v * v <= w * w
  {
    if v <= w {
      assert v * v <= v * w;
      assert v * w <= w * w;
    }
  }

  /** Within the limit no 64-bit intermediate of the fee overflows, and fees grow with the size. */
  lemma MemoryFeeBounds(v: nat, w: nat)
    requires v <= w && w * 32 <= MEMORY_LIMIT
    ensures w * w < TWO_64 && 3 * w < TWO_64 && MemoryFee(w) < TWO_64
    ensures MemoryFee(v) <= MemoryFee(w)
  {
    SquareMono(w, 0xFFFF_FFFF);
    SquareMono(v, w);
    assert v * v / 512 <= w * w / 512;
  }

  lemma Wordwise(size: nat)
    ensures WordCount(WordCount(size) * 32) == WordCount(size) && WordCount(size) * 32 / 32 == WordCount(size)
  {
  }

  /** A growth fee is exactly the difference of the totals, so the fees of a run telescope. */
  lemma GrowthExact(f: Frame, size: nat)
    requires MemorySafe(f)
    ensures match MemoryGas(f, WordCount(size) * 32)
            case None => WordCount(size) * 32 > MEMORY_LIMIT
            case Some(g) =>
              var f' := f.(store := Resize(f.store, WordCount(size) * 32), lastGasCost := g.total);
              && MemorySafe(f')
              && g.fee == MemoryFee(|f'.store| / 32) - MemoryFee(|f.store| / 32)
  {
    hide MemoryFee;
    var n := WordCount(size);
    Wordwise(size);
    if 0 < n * 32 <= MEMORY_LIMIT && n * 32 > |f.store| {
      MemoryFeeBounds(|f.store| / 32, n);
      var d := MemoryFee(n) - MemoryFee(|f.store| / 32);
      assert d % TWO_64 == d;
    }
  }

  lemma PriceTotal(env: Env, w: World, f: Frame, op: Byte, size: nat)
    requires |f.stack| >= PriceArgs(op)
    ensures var p := DynamicPrice(env, w, f, op, size);
            p.Price? ==> if MemoryArgs(op) == 0 then p.total == f.lastGasCost
                         else
                           var g := MemoryGas(f, size);
                           g.Some? && p.total == g.value.total && p.cost >= g.value.fee
  {
  }

  /** Opcodes that take no memory range need no memory. */
  lemma NoRange(op: Byte, s: seq<Word>)
    requires MemoryArgs(op) == 0
    ensures MemoryNeeded(op, s) == Some(0)
  {
  }

  /** Charging leaves the memory grown to what the opcode needs and paid for. */
  lemma ChargeSafe(env: Env, w: World, f: Frame, op: Byte, o: Operation, readOnly: bool)
    requires FrameSafe(env, f) && Lookup(TableOf(env.rules), op) == Some(o)
    ensures var c := Charge(env, w, f, op, o, readOnly); c.Paid? ==> FrameSafe(env, c.f)
  {
    hide MemoryFee, DynamicPrice, Lookup;
    var c := Charge(env, w, f, op, o, readOnly);
    if c.Paid? {
      var n := MemoryNeeded(op, f.stack).value;
      var f1 := f.(gas := f.gas - o.constantGas);
      PriceTotal(env, w, f1, op, WordCount(n) * 32);
      GrowthExact(f1, n);
    }
  }

  // ----- ranges of a memory that was grown -----

  /** The memory holds the range an opcode that stays inside the frame reads or writes. */
  lemma OperandRange(f: Frame, op: Byte)
    requires Covered(f, op) && (op == SHA3 || IsCopy(op) || op == MSTORE || op == MSTORE8)
    requires op == MSTORE || op == MSTORE8 ==> |f.stack| >= 2
    ensures |f.stack| >= MemoryArgs(op)
    ensures op == MSTORE ==> Back(f.stack, 0) + 32 <= |f.store|
    ensures op == MSTORE8 ==> Back(f.stack, 0) + 1 <= |f.store|
    ensures op == SHA3 && Back(f.stack, 1) > 0 ==> Back(f.stack, 0) + Back(f.stack, 1) <= |f.store|
    ensures op == EXTCODECOPY && Back(f.stack, 3) > 0 ==> Back(f.stack, 1) + Back(f.stack, 3) <= |f.store|
    ensures IsCopy(op) && op != EXTCODECOPY && Back(f.stack, 2) > 0 ==> Back(f.stack, 0) + Back(f.stack, 2) <= |f.store|
  {
  }

  /** The memory holds both the input and the output range of a call opcode. */
  lemma CallRanges(f: Frame, op: Byte)
    requires IsCall(op) && Covered(f, op)
    ensures var k := if op == CALL || op == CALLCODE then 1 else 0;
            && |f.stack| >= 6 + k
            && (Back(f.stack, 3 + k) > 0 ==> Back(f.stack, 2 + k) + Back(f.stack, 3 + k) <= |f.store|)
            && (Back(f.stack, 5 + k) > 0 ==> Back(f.stack, 4 + k) + Back(f.stack, 5 + k) <= |f.store|)
  {
  }

  /** It holds the initialisation code of a create opcode. */
  lemma CreateRange(f: Frame, op: Byte)
    requires IsCreate(op) && Covered(f, op)
    ensures |f.stack| >= 3
    ensures Back(f.stack, 2) > 0 ==> Back(f.stack, 1) + Back(f.stack, 2) <= |f.store|
  {
  }

  // ----- program counter -----

  /** The next instruction is a boundary. */
  lemma FallSafe(env: Env, f: Frame)
    requires PcSafe(env, f) && f.pc < |f.code|
    ensures PcSafe(env, f.(pc := NextPc(f.code, f.pc)))
  {
    if Addressable(env, f.code) { NextIsBoundary(f.code, f.pc); }
  }

  /** Jumps land on boundaries, also through the return stack. */
  lemma FlowPcSafe(env: Env, f: Frame, op: Byte, o: Operation)
    requires PcSafe(env, f) && f.pc < |f.code| && op == f.code[f.pc]
    requires FlowEntry(TableOf(env.rules), op) == Some(o) && |f.stack| >= o.pops
    ensures var r := FlowOp(f, op, o); r.Ok? ==> PcSafe(env, r.f)
  {
    FallSafe(env, f);
    if Addressable(env, f.code) {
      if op == JUMPSUB && ValidJump(f.code, Back(f.stack, 0), BEGINSUB) {
        NextIsBoundary(f.code, Back(f.stack, 0));
        assert f.pc % TWO_32 == f.pc;
      } else if op == RETURNSUB && f.returns_ != [] {
        NextIsBoundary(f.code, f.returns_[|f.returns_| - 1]);
      }
    }
  }

  predicate Room(f: Frame, o: Operation)
  {
    |f.stack| >= o.pops && |f.stack| + o.pushes <= STACK_LIMIT + o.pops
  }

  lemma FlowSafe(env: Env, f: Frame, op: Byte, o: Operation)
    requires FrameSafe(env, f) && f.pc < |f.code| && op == f.code[f.pc]
    requires FlowEntry(TableOf(env.rules), op) == Some(o) && Room(f, o)
    ensures var r := FlowOp(f, op, o); r.Ok? ==> FrameSafe(env, r.f) && SameContract(f, r.f) && SameMemory(f, r.f)
  {
    FlowPcSafe(env, f, op, o);
    hide PcSafe, MemoryFee;
  }

  /** Falling through with a new stack and a memory of the same size. */
  lemma FallThrough(env: Env, f: Frame, f': Frame)
    requires FrameSafe(env, f) && f.pc < |f.code| && PushSize(f.code[f.pc]) == 0
    requires f' == f.(stack := f'.stack, store := f'.store, pc := f.pc + 1, gas := f'.gas, returnData := f'.returnData)
    requires |f'.stack| <= STACK_LIMIT && |f'.store| == |f.store| && f'.gas < TWO_64
    ensures FrameSafe(env, f') && SameContract(f, f') && SameMemory(f, f')
  {
    hide MemoryFee;
    FallSafe(env, f);
  }

  lemma MemoryOpSafe(env: Env, w: World, f: Frame, op: Byte, o: Operation)
    requires FrameSafe(env, f) && f.pc < |f.code| && op == f.code[f.pc]
    requires MemoryEntry(TableOf(env.rules), op) == Some(o) && Covered(f, op) && Room(f, o)
    ensures var r := MemoryOp(env, w, f, op); r.Ok? ==> FrameSafe(env, r.f) && SameContract(f, r.f) && SameMemory(f, r.f)
  {
    hide FrameSafe, SameContract, SameMemory, CopySource;
    var r := MemoryOp(env, w, f, op);
    assert |f.stack| <= STACK_LIMIT && f.gas < TWO_64 by { FrameBounds(env, f); }
    if r.Ok? { FallThrough(env, f, r.f); }
  }

  lemma FrameBounds(env: Env, f: Frame)
    requires FrameSafe(env, f)
    ensures |f.stack| <= STACK_LIMIT && f.gas < TWO_64
  {
  }

  lemma LocalSafe(env: Env, w: World, f: Frame, op: Byte, o: Operation)
    requires FrameSafe(env, f) && f.pc < |f.code| && op == f.code[f.pc] && !IsSystem(op)
    requires Lookup(TableOf(env.rules), op) == Some(o) && Covered(f, op) && Room(f, o)
    ensures var r := LocalOp(env, w, f, op, o); r.Ok? ==> FrameSafe(env, r.f) && SameContract(f, r.f) && SameMemory(f, r.f)
  {
    hide FrameSafe, SameContract, SameMemory, MemoryOp, FlowOp, EnvValue, QueryValue;
    FrameBounds(env, f);
    if IsAlu(op) || IsEnvPush(op) || IsQuery(op) {
      FallThrough(env, f, LocalOp(env, w, f, op, o).f);
    } else if op == SHA3 || IsCopy(op) || op == MSTORE || op == MSTORE8 {
      MemoryOpSafe(env, w, f, op, o);
    } else {
      FlowSafe(env, f, op, o);
    }
  }

  // ----- every iteration -----

  lemma SystemSafe(env: Env, w: World, f: Frame, op: Byte, o: Operation, callGas: nat, depth: nat, readOnly: bool)
    requires FrameSafe(env, f) && f.pc < |f.code| && op == f.code[f.pc] && IsSystem(op) && !IsHalt(op)
    requires Lookup(TableOf(env.rules), op) == Some(o) && Covered(f, op) && Room(f, o)
    requires f.gas + callGas < TWO_64
    ensures IsCall(op) ==> var r := CallOp(env, w, f, op, callGas, depth, readOnly);
              r.Next? ==> FrameSafe(env, r.f) && SameContract(f, r.f) && SameMemory(f, r.f)
    ensures IsCreate(op) ==> var r := CreateOp(env, w, f, op, callGas, depth, readOnly);
              r.Next? ==> FrameSafe(env, r.f) && SameContract(f, r.f) && SameMemory(f, r.f)
    ensures op == SSTORE || IsLog(op) ==> var r := StoreOp(w, f, op); FrameSafe(env, r.f) && SameContract(f, r.f) && SameMemory(f, r.f)
  {
    hide FrameSafe, SameContract, SameMemory, CallMessage, CreateContract, MessageOf;
    FrameBounds(env, f);
    if IsCall(op) {
      var r := CallOp(env, w, f, op, callGas, depth, readOnly);
      if r.Next? { FallThrough(env, f, r.f); }
    } else if IsCreate(op) {
      var r := CreateOp(env, w, f, op, callGas, depth, readOnly);
      if r.Next? { FallThrough(env, f, r.f); }
    } else {
      FallThrough(env, f, StoreOp(w, f, op).f);
    }
  }

  lemma ExecuteSafe(
    env: Env, w: World, f: Frame, op: Byte, o: Operation, callGas: nat, depth: nat, readOnly: bool, bound: nat)
    requires FrameSafe(env, f) && op == OpAt(f.code, f.pc) && Lookup(TableOf(env.rules), op) == Some(o)
    requires Covered(f, op) && Room(f, o) && bound < TWO_64
    requires if IsHalt(op) then f.gas <= bound else f.gas < bound
    requires IsCall(op) ==> f.gas + CalleeGas(op, f.stack, callGas) < bound
    ensures var r := Execute(env, w, f, op, o, callGas, depth, readOnly, bound);
            r.Next? ==> FrameSafe(env, r.f) && SameContract(f, r.f) && SameMemory(f, r.f)
  {
    hide FrameSafe, CallOp, CreateOp, StoreOp, LocalOp, Lookup;
    if IsHalt(op) {
    } else if !IsSystem(op) {
      LocalSafe(env, w, f, op, o);
    } else if IsCreate(op) {
      var child := InitGas(env, op, f.gas);
      GasSafe(env, f, f.gas - child);
      SystemSafe(env, w, f.(gas := f.gas - child), op, o, child, depth, readOnly);
    } else if IsCall(op) {
      SystemSafe(env, w, f, op, o, CalleeGas(op, f.stack, callGas), depth, readOnly);
    } else {
      SystemSafe(env, w, f, op, o, 0, depth, readOnly);
    }
  }

  lemma StepSafe(env: Env, w: World, f: Frame, depth: nat, readOnly: bool)
    requires FrameSafe(env, f)
    ensures var r := Step(env, w, f, depth, readOnly); r.Next? ==> FrameSafe(env, r.f) && SameContract(f, r.f)
  {
    hide FrameSafe, Execute, Lookup, Charge;
    var op := OpAt(f.code, f.pc);
    var entry := Lookup(TableOf(env.rules), op);
    if entry.Some? {
      var o := entry.value;
      ChargeSafe(env, w, f, op, o, readOnly);
      FrameBounds(env, f);
      var c := Charge(env, w, f, op, o, readOnly);
      if c.Paid? { ExecuteSafe(env, c.w, c.f, op, o, c.callGas, depth, readOnly, f.gas); }
    }
  }

  lemma GasSafe(env: Env, f: Frame, g: nat)
    requires FrameSafe(env, f) && g < TWO_64
    ensures FrameSafe(env, f.(gas := g))
  {
    hide MemoryFee;
  }

  /** The state after n iterations of the loop. */
  function Iterate(env: Env, w: World, f: Frame, depth: nat, readOnly: bool, n: nat): StepResult
  {
    if n == 0 then Next(w, f)
    else
      match Iterate(env, w, f, depth, readOnly, n - 1)
      case Stop(r) => Stop(r)
      case Next(w1, f1) => Step(env, w1, f1, depth, readOnly)
  }

  /**
   * In every run, at every iteration: the stack is within its limit, the memory is paid for,
   * the program counter is on an instruction or past the code, and gas pays for the iterations.
   */
  lemma {:induction false} EveryIterationSafe(env: Env, w: World, f: Frame, depth: nat, readOnly: bool, n: nat)
    requires FrameSafe(env, f)
    ensures var r := Iterate(env, w, f, depth, readOnly, n);
            r.Next? ==> FrameSafe(env, r.f) && SameContract(f, r.f) && r.f.gas + n <= f.gas
  {
    hide Step, FrameSafe;
    if n > 0 {
      EveryIterationSafe(env, w, f, depth, readOnly, n - 1);
      var r := Iterate(env, w, f, depth, readOnly, n - 1);
      if r.Next? { StepSafe(env, r.w, r.f, depth, readOnly); }
    }
  }

  /** The memory fee an iteration charges. */
  function StepFee(env: Env, w: World, f: Frame, readOnly: bool): nat
  {
    var op := OpAt(f.code, f.pc);
    var entry := Lookup(TableOf(env.rules), op);
    if entry.None? || Charge(env, w, f, op, entry.value, readOnly).Fault? then 0
    else
      var growth := MemoryGas(f, WordCount(MemoryNeeded(op, f.stack).value) * 32);
      if growth.None? then 0 else growth.value.fee
  }

  /** The fee an opcode pays for memory is part of its price, and brings the recorded total up to the new size. */
  lemma ChargeFee(env: Env, w: World, f: Frame, op: Byte, o: Operation, readOnly: bool)
    requires FrameSafe(env, f) && op == OpAt(f.code, f.pc) && Lookup(TableOf(env.rules), op) == Some(o)
    ensures var c := Charge(env, w, f, op, o, readOnly);
            c.Paid? ==>
              && c.f.gas + StepFee(env, w, f, readOnly) <= f.gas
              && MemoryFee(|c.f.store| / 32) == MemoryFee(|f.store| / 32) + StepFee(env, w, f, readOnly)
  {
    hide MemoryFee, Lookup, DynamicPrice, MemoryNeeded, MemoryArgs, PriceArgs, PcSafe;
    var c := Charge(env, w, f, op, o, readOnly);
    if c.Paid? {
      if MemoryArgs(op) == 0 { NoRange(op, f.stack); }
      var n := MemoryNeeded(op, f.stack).value;
      var f1 := f.(gas := f.gas - o.constantGas);
      PriceTotal(env, w, f1, op, WordCount(n) * 32);
      GrowthExact(f1, n);
    }
  }

  /** The memory fees of the first n iterations together. */
  function FeesPaid(env: Env, w: World, f: Frame, depth: nat, readOnly: bool, n: nat): nat
  {
    if n == 0 then 0
    else
      FeesPaid(env, w, f, depth, readOnly, n - 1) +
      match Iterate(env, w, f, depth, readOnly, n - 1)
      case Stop(_) => 0
      case Next(w1, f1) => StepFee(env, w1, f1, readOnly)
  }

  lemma StepFeeExact(env: Env, w: World, f: Frame, depth: nat, readOnly: bool)
    requires FrameSafe(env, f)
    ensures var r := Step(env, w, f, depth, readOnly);
            r.Next? ==> MemoryFee(|r.f.store| / 32) == MemoryFee(|f.store| / 32) + StepFee(env, w, f, readOnly)
  {
    hide FrameSafe, Execute, Lookup, Charge, MemoryFee, StepFee;
    var op := OpAt(f.code, f.pc);
    var entry := Lookup(TableOf(env.rules), op);
    if entry.Some? {
      var o := entry.value;
      ChargeSafe(env, w, f, op, o, readOnly);
      ChargeFee(env, w, f, op, o, readOnly);
      FrameBounds(env, f);
      var c := Charge(env, w, f, op, o, readOnly);
      if c.Paid? { ExecuteSafe(env, c.w, c.f, op, o, c.callGas, depth, readOnly, f.gas); }
    }
  }

  /** The fees of a run telescope: together they are the fee of the final size less that of the first. */
  lemma {:induction false} FeesTelescope(env: Env, w: World, f: Frame, depth: nat, readOnly: bool, n: nat)
    requires FrameSafe(env, f)
    ensures var r := Iterate(env, w, f, depth, readOnly, n);
            r.Next? ==>
              MemoryFee(|r.f.store| / 32) == MemoryFee(|f.store| / 32) + FeesPaid(env, w, f, depth, readOnly, n)
  {
    hide Step, FrameSafe, MemoryFee, StepFee;
    if n > 0 {
      FeesTelescope(env, w, f, depth, readOnly, n - 1);
      EveryIterationSafe(env, w, f, depth, readOnly, n - 1);
      var r := Iterate(env, w, f, depth, readOnly, n - 1);
      if r.Next? { StepFeeExact(env, r.w, r.f, depth, readOnly); }
    }
  }

  /** Every frame a call or a creation starts is safe. */
  lemma NewFrameSafe(env: Env, m: Message, creator: Address, addr: Address, value: Word, code: Bytes, gas: nat)
    requires gas < TWO_64
    ensures FrameSafe(env, NewFrame(m, code, gas)) && FrameSafe(env, InitFrame(creator, addr, code, gas, value))
  {
    assert ScanReaches(code, 0, 0);
  }

  /** The loop is the iteration carried to its end, within as many steps as the frame has gas. */
  lemma {:induction false} LoopIsIteration(env: Env, w: World, f: Frame, depth: nat, readOnly: bool) returns (n: nat)
    ensures n <= f.gas + 1
    ensures Iterate(env, w, f, depth, readOnly, n) == Stop(Loop(env, w, f, depth, readOnly))
    decreases f.gas
  {
    hide Step;
    match Step(env, w, f, depth, readOnly)
    case Stop(r) =>
      assert Iterate(env, w, f, depth, readOnly, 0) == Next(w, f);
      n := 1;
    case Next(w1, f1) =>
      var m := LoopIsIteration(env, w1, f1, depth, readOnly);
      IterateShift(env, w, f, depth, readOnly, m);
      n := m + 1;
  }

  lemma {:induction false} IterateShift(env: Env, w: World, f: Frame, depth: nat, readOnly: bool, n: nat)
    requires Step(env, w, f, depth, readOnly).Next?
    ensures var r := Step(env, w, f, depth, readOnly);
            Iterate(env, w, f, depth, readOnly, n + 1) == Iterate(env, r.w, r.f, depth, readOnly, n)
  {
    hide Step;
    if n == 0 {
      assert Iterate(env, w, f, depth, readOnly, 0) == Next(w, f);
    } else {
      IterateShift(env, w, f, depth, readOnly, n - 1);
    }
  }
}
