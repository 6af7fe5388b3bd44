/** Reference semantics of the machine: one step, a whole frame, message calls and creations. */
module EvmSemantics {
  import opened Basics
  import opened BigEndian
  import opened EvmTypes
  import opened EvmTable
  import opened EvmWorld
  import opened EvmCode
  import opened EvmGas

  const CALL_CREATE_DEPTH: nat := 1024
  const MAX_CODE_SIZE: nat := 24576
  const RETURN_STACK_LIMIT: nat := 1023
  const TWO_32: nat := 0x1_0000_0000

  /** How a frame ends. A frame that fails or reverts leaves no state behind. */
  datatype RunResult =
    | Returned(w: World, gas: nat, ret: Bytes)
    | Reverted(gas: nat, ret: Bytes)
    | Failed(err: Error)

  /** Errors the interpreter itself raises: neither a requested revert nor a failed code deposit. */
  predicate OwnError(e: Error) { e != ExecutionReverted && e != CodeStoreOutOfGas }

  datatype StepResult = Next(w: World, f: Frame) | Stop(result: RunResult)

  /** The state a call leaves, the gas it gives back, its output and its error if any. */
  datatype CallResult = CallResult(w: World, gas: nat, ret: Bytes, err: Option<Error>)

  datatype CreateResult = CreateResult(w: World, addr: Address, gas: nat, ret: Bytes, err: Option<Error>)

  datatype Kind = Call | CallCode | DelegateCall | StaticCall

  // ----- stack and memory -----

  function Drop(s: seq<Word>, n: nat): seq<Word>
    requires n <= |s|
  {
    s[..|s| - n]
  }

  /** The top n items, topmost first. */
  function Top(s: seq<Word>, n: nat): seq<Word>
    requires n <= |s|
  {
    seq(n, i requires 0 <= i < n => Back(s, i))
  }

  /** Grown to a size: what was there stays, what is new is zero. */
  function Resize(store: Bytes, size: nat): (r: Bytes)
    ensures |r| == if |store| < size then size else |store|
  {
    if |store| < size then store + seq(size - |store|, _ => 0) else store
  }

  function Slice(store: Bytes, off: Word, size: Word): (r: Bytes)
    requires size > 0 ==> off + size <= |store|
    ensures |r| == size
  {
    if size == 0 then [] else store[off..off + size]
  }

  /** Copies at most `size` bytes of `data` to the memory at `off`. */
  function Write(store: Bytes, off: Word, size: Word, data: Bytes): (r: Bytes)
    requires size > 0 ==> off + size <= |store|
    ensures |r| == |store|
  {
    if size == 0 then store
    else var n := Min(size, |data|); store[..off] + data[..n] + store[off + n..]
  }

  /**
   * What is written is read back, up to what the data holds; a range that does not meet the written one reads as
   * before; and growing the memory changes no byte and adds zeros.
   */
  lemma MemoryReadsBack(store: Bytes, off: Word, size: Word, data: Bytes, from: Word, len: Word, grown: nat)
    requires size > 0 && off + size <= |store| && (len > 0 ==> from + len <= |store|)
    ensures var n := Min(size, |data|);
            Slice(Write(store, off, size, data), off, size) == data[..n] + store[off + n..off + size]
    ensures from + len <= off || off + size <= from ==>
              Slice(Write(store, off, size, data), from, len) == Slice(store, from, len)
    ensures Slice(Resize(store, grown), from, len) == Slice(store, from, len)
    ensures forall i :: |store| <= i < |Resize(store, grown)| ==> Resize(store, grown)[i] == 0
  {
    var n := Min(size, |data|);
    var after := Write(store, off, size, data);
    assert after == store[..off] + (data[..n] + store[off + n..off + size]) + store[off + size..];
    if len > 0 && from + len <= off {
      assert after[from..from + len] == store[from..from + len];
    } else if len > 0 && off + size <= from {
      assert after[from..from + len] == store[from..from + len];
    }
    if len > 0 {
      assert Resize(store, grown)[from..from + len] == store[from..from + len];
    }
  }

  // ----- opcodes that stay inside the frame -----

  function EnvValue(env: Env, w: World, f: Frame, op: Byte): Word
  {
    if op == ADDRESS then f.self
    else if op == CALLER then f.caller
    else if op == CALLVALUE then f.value
    else if op == CALLDATASIZE then |f.input| % TWO_256
    else if op == CODESIZE then |f.code| % TWO_256
    else if op == RETURNDATASIZE then |f.returnData| % TWO_256
    else if op == SELFBALANCE then Balance(env, w, f.self)
    else if op == PC then f.pc % TWO_256
    else if op == MSIZE then |f.store| % TWO_256
    else if op == GAS then f.gas % TWO_256
    else env.blockInfo(op)
  }

  function HashValue(env: Env, h: Hash): Word
  {
    if h == NoHash then 0 else env.sha3(h.preimage)
  }

  function QueryValue(env: Env, w: World, f: Frame, op: Byte, x: Word): Word
    requires op == MLOAD ==> x + 32 <= |f.store|
  {
    if op == BALANCE then Balance(env, w, ToAddress(x))
    else if op == EXTCODESIZE then |AccountOf(env, w, ToAddress(x)).code| % TWO_256
    else if op == EXTCODEHASH then
      (if Empty(env, w, ToAddress(x)) then 0 else HashValue(env, AccountOf(env, w, ToAddress(x)).codeHash))
    else if op == CALLDATALOAD then (if x < TWO_64 then WordOfBytes(GetData(f.input, x, 32)) else 0)
    else if op == MLOAD then WordOfBytes(f.store[x..x + 32])
    else if op == SLOAD then State(env, w, Slot(f.self, x))
    else env.blockHash(x)
  }

  /** Has the memory been grown to what the opcode needs? */
  predicate Covered(f: Frame, op: Byte)
  {
    && |f.stack| >= MemoryArgs(op)
    && MemoryNeeded(op, f.stack).Some?
    && MemoryNeeded(op, f.stack).value <= |f.store|
  }

  datatype Local = Ok(f: Frame) | Bad(err: Error)

  function Fall(f: Frame, stack: seq<Word>): Local { Ok(f.(stack := stack, pc := f.pc + 1)) }

  function CopySource(env: Env, w: World, f: Frame, op: Byte, s: seq<Word>): Bytes
    requires IsCopy(op) && |s| >= MemoryArgs(op)
  {
    if op == CALLDATACOPY then GetData(f.input, Min(Back(s, 1), TWO_64 - 1), Back(s, 2))
    else if op == CODECOPY then GetData(f.code, Min(Back(s, 1), TWO_64 - 1), Back(s, 2))
    else if op == EXTCODECOPY then
      GetData(AccountOf(env, w, ToAddress(Back(s, 0))).code, Min(Back(s, 2), TWO_64 - 1), Back(s, 3))
    else GetData(f.returnData, Back(s, 1), Back(s, 2))
  }

  function MemoryOp(env: Env, w: World, f: Frame, op: Byte): Local
    requires op == SHA3 || IsCopy(op) || op == MSTORE || op == MSTORE8
    requires Covered(f, op) && (op == MSTORE || op == MSTORE8 ==> |f.stack| >= 2)
  {
    var s := f.stack;
    if op == SHA3 then Fall(f, Drop(s, 2) + [env.sha3(Slice(f.store, Back(s, 0), Back(s, 1)))])
    else if op == MSTORE then
      Fall(f.(store := Write(f.store, Back(s, 0), 32, BytesOfNat(Back(s, 1), 32))), Drop(s, 2))
    else if op == MSTORE8 then
      Fall(f.(store := Write(f.store, Back(s, 0), 1, [Back(s, 1) % 256])), Drop(s, 2))
    else if op == RETURNDATACOPY && (Back(s, 1) >= TWO_64 || Back(s, 1) + Back(s, 2) >= TWO_64
                                     || |f.returnData| < Back(s, 1) + Back(s, 2)) then
      Bad(ReturnDataOutOfBounds)
    else
      var data := CopySource(env, w, f, op, s);
      if op == EXTCODECOPY then Fall(f.(store := Write(f.store, Back(s, 1), Back(s, 3), data)), Drop(s, 4))
      else Fall(f.(store := Write(f.store, Back(s, 0), Back(s, 2), data)), Drop(s, 3))
  }

  function JumpTo(f: Frame, stack: seq<Word>, dest: Word): Local
  {
    if ValidJump(f.code, dest, JUMPDEST) then Ok(f.(stack := stack, pc := dest)) else Bad(InvalidJump)
  }

  function FlowOp(f: Frame, op: Byte, o: Operation): Local
    requires exists t :: FlowEntry(t, op) == Some(o)
    requires |f.stack| >= o.pops
  {
    var s := f.stack;
    if op == POP then Fall(f, Drop(s, 1))
    else if op == JUMP then JumpTo(f, Drop(s, 1), Back(s, 0))
    else if op == JUMPI then
      (if Back(s, 1) != 0 then JumpTo(f, Drop(s, 2), Back(s, 0)) else Fall(f, Drop(s, 2)))
    else if op == BEGINSUB then Bad(InvalidSubroutineEntry)
    else if op == JUMPSUB then
      if |f.returns_| >= RETURN_STACK_LIMIT then Bad(ReturnStackExceeded)
      else if !ValidJump(f.code, Back(s, 0), BEGINSUB) then Bad(InvalidJump)
      else Ok(f.(stack := Drop(s, 1), returns_ := f.returns_ + [f.pc % TWO_32], pc := Back(s, 0) + 1))
    else if op == RETURNSUB then
      if f.returns_ == [] then Bad(InvalidRetsub)
      else var last := |f.returns_| - 1; Ok(f.(returns_ := f.returns_[..last], pc := f.returns_[last] + 1))
    else if IsPush(op) then
      Ok(f.(stack := s + [WordOfBytes(GetData(f.code, f.pc + 1, PushSize(op)))], pc := f.pc + 1 + PushSize(op)))
    else if IsDup(op) then Fall(f, s + [Back(s, op - DUP1)])
    else if IsSwap(op) then
      var n := |s| - 1 - (op - SWAP1 + 1);
      Fall(f, s[n := Back(s, 0)][|s| - 1 := s[n]])
    else Fall(f, s)
  }

  /** Opcodes that change nothing outside the frame. */
  function LocalOp(env: Env, w: World, f: Frame, op: Byte, o: Operation): (r: Local)
    requires Lookup(TableOf(env.rules), op) == Some(o) && !IsSystem(op)
    requires |f.stack| >= o.pops && Covered(f, op)
    ensures r.Ok? ==> r.f.gas == f.gas
    ensures r.Bad? ==> OwnError(r.err) && r.err != RefundPanic
  {
    if IsAlu(op) then Fall(f, Drop(f.stack, o.pops) + [env.alu(op, Top(f.stack, o.pops))])
    else if IsEnvPush(op) then Fall(f, f.stack + [EnvValue(env, w, f, op)])
    else if IsQuery(op) then Fall(f, Drop(f.stack, 1) + [QueryValue(env, w, f, op, Back(f.stack, 0))])
    else if op == SHA3 || IsCopy(op) || op == MSTORE || op == MSTORE8 then MemoryOp(env, w, f, op)
    else FlowOp(f, op, o)
  }

  // ----- charging -----

  datatype Charged = Fault(err: Error) | Paid(w: World, f: Frame, callGas: nat)

  /** The dynamic part: price, payment and memory growth to `size` bytes. */
  function Settle(env: Env, w: World, f: Frame, op: Byte, size: nat): (r: Charged)
    requires |f.stack| >= PriceArgs(op)
    ensures r.Paid? ==> r.w == w.(refund := r.w.refund)
    ensures r.Paid? ==> r.f == f.(gas := r.f.gas, store := Resize(f.store, size), lastGasCost := r.f.lastGasCost)
    ensures r.Paid? && op != SSTORE && op != SELFDESTRUCT ==> r.w == w
    ensures r.Paid? ==> if IsMetered(op) then r.f.gas < f.gas else r.f.gas <= f.gas
    ensures r.Paid? && IsCall(op) ==>
              r.f.gas + r.callGas + (if CallValue(op, f.stack) != 0 then VALUE_TRANSFER_GAS else 0) <= f.gas
    ensures r.Fault? ==> r.err == OutOfGas || (r.err == RefundPanic && op == SSTORE)
  {
    match DynamicPrice(env, w, f, op, size)
    case Unpriced => Fault(OutOfGas)
    case Panicked => Fault(RefundPanic)
    case Price(cost, total, refund, callGas) =>
      if f.gas < cost then Fault(OutOfGas)
      else Paid(w.(refund := refund),
                f.(gas := f.gas - cost, lastGasCost := total, store := Resize(f.store, size)), callGas)
  }

  /** Everything the loop does for an opcode before executing it. */
  function Charge(env: Env, w: World, f: Frame, op: Byte, o: Operation, readOnly: bool): (r: Charged)
    requires Lookup(TableOf(env.rules), op) == Some(o)
    ensures r.Paid? ==> |f.stack| >= o.pops && |f.stack| + o.pushes <= STACK_LIMIT + o.pops
    ensures r.Paid? ==> r.w == w.(refund := r.w.refund)
    ensures r.Paid? ==> r.f == f.(gas := r.f.gas, store := r.f.store, lastGasCost := r.f.lastGasCost)
    ensures r.Paid? ==> Covered(r.f, op)
    ensures r.Paid? && op != SSTORE && op != SELFDESTRUCT ==> r.w == w
    ensures r.Paid? && readOnly && env.rules.byzantium ==> !o.writes && (op == CALL ==> Back(f.stack, 2) == 0)
    ensures r == Fault(RefundPanic) ==> op == SSTORE
    ensures r.Fault? ==> OwnError(r.err)
    ensures r.Paid? ==> if IsHalt(op) then r.f.gas <= f.gas else r.f.gas < f.gas
    ensures r.Paid? && IsCall(op) ==>
              r.f.gas + r.callGas + (if CallValue(op, f.stack) != 0 then VALUE_TRANSFER_GAS else 0) < f.gas
  {
    if |f.stack| < o.MinStack() then Fault(StackUnderflow)
    else if |f.stack| > o.MaxStack() then Fault(StackOverflow)
    else if readOnly && env.rules.byzantium && (o.writes || (op == CALL && Back(f.stack, 2) != 0)) then
      Fault(WriteProtection)
    else if f.gas < o.constantGas then Fault(OutOfGas)
    else
      match MemoryNeeded(op, f.stack)
      case None => Fault(GasUintOverflow)
      case Some(n) =>
        if WordCount(n) * 32 >= TWO_64 then Fault(GasUintOverflow)
        else
          Settle(env, w, f.(gas := f.gas - o.constantGas), op, WordCount(n) * 32)
  }

  // ----- opcodes that write state or end the frame -----

  /** SSTORE and LOG. */
  function StoreOp(w: World, f: Frame, op: Byte): StepResult
    requires op == SSTORE || IsLog(op)
    requires |f.stack| >= (if op == SSTORE then 2 else op - LOG0 + 2) && Covered(f, op)
  {
    var s := f.stack;
    if op == SSTORE then
      Next(SetState(w, Slot(f.self, Back(s, 0)), Back(s, 1)), f.(stack := Drop(s, 2), pc := f.pc + 1))
    else
      var n := op - LOG0;
      var topics := Top(Drop(s, 2), n);
      var log := Log(f.self, topics, Slice(f.store, Back(s, 0), Back(s, 1)));
      Next(w.(logs := w.logs + [log]), f.(stack := Drop(s, n + 2), pc := f.pc + 1))
  }

  function Halt(env: Env, w: World, f: Frame, op: Byte): RunResult
    requires IsHalt(op) && |f.stack| >= PriceArgs(op) && Covered(f, op)
  {
    if op == STOP then Returned(w, f.gas, [])
    else if op == SELFDESTRUCT then
      var w1 := AddBalance(env, w, ToAddress(Back(f.stack, 0)), Balance(env, w, f.self));
      Returned(Suicide(env, w1, f.self), f.gas, [])
    else
      var ret := Slice(f.store, Back(f.stack, 0), Back(f.stack, 1));
      if op == RETURN then Returned(w, f.gas, ret) else Reverted(f.gas, ret)
  }

  function GasOf(r: RunResult): nat { if r.Failed? then 0 else r.gas }

  // ----- frames, calls and creations -----

  /** A message: who sends it, on whose behalf (for delegation), and what it carries. */
  datatype Message = Message(
    kind: Kind, from: Address, parentCaller: Address, parentValue: Word,
    to: Address, input: Bytes, value: Word)

  function NewFrame(m: Message, code: Bytes, gas: nat): Frame
  {
    var self := if m.kind.Call? || m.kind.StaticCall? then m.to else m.from;
    var caller := if m.kind.DelegateCall? then m.parentCaller else m.from;
    var value := if m.kind.DelegateCall? then m.parentValue else if m.kind.StaticCall? then 0 else m.value;
    Frame(self, caller, value, code, m.input, gas, 0, [], [], [], 0, [])
  }

  function InitFrame(creator: Address, addr: Address, code: Bytes, gas: nat, value: Word): Frame
  {
    Frame(addr, creator, value, code, [], gas, 0, [], [], [], 0, [])
  }

  /** One iteration of the interpreter loop. */
  function Step(env: Env, w: World, f: Frame, depth: nat, readOnly: bool): (r: StepResult)
    ensures r.Next? ==> r.f.gas < f.gas
    ensures r.Stop? ==> GasOf(r.result) <= f.gas && (r.result.Failed? ==> OwnError(r.result.err))
    decreases f.gas, 1
  {
    var op := OpAt(f.code, f.pc);
    match Lookup(TableOf(env.rules), op)
    case None => Stop(Failed(InvalidOpcode))
    case Some(o) =>
      match Charge(env, w, f, op, o, readOnly)
      case Fault(e) => Stop(Failed(e))
      case Paid(w1, f1, callGas) => Execute(env, w1, f1, op, o, callGas, depth, readOnly, f.gas)
  }

  /** Gas a call opcode gives its callee, with the stipend that comes with value. */
  function CalleeGas(op: Byte, s: seq<Word>, callGas: nat): nat
    requires |s| >= MemoryArgs(op)
  {
    callGas + (if CallValue(op, s) != 0 then CALL_STIPEND else 0)
  }

  /** Gas a creation gives the initialisation frame. */
  function InitGas(env: Env, op: Byte, gas: nat): (g: nat)
    ensures g <= gas
  {
    if op == CREATE2 || env.rules.eip150 then gas - gas / 64 else gas
  }

  /** Executing an opcode that has been paid for; `bound` is the gas before it was. */
  function Execute(
    env: Env, w: World, f: Frame, op: Byte, o: Operation, callGas: nat, depth: nat, readOnly: bool, bound: nat)
    : (r: StepResult)
    requires Lookup(TableOf(env.rules), op) == Some(o) && |f.stack| >= o.pops && Covered(f, op)
    requires if IsHalt(op) then f.gas <= bound else f.gas < bound
    requires IsCall(op) ==> f.gas + CalleeGas(op, f.stack, callGas) < bound
    ensures r.Next? ==> r.f.gas < bound
    ensures r.Stop? ==> GasOf(r.result) <= bound && (r.result.Failed? ==> OwnError(r.result.err))
    decreases bound, 0
  {
    if !IsSystem(op) then
      match LocalOp(env, w, f, op, o)
      case Bad(e) => Stop(Failed(e))
      case Ok(f') => Next(w, f')
    else if IsHalt(op) then Stop(Halt(env, w, f, op))
    else if IsCall(op) then CallOp(env, w, f, op, CalleeGas(op, f.stack, callGas), depth, readOnly)
    else if IsCreate(op) then
      var child := InitGas(env, op, f.gas);
      CreateOp(env, w, f.(gas := f.gas - child), op, child, depth, readOnly)
    else StoreOp(w, f, op)
  }

  /** The interpreter loop: steps until the frame ends. */
  function Loop(env: Env, w: World, f: Frame, depth: nat, readOnly: bool): (r: RunResult)
    ensures GasOf(r) <= f.gas && (r.Failed? ==> OwnError(r.err))
    decreases f.gas, 2
  {
    match Step(env, w, f, depth, readOnly)
    case Stop(r) => r
    case Next(w1, f1) => Loop(env, w1, f1, depth, readOnly)
  }

  /** A whole frame; a contract without code ends at once. */
  function Run(env: Env, w: World, f: Frame, depth: nat, readOnly: bool): (r: RunResult)
    ensures GasOf(r) <= f.gas && (r.Failed? ==> OwnError(r.err))
    decreases f.gas, 3
  {
    if |f.code| == 0 then Returned(w, f.gas, []) else Loop(env, w, f, depth + 1, readOnly)
  }

  /** Who pays and what changes before the callee runs. */
  function Prepare(env: Env, w: World, m: Message): World
  {
    if m.kind.Call? then Transfer(env, w, m.from, m.to, m.value)
    else if m.kind.StaticCall? then AddBalance(env, w, m.to, 0)
    else w
  }

  datatype Native = NativeOk(gas: nat, out: Bytes) | NativeErr(err: Error, out: Bytes)

  /** A precompile that cannot be paid for does not run; one that fails still hands over its output. */
  function Precompiled(env: Env, a: Address, input: Bytes, gas: nat): (r: Native)
    ensures r.NativeOk? ==> r.gas <= gas
    ensures r.NativeErr? ==> r.err == OutOfGas || r.err == PrecompileFailed
  {
    if gas < env.precompileGas(a, input) then NativeErr(OutOfGas, [])
    else
      var run := env.precompileRun(a, input);
      if run.failed then NativeErr(PrecompileFailed, run.out) else NativeOk(gas - env.precompileGas(a, input), run.out)
  }

  /** Runs the callee from the prepared state w1; an error leaves the state w. */
  function Deliver(env: Env, w: World, w1: World, m: Message, gas: nat, depth: nat, readOnly: bool): (r: CallResult)
    ensures r.gas <= gas
    decreases gas, 4
  {
    if env.isPrecompile(m.to) then
      match Precompiled(env, m.to, m.input, gas)
      case NativeOk(g, out) => CallResult(w1, g, out, None)
      case NativeErr(e, out) => CallResult(w, 0, out, Some(e))
    else
      match Run(env, w1, NewFrame(m, AccountOf(env, w1, m.to).code, gas), depth, readOnly || m.kind.StaticCall?)
      case Returned(w2, g, ret) => CallResult(w2, g, ret, None)
      case Reverted(g, ret) => CallResult(w, g, ret, Some(ExecutionReverted))
      case Failed(e) => CallResult(w, 0, [], Some(e))
  }

  /** Call, CallCode, DelegateCall and StaticCall: an error leaves the state it started from. */
  function CallMessage(env: Env, w: World, m: Message, gas: nat, depth: nat, readOnly: bool): (r: CallResult)
    ensures r.gas <= gas
    decreases gas, 5
  {
    if env.noRecursion && depth > 0 then CallResult(w, gas, [], None)
    else if depth > CALL_CREATE_DEPTH then CallResult(w, gas, [], Some(Depth))
    else if (m.kind.Call? || m.kind.CallCode?) && Balance(env, w, m.from) < m.value then
      CallResult(w, gas, [], Some(InsufficientBalance))
    else if m.kind.Call? && !Exist(env, w, m.to) && !env.isPrecompile(m.to) && env.rules.eip158 && m.value == 0 then
      CallResult(w, gas, [], None)
    else Deliver(env, w, Prepare(env, w, m), m, gas, depth, readOnly)
  }

  /** Is there already a contract at the address? */
  predicate Collides(env: Env, w: World, a: Address)
  {
    var r := AccountOf(env, w, a);
    r.nonce != 0 || (r.codeHash != NoHash && r.codeHash != EmptyCodeHash)
  }

  /** The caller's state with its nonce advanced, where a failed creation returns to. */
  function BumpNonce(env: Env, w: World, a: Address): World
  {
    SetNonce(env, w, a, (AccountOf(env, w, a).nonce + 1) % TWO_64)
  }

  /** The new account: its nonce and the ether it starts with. */
  function Endow(env: Env, w: World, creator: Address, addr: Address, value: Word): World
  {
    Transfer(env, if env.rules.eip158 then SetNonce(env, w, addr, 1) else w, creator, addr, value)
  }

  /** Storing the code an initialisation frame returned. */
  function Deploy(env: Env, w0: World, w: World, addr: Address, gas: nat, code: Bytes): (r: CreateResult)
    ensures r.gas <= gas
  {
    if env.rules.eip158 && |code| > MAX_CODE_SIZE then CreateResult(w0, addr, 0, code, Some(MaxCodeSizeExceeded))
    else if gas >= |code| * CREATE_DATA_GAS then
      CreateResult(SetCode(env, w, addr, code), addr, gas - |code| * CREATE_DATA_GAS, code, None)
    else if env.rules.homestead then CreateResult(w0, addr, 0, code, Some(CodeStoreOutOfGas))
    else CreateResult(w, addr, gas, code, Some(CodeStoreOutOfGas))
  }

  /** Runs an initialisation frame from w and deploys what it returns; a failure leaves the state w0. */
  function Initialise(env: Env, w0: World, w: World, f: Frame, depth: nat, readOnly: bool): (r: CreateResult)
    ensures r.gas <= f.gas
    decreases f.gas, 4
  {
    match Run(env, w, f, depth, readOnly)
    case Returned(w', g, ret) => Deploy(env, w0, w', f.self, g, ret)
    case Reverted(g, ret) => CreateResult(w0, f.self, g, ret, Some(ExecutionReverted))
    case Failed(e) => CreateResult(w0, f.self, 0, [], Some(e))
  }

  function CreateContract(
    env: Env, w: World, creator: Address, code: Bytes, gas: nat, value: Word, addr: Address, depth: nat, readOnly: bool)
    : (r: CreateResult)
    ensures r.gas <= gas
    decreases gas, 5
  {
    if depth > CALL_CREATE_DEPTH then CreateResult(w, 0, gas, [], Some(Depth))
    else if Balance(env, w, creator) < value then CreateResult(w, 0, gas, [], Some(InsufficientBalance))
    else
      var w0 := BumpNonce(env, w, creator);
      if Collides(env, w0, addr) then CreateResult(w0, 0, 0, [], Some(AddressCollision))
      else
        var w2 := Endow(env, w0, creator, addr, value);
        if env.noRecursion && depth > 0 then CreateResult(w2, addr, gas, [], None)
        else Initialise(env, w0, w2, InitFrame(creator, addr, code, gas, value), depth, readOnly)
  }

  function KindOf(op: Byte): Kind
  {
    if op == CALL then Call else if op == CALLCODE then CallCode
    else if op == DELEGATECALL then DelegateCall else StaticCall
  }

  /** The message a call opcode sends. */
  function MessageOf(f: Frame, op: Byte): (m: Message)
    requires IsCall(op) && Covered(f, op)
  {
    var s := f.stack;
    var k := if op == CALL || op == CALLCODE then 1 else 0;
    Message(KindOf(op), f.self, f.caller, f.value, ToAddress(Back(s, 1)),
            Slice(f.store, Back(s, 2 + k), Back(s, 3 + k)), CallValue(op, s))
  }

  /** The caller's frame once its call has returned. */
  function AfterCall(f: Frame, op: Byte, gas: nat, ret: Bytes, err: Option<Error>): Frame
    requires IsCall(op) && Covered(f, op)
  {
    var s := f.stack;
    var k := if op == CALL || op == CALLCODE then 1 else 0;
    f.(stack := Drop(s, 6 + k) + [if err.None? then 1 else 0],
       store := if err.None? || err == Some(ExecutionReverted)
                then Write(f.store, Back(s, 4 + k), Back(s, 5 + k), ret) else f.store,
       gas := f.gas + gas, returnData := ret, pc := f.pc + 1)
  }

  function CallOp(env: Env, w: World, f: Frame, op: Byte, child: nat, depth: nat, readOnly: bool): (r: StepResult)
    requires IsCall(op) && Covered(f, op)
    ensures r.Next? ==> r.f.gas <= f.gas + child
    ensures r.Stop? ==> r.result == Failed(RefundPanic)
    decreases child, 6
  {
    var res := CallMessage(env, w, MessageOf(f, op), child, depth, readOnly);
    if res.err == Some(RefundPanic) then Stop(Failed(RefundPanic))
    else Next(res.w, AfterCall(f, op, res.gas, res.ret, res.err))
  }

  function InitCode(f: Frame, op: Byte): Bytes
    requires IsCreate(op) && Covered(f, op)
  {
    Slice(f.store, Back(f.stack, 1), Back(f.stack, 2))
  }

  /** Where a creation opcode puts the new contract. */
  function CreateTarget(env: Env, w: World, self: Address, op: Byte, salt: Word, code: Bytes): Address
  {
    if op == CREATE then env.createAddress(self, AccountOf(env, w, self).nonce)
    else env.create2Address(self, salt, code)
  }

  /** The creator's frame once its creation has ended. */
  function AfterCreate(env: Env, f: Frame, op: Byte, addr: Address, gas: nat, ret: Bytes, err: Option<Error>): Frame
    requires IsCreate(op) && |f.stack| >= (if op == CREATE then 3 else 4)
  {
    var kept := err.None? || (op == CREATE && !env.rules.homestead && err == Some(CodeStoreOutOfGas));
    f.(stack := Drop(f.stack, if op == CREATE then 3 else 4) + [if kept then addr else 0],
       gas := f.gas + gas, returnData := if err == Some(ExecutionReverted) then ret else [], pc := f.pc + 1)
  }

  function CreateOp(env: Env, w: World, f: Frame, op: Byte, child: nat, depth: nat, readOnly: bool): (r: StepResult)
    requires IsCreate(op) && Covered(f, op) && (op == CREATE2 ==> |f.stack| >= 4)
    ensures r.Next? ==> r.f.gas <= f.gas + child
    ensures r.Stop? ==> r.result == Failed(RefundPanic)
    decreases child, 6
  {
    var code := InitCode(f, op);
    var addr := CreateTarget(env, w, f.self, op, if op == CREATE then 0 else Back(f.stack, 3), code);
    var res := CreateContract(env, w, f.self, code, child, Back(f.stack, 0), addr, depth, readOnly);
    if res.err == Some(RefundPanic) then Stop(Failed(RefundPanic))
    else Next(res.w, AfterCreate(env, f, op, res.addr, res.gas, res.ret, res.err))
  }
}
