/** What the call and create opcodes send, and what comes back to the frame. */
module EvmFrameOps {
  import opened Basics
  import opened EvmTypes
  import opened EvmTable
  import opened EvmWorld
  import opened EvmCode
  import opened EvmGas
  import opened EvmSemantics
  import opened EvmFrames
  import opened EvmOpcodes
  import opened EvmMemoryOps
  import opened EvmStateOps

  // ----- calls -----

  /** Only CALL and CALLCODE name a value, above the ranges of input and output. */
  predicate NamesValue(op: Byte) { op == CALL || op == CALLCODE }

  function Operands(op: Byte): nat { if NamesValue(op) then 7 else 6 }

  /** Item k from the top, counting the value as an item for the kinds that do not name one. */
  function Operand(op: Byte, s: seq<Word>, k: nat): Word
    requires IsCall(op) && |s| >= Operands(op) && k < 7
  {
    if NamesValue(op) then s[|s| - 1 - k] else if k == 2 then 0 else if k < 2 then s[|s| - 1 - k] else s[|s| - k]
  }

  /** The message an opcode sends: to the account it names, with its value and a range of memory, and its own kind. */
  ghost predicate Sends(f: Frame, op: Byte, m: Message)
    requires IsCall(op) && |f.stack| >= Operands(op)
  {
    && m.from == f.self && m.parentCaller == f.caller && m.parentValue == f.value
    && m.to == Named(Operand(op, f.stack, 1)) && m.value == Operand(op, f.stack, 2)
    && Window(m.input, f.store, Operand(op, f.stack, 3), Operand(op, f.stack, 4))
    && (op == CALL <==> m.kind.Call?) && (op == CALLCODE <==> m.kind.CallCode?)
    && (op == DELEGATECALL <==> m.kind.DelegateCall?) && (op == STATICCALL <==> m.kind.StaticCall?)
  }

  /** The output that reaches the memory of the caller: as much as fits the range, none after a failure. */
  function Delivered(op: Byte, s: seq<Word>, ret: Bytes, err: Option<Error>): Bytes
    requires IsCall(op) && |s| >= Operands(op)
  {
    if err.None? || err == Some(ExecutionReverted) then ret[..Min(Operand(op, s, 6), |ret|)] else []
  }

  /** The frame after a call: 1 or 0 on the stack, the output in memory and as return data, and the gas that came back. */
  ghost predicate Resumes(f: Frame, op: Byte, gas: nat, res: CallResult, f': Frame)
    requires IsCall(op) && |f.stack| >= Operands(op)
  {
    && f'.stack == f.stack[..|f.stack| - Operands(op)] + [if res.err.None? then 1 else 0]
    && f'.pc == f.pc + 1 && f'.gas == gas + res.gas && f'.returnData == res.ret
    && SameContract(f, f') && f'.returns_ == f.returns_
    && Written(f.store, f'.store, Operand(op, f.stack, 5), Delivered(op, f.stack, res.ret, res.err))
  }

  lemma CallLocal(env: Env, w: World, c: Frame, op: Byte, child: nat, depth: nat, readOnly: bool)
    requires IsCall(op) && Covered(c, op) && |c.stack| >= Operands(op)
    ensures var res := CallMessage(env, w, MessageOf(c, op), child, depth, readOnly);
            CallOp(env, w, c, op, child, depth, readOnly) ==
            if res.err == Some(RefundPanic) then Stop(Failed(RefundPanic))
            else Next(res.w, AfterCall(c, op, res.gas, res.ret, res.err))
  {
    hide CallMessage, MessageOf, AfterCall;
  }

  lemma MessageSent(f: Frame, c: Frame, op: Byte, need: nat)
    requires IsCall(op) && Covered(c, op) && |f.stack| >= Operands(op) && Grown(f.store, c.store, need)
    requires c == f.(gas := c.gas, lastGasCost := c.lastGasCost, store := c.store)
    ensures Sends(f, op, MessageOf(c, op))
  {
    hide Window, Grown, Slice, Covered;
    CallSpans(c, op);
    SliceWindow(f.store, c.store, need, Operand(op, f.stack, 3), Operand(op, f.stack, 4));
  }

  lemma CallSpans(c: Frame, op: Byte)
    requires IsCall(op) && Covered(c, op)
    ensures |c.stack| >= Operands(op)
    ensures Operand(op, c.stack, 4) > 0 ==> Operand(op, c.stack, 3) + Operand(op, c.stack, 4) <= |c.store|
    ensures Operand(op, c.stack, 6) > 0 ==> Operand(op, c.stack, 5) + Operand(op, c.stack, 6) <= |c.store|
  {
    hide Covered;
    CallRanges(c, op);
  }

  lemma CallResumed(f: Frame, c: Frame, op: Byte, need: nat, res: CallResult)
    requires IsCall(op) && Covered(c, op) && |f.stack| >= Operands(op) && Grown(f.store, c.store, need)
    requires c == f.(gas := c.gas, lastGasCost := c.lastGasCost, store := c.store)
    ensures Resumes(f, op, c.gas, res, AfterCall(c, op, res.gas, res.ret, res.err))
  {
    hide Written, Grown, Write, Covered;
    CallSpans(c, op);
    WriteIsWritten(f.store, c.store, need, Operand(op, f.stack, 5), Operand(op, f.stack, 6), res.ret);
    Unwritten(f.store, c.store, need, Operand(op, f.stack, 5));
  }

  lemma Unwritten(store: Bytes, grown: Bytes, need: nat, off: nat)
    requires Grown(store, grown, need)
    ensures Written(store, grown, off, [])
  {
  }

  lemma CallStep(env: Env, w: World, f: Frame, depth: nat, readOnly: bool)
    requires Pays(env, w, f, readOnly) && IsCall(OpAt(f.code, f.pc))
    ensures var op := OpAt(f.code, f.pc);
            var c := Charge(env, w, f, op, Entry(env, f), readOnly);
            && |f.stack| >= Operands(op) && Covered(c.f, op) && c.w == w && c.f.stack == f.stack
            && Step(env, w, f, depth, readOnly) ==
                 CallOp(env, w, c.f, op, c.callGas + (if Operand(op, f.stack, 2) != 0 then 2300 else 0), depth, readOnly)
  {
    hide Charge, CallOp, Covered, Lookup;
    PaidRuns(env, w, f, readOnly);
    CallSpans(PaidFrame(env, w, f, readOnly), OpAt(f.code, f.pc));
  }

  /**
   * A call opcode that is paid for sends its message with the gas set aside, and a stipend when it moves value, and goes on
   * with what comes back; `given` is the gas set aside.
   */
  lemma CallsReturn(env: Env, w: World, f: Frame, depth: nat, readOnly: bool) returns (m: Message, given: nat)
    requires Pays(env, w, f, readOnly) && IsCall(OpAt(f.code, f.pc))
    ensures var op := OpAt(f.code, f.pc);
            && |f.stack| >= Operands(op) && Sends(f, op, m)
            && given == Charge(env, w, f, op, Entry(env, f), readOnly).callGas + (if m.value != 0 then 2300 else 0)
            && var res := CallMessage(env, w, m, given, depth, readOnly);
               var r := Step(env, w, f, depth, readOnly);
               if res.err == Some(RefundPanic) then r == Stop(Failed(RefundPanic))
               else r.Next? && r.w == res.w && Resumes(f, op, PaidFrame(env, w, f, readOnly).gas, res, r.f)
  {
    hide Step, Charge, Lookup, Covered, CallMessage, MessageOf, AfterCall, CallOp, Grown, MemoryNeeded, Written, Window;
    var op, c := OpAt(f.code, f.pc), PaidFrame(env, w, f, readOnly);
    PaidMemory(env, w, f, readOnly);
    CallStep(env, w, f, depth, readOnly);
    MessageSent(f, c, op, MemoryNeeded(op, f.stack).value);
    m := MessageOf(c, op);
    given := Charge(env, w, f, op, Entry(env, f), readOnly).callGas + (if m.value != 0 then 2300 else 0);
    CallLocal(env, w, c, op, given, depth, readOnly);
    CallResumed(f, c, op, MemoryNeeded(op, f.stack).value, CallMessage(env, w, m, given, depth, readOnly));
  }

  // ----- creations -----

  function CreateOperands(op: Byte): nat { if op == CREATE then 3 else 4 }

  /** The frame after a creation: the address or 0 on the stack, revert data only, and the gas that came back. */
  ghost predicate ResumesCreation(env: Env, f: Frame, op: Byte, gas: nat, res: CreateResult, f': Frame)
    requires IsCreate(op) && |f.stack| >= CreateOperands(op)
  {
    var there := res.err.None? || (op == CREATE && !env.rules.homestead && res.err == Some(CodeStoreOutOfGas));
    && f'.stack == f.stack[..|f.stack| - CreateOperands(op)] + [if there then res.addr else 0]
    && f'.pc == f.pc + 1 && f'.gas == gas + res.gas
    && f'.returnData == (if res.err == Some(ExecutionReverted) then res.ret else [])
    && SameContract(f, f') && f'.returns_ == f.returns_ && Written(f.store, f'.store, 0, [])
  }

  lemma CreateLocal(env: Env, w: World, c: Frame, op: Byte, child: nat, depth: nat, readOnly: bool)
    requires IsCreate(op) && Covered(c, op) && |c.stack| >= CreateOperands(op)
    ensures var code := InitCode(c, op);
            var addr := CreateTarget(env, w, c.self, op, if op == CREATE then 0 else c.stack[|c.stack| - 4], code);
            var res := CreateContract(env, w, c.self, code, child, c.stack[|c.stack| - 1], addr, depth, readOnly);
            CreateOp(env, w, c, op, child, depth, readOnly) ==
            if res.err == Some(RefundPanic) then Stop(Failed(RefundPanic))
            else Next(res.w, AfterCreate(env, c, op, res.addr, res.gas, res.ret, res.err))
  {
    hide CreateContract, InitCode, AfterCreate, CreateTarget, Covered;
  }

  lemma CreateStep(env: Env, w: World, f: Frame, depth: nat, readOnly: bool)
    requires Pays(env, w, f, readOnly) && IsCreate(OpAt(f.code, f.pc))
    ensures var op := OpAt(f.code, f.pc);
            var c := PaidFrame(env, w, f, readOnly);
            var child := if op == CREATE2 || env.rules.eip150 then c.gas - c.gas / 64 else c.gas;
            && |f.stack| >= CreateOperands(op) && Covered(c, op)
            && Step(env, w, f, depth, readOnly) == CreateOp(env, w, c.(gas := c.gas - child), op, child, depth, readOnly)
  {
    hide Charge, CreateOp, Covered, Lookup;
    PaidRuns(env, w, f, readOnly);
    CreatePops(TableOf(env.rules), OpAt(f.code, f.pc));
  }

  lemma CreatePops(t: Fork, op: Byte)
    requires IsCreate(op) && Lookup(t, op).Some?
    ensures Lookup(t, op).value.pops == CreateOperands(op)
  {
  }

  /**
   * A create opcode that is paid for runs a range of memory as initialisation code, endowed with its value, on all but a
   * 64th of the gas since EIP-150, at the address for the contract and its nonce, or for its salt and the code.
   */
  lemma CreatesReturn(env: Env, w: World, f: Frame, depth: nat, readOnly: bool) returns (code: Bytes, addr: Address)
    requires Pays(env, w, f, readOnly) && IsCreate(OpAt(f.code, f.pc))
    ensures var op := OpAt(f.code, f.pc);
            var gas := PaidFrame(env, w, f, readOnly).gas;
            var child := if op == CREATE2 || env.rules.eip150 then gas - gas / 64 else gas;
            && |f.stack| >= CreateOperands(op) && Window(code, f.store, f.stack[|f.stack| - 2], f.stack[|f.stack| - 3])
            && addr == (if op == CREATE then env.createAddress(f.self, AccountOf(env, w, f.self).nonce)
                        else env.create2Address(f.self, f.stack[|f.stack| - 4], code))
            && var res := CreateContract(env, w, f.self, code, child, f.stack[|f.stack| - 1], addr, depth, readOnly);
               var r := Step(env, w, f, depth, readOnly);
               if res.err == Some(RefundPanic) then r == Stop(Failed(RefundPanic))
               else r.Next? && r.w == res.w && ResumesCreation(env, f, op, gas - child, res, r.f)
  {
    hide Step, Charge, Lookup, Covered, CreateContract, CreateOp, AfterCreate, InitCode, Grown, MemoryNeeded, Window;
    hide PaidFrame, ResumesCreation;
    var op, c := OpAt(f.code, f.pc), PaidFrame(env, w, f, readOnly);
    PaidMemory(env, w, f, readOnly);
    CreateStep(env, w, f, depth, readOnly);
    var child := if op == CREATE2 || env.rules.eip150 then c.gas - c.gas / 64 else c.gas;
    var c' := c.(gas := c.gas - child);
    SpanApart(c, op, c.gas - child);
    CreateLocal(env, w, c', op, child, depth, readOnly);
    CreationSent(f, c', op, MemoryNeeded(op, f.stack).value);
    code := InitCode(c', op);
    addr := CreateTarget(env, w, f.self, op, if op == CREATE then 0 else f.stack[|f.stack| - 4], code);
    CreationResumed(env, f, c', op, MemoryNeeded(op, f.stack).value,
                    CreateContract(env, w, f.self, code, child, f.stack[|f.stack| - 1], addr, depth, readOnly));
  }

  lemma CreationSent(f: Frame, c: Frame, op: Byte, need: nat)
    requires IsCreate(op) && Covered(c, op) && Grown(f.store, c.store, need) && c.stack == f.stack
    ensures |f.stack| >= 3 && Window(InitCode(c, op), f.store, f.stack[|f.stack| - 2], f.stack[|f.stack| - 3])
  {
    hide Covered, Grown, Window, Slice;
    CreateRange(c, op);
    SliceWindow(f.store, c.store, need, f.stack[|f.stack| - 2], f.stack[|f.stack| - 3]);
  }

  lemma CreationResumed(env: Env, f: Frame, c: Frame, op: Byte, need: nat, res: CreateResult)
    requires IsCreate(op) && |f.stack| >= CreateOperands(op) && Grown(f.store, c.store, need)
    requires c == f.(gas := c.gas, lastGasCost := c.lastGasCost, store := c.store)
    ensures ResumesCreation(env, f, op, c.gas, res, AfterCreate(env, c, op, res.addr, res.gas, res.ret, res.err))
  {
    hide Written, Grown;
    Unwritten(f.store, c.store, need, 0);
  }

  lemma SpanApart(c: Frame, op: Byte, gas: nat)
    requires Covered(c, op)
    ensures Covered(c.(gas := gas), op)
  {
  }
}
