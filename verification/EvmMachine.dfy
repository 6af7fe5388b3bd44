/** The machine in place: gas functions, opcodes, the interpreter loop, calls and creations. */
module EvmMachine {
  import opened Basics
  import opened BigEndian
  import opened EvmTypes
  import opened EvmTable
  import opened EvmWorld
  import opened EvmCode
  import opened EvmGas
  import opened EvmSemantics
  import opened EvmFrames
  import opened EvmStateDB
  import opened EvmContext
  import opened EvmSupply
  import opened EvmRuns
  import opened EvmTheorems

  /** 64-bit addition and multiplication that report overflow. */
  method SafeAdd(x: nat, y: nat) returns (r: nat, overflow: bool)
    ensures overflow <==> x + y >= TWO_64
    ensures !overflow ==> r == x + y
  {
    r := (x + y) % TWO_64;
    overflow := x + y >= TWO_64;
  }

  method SafeMul(x: nat, y: nat) returns (r: nat, overflow: bool)
    ensures overflow <==> x * y >= TWO_64
    ensures !overflow ==> r == x * y
  {
    r := x * y % TWO_64;
    overflow := x * y >= TWO_64;
  }

  /** The contract that sends a message, with what it was itself called with. */
  datatype Sender = Sender(self: Address, caller: Address, value: Word)

  function MessageFrom(kind: Kind, from: Sender, to: Address, input: Bytes, value: Word): Message
  {
    Message(kind, from.self, from.caller, from.value, to, input, value)
  }

  /** Only the call opcodes look at the gas set aside for a call. */
  lemma CallGasUnused(
    env: Env, w: World, f: Frame, op: Byte, o: Operation, g: nat, g': nat, depth: nat, readOnly: bool, bound: nat)
    requires Lookup(TableOf(env.rules), op) == Some(o) && |f.stack| >= o.pops && Covered(f, op) && !IsCall(op)
    requires if IsHalt(op) then f.gas <= bound else f.gas < bound
    ensures Execute(env, w, f, op, o, g, depth, readOnly, bound) == Execute(env, w, f, op, o, g', depth, readOnly, bound)
  {
    hide Lookup, LocalOp, StoreOp, Halt, CreateOp;
  }

  lemma SoundHash(env: Env, w: World, a: Address)
    requires Sound(env, w)
    ensures AccountOf(env, w, a).codeHash == Keccak(AccountOf(env, w, a).code)
  {
  }

  /** The opcodes on one word or one range of memory. */
  lemma WordOp(env: Env, w: World, f: Frame, op: Byte)
    requires (op == SHA3 || op == MSTORE || op == MSTORE8) && Covered(f, op) && |f.stack| >= 2
    ensures var s := f.stack;
            var (x, y) := (Back(s, 0), Back(s, 1));
            && (op == SHA3 && y > 0 ==> x + y <= |f.store|) && (op == MSTORE ==> x + 32 <= |f.store|)
            && (op == MSTORE8 ==> x + 1 <= |f.store|)
            && MemoryOp(env, w, f, op) ==
                 if op == SHA3 then Fall(f, Drop(s, 2) + [env.sha3(Slice(f.store, x, y))])
                 else if op == MSTORE then Fall(f.(store := Write(f.store, x, 32, BytesOfNat(y, 32))), Drop(s, 2))
                 else Fall(f.(store := Write(f.store, x, 1, [y % 256])), Drop(s, 2))
  {
    hide Covered, MemoryNeeded, Write, Slice, BytesOfNat;
    OperandRange(f, op);
  }

  /** The opcodes that jump, and what they take from the stack. */
  lemma JumpOps(t: Fork, op: Byte, o: Operation)
    requires FlowEntry(t, op) == Some(o) && o.jumps
    ensures op == JUMP || op == JUMPI || op == JUMPSUB || op == RETURNSUB
    ensures o.pops == if op == JUMPI then 2 else if op == RETURNSUB then 0 else 1
  {
  }

  lemma CallOpReturns(env: Env, w: World, f: Frame, op: Byte, child: nat, depth: nat, readOnly: bool)
    requires IsCall(op) && Covered(f, op)
    ensures var r := CallMessage(env, w, MessageOf(f, op), child, depth, readOnly);
            r.err != Some(RefundPanic) ==>
            CallOp(env, w, f, op, child, depth, readOnly) == Next(r.w, AfterCall(f, op, r.gas, r.ret, r.err))
  {
    hide CallMessage, AfterCall, MessageOf;
  }

  lemma CreateOpReturns(env: Env, w: World, f: Frame, op: Byte, child: nat, depth: nat, readOnly: bool)
    requires IsCreate(op) && Covered(f, op) && (op == CREATE2 ==> |f.stack| >= 4)
    ensures var code := InitCode(f, op);
            var addr := CreateTarget(env, w, f.self, op, if op == CREATE then 0 else Back(f.stack, 3), code);
            var r := CreateContract(env, w, f.self, code, child, Back(f.stack, 0), addr, depth, readOnly);
            r.err != Some(RefundPanic) ==>
            CreateOp(env, w, f, op, child, depth, readOnly) ==
            Next(r.w, AfterCreate(env, f, op, r.addr, r.gas, r.ret, r.err))
  {
    hide CreateContract, InitCode, CreateTarget, AfterCreate;
  }

  lemma EndowedSound(env: Env, w: World, creator: Address, addr: Address, value: Word)
    requires Sound(env, w) && value <= Balance(env, w, creator)
    ensures Sound(env, Endow(env, BumpNonce(env, w, creator), creator, addr, value))
  {
    hide Sound, Kept;
    var w0 := BumpNonce(env, w, creator);
    SetNonceKept(env, w, creator, (AccountOf(env, w, creator).nonce + 1) % TWO_64);
    KeptWeaken(env, w, w0, false);
    EndowKept(env, w0, creator, addr, value);
    KeptWeaken(env, w0, Endow(env, w0, creator, addr, value), false);
  }

  lemma SoundHashed(env: Env, w: World)
    requires Sound(env, w)
    ensures Hashed(env, w)
  {
  }

  class EVM {
    const env: Env
    const db: StateDB
    var depth: nat
    var readOnly: bool
    var returnData: Bytes
    var callGasTemp: nat

    constructor (db: StateDB)
      ensures this.db == db && env == db.env && depth == 0 && !readOnly
    {
      this.db := db;
      env := db.env;
      depth, readOnly, returnData, callGasTemp := 0, false, [], 0;
    }

    // ----- gas -----

    /** Fee for growing the memory to `size` bytes, recording the new total. */
    method MemoryGasCost(ctx: CallCtx, size: nat) returns (fee: nat, err: bool)
      modifies ctx`lastGasCost
      ensures match MemoryGas(old(ctx.View(returnData)), size)
              case None => err
              case Some(g) => !err && fee == g.fee && ctx.lastGasCost == g.total
    {
      fee, err := 0, false;
      if size == 0 { return; }
      if size > MEMORY_LIMIT { return 0, true; }
      var words := WordCount(size);
      if words * 32 > |ctx.store| {
        MemoryFeeBounds(words, words);
        var square := words * words;
        var linCoef := words * 3;
        var quadCoef := square / 512;
        var newTotalFee := linCoef + quadCoef;
        assert square < TWO_64 && newTotalFee < TWO_64;
        fee := (newTotalFee - ctx.lastGasCost) % TWO_64;
        ctx.lastGasCost := newTotalFee;
      }
    }

    /** SSTORE under the metering in force; fails with a panic when the refund counter would underflow. */
    method GasSStore(ctx: CallCtx) returns (cost: nat, err: bool, panic: bool)
      requires db.env == env && |ctx.stack| >= 2
      modifies db`refund
      ensures match SstorePrice(env, old(db.View()), ctx.View(returnData))
              case Panicked => panic
              case Unpriced => err && !panic
              case Price(c, _, r, _) => !err && !panic && cost == c && db.refund == r
    {
      cost, err, panic := 0, false, false;
      var slot := Slot(ctx.self, Back(ctx.stack, 0));
      var value := Back(ctx.stack, 1);
      var istanbul := TableOf(env.rules).Since(Istanbul);
      if istanbul && ctx.gas <= 2300 { return 0, true, false; }
      var current := State(env, db.View(), slot);
      if !istanbul && (env.rules.petersburg || !env.rules.constantinople) {
        if current == 0 && value != 0 { return 20000, false, false; }
        if current != 0 && value == 0 { db.AddRefund(15000); }
        return 5000, false, false;
      }
      var noop := if istanbul then 800 else 200;
      if current == value { return noop, false, false; }
      var original := Committed(env, slot);
      if original == current {
        if original == 0 { return 20000, false, false; }
        if value == 0 { db.AddRefund(15000); }
        return 5000, false, false;
      }
      if original != 0 {
        if current == 0 {
          var ok := db.SubRefund(15000);
          if !ok { return 0, false, true; }
        } else if value == 0 {
          db.AddRefund(15000);
        }
      }
      if original == value {
        db.AddRefund(if original == 0 then 20000 - noop else 5000 - noop);
      }
      return noop, false, false;
    }

    method GasSelfdestruct(ctx: CallCtx) returns (cost: nat)
      requires db.env == env && |ctx.stack| >= 1
      modifies db`refund
      ensures var p := SelfdestructPrice(env, old(db.View()), ctx.View(returnData));
              cost == p.cost && db.refund == p.refund
    {
      cost := 0;
      var to := ToAddress(Back(ctx.stack, 0));
      if env.rules.eip150 {
        cost := 5000;
        if env.rules.eip158 {
          if Empty(env, db.View(), to) && Balance(env, db.View(), ctx.self) != 0 { cost := cost + 25000; }
        } else if !Exist(env, db.View(), to) {
          cost := cost + 25000;
        }
      }
      if ctx.self !in db.suicided { db.AddRefund(24000); }
    }

    /** What calling a new account and moving value cost. */
    method GasSurcharge(op: Byte, to: Word, value: Word) returns (gas: nat)
      requires db.env == env && IsCall(op)
      ensures gas == CallSurcharge(env, db.View(), op, to, value)
    {
      hide Exist, Empty;
      gas := 0;
      var address := ToAddress(to);
      if op == CALL {
        if env.rules.eip158 {
          if value != 0 && Empty(env, db.View(), address) { gas := gas + NEW_ACCOUNT_GAS; }
        } else if !Exist(env, db.View(), address) {
          gas := gas + NEW_ACCOUNT_GAS;
        }
      }
      if value != 0 { gas := gas + VALUE_TRANSFER_GAS; }
    }

    /** Gas of the four call opcodes; also sets aside what the callee may use. */
    method GasCall(ctx: CallCtx, op: Byte, size: nat) returns (cost: nat, err: bool)
      requires db.env == env && IsCall(op) && |ctx.stack| >= MemoryArgs(op)
      modifies this`callGasTemp, ctx`lastGasCost
      ensures match MemoryGas(old(ctx.View(returnData)), size)
              case None => err
              case Some(g) =>
                match CallPrice(env, db.View(), old(ctx.View(returnData)), op, g)
                case Price(c, t, _, child) =>
                  (err <==> c >= TWO_64) && (!err ==> cost == c && ctx.lastGasCost == t && callGasTemp == child)
                case _ => err
    {
      hide CallGas, MemoryGas, CallSurcharge;
      var overflow;
      var gas := GasSurcharge(op, Back(ctx.stack, 1), CallValue(op, ctx.stack));
      var memoryGas, bad := MemoryGasCost(ctx, size);
      if bad { return 0, true; }
      gas, overflow := SafeAdd(gas, memoryGas);
      if overflow { return 0, true; }
      var child := CallGas(env.rules.eip150, ctx.gas, gas, Back(ctx.stack, 0));
      if child.None? { return 0, true; }
      callGasTemp := child.value;
      cost, err := SafeAdd(gas, callGasTemp);
    }
  
    /** Gas of SHA3, CREATE2, the copy opcodes and LOG: memory growth plus a rate on the data. */
    method GasData(ctx: CallCtx, op: Byte, size: nat) returns (cost: nat, err: bool)
      requires |ctx.stack| >= MemoryArgs(op) && (op == SHA3 || op == CREATE2 || IsCopy(op) || IsLog(op))
      modifies ctx`lastGasCost
      ensures match MemoryGas(old(ctx.View(returnData)), size)
              case None => err
              case Some(g) =>
                match DataPrice(db.View(), old(ctx.View(returnData)), op, g)
                case Price(c, t, _, _) => (err <==> c >= TWO_64) && (!err ==> cost == c && ctx.lastGasCost == t)
                case _ => err
    {
      hide MemoryGas;
      var len := if op == SHA3 || IsLog(op) then Back(ctx.stack, 1)
                 else if op == EXTCODECOPY then Back(ctx.stack, 3) else Back(ctx.stack, 2);
      cost, err := 0, true;
      var gas, bad := MemoryGasCost(ctx, size);
      if bad || len >= TWO_64 { return; }
      if IsLog(op) {
        var overflow;
        gas, overflow := SafeAdd(gas, 375);
        if overflow { return; }
        gas, overflow := SafeAdd(gas, (op - LOG0) * 375);
        if overflow { return; }
        var dataGas;
        dataGas, overflow := SafeMul(len, 8);
        if overflow { return; }
        cost, err := SafeAdd(gas, dataGas);
      } else {
        var wordGas, overflow := SafeMul(WordCount(len), if IsCopy(op) then 3 else 6);
        if overflow { return; }
        cost, err := SafeAdd(gas, wordGas);
      }
    }

    /** The dynamic gas of any opcode; 64-bit overflow is an error. */
    method DynamicGas(ctx: CallCtx, op: Byte, size: nat) returns (cost: nat, err: bool, panic: bool)
      requires db.env == env && |ctx.stack| >= PriceArgs(op)
      modifies this`callGasTemp, ctx`lastGasCost, db`refund
      ensures match DynamicPrice(env, old(db.View()), old(ctx.View(returnData)), op, size)
              case Panicked => panic
              case Unpriced => !panic && err
              case Price(c, t, r, child) =>
                && !panic && (err ==> c >= TWO_64)
                && (!err ==> cost == c && ctx.lastGasCost == t && db.refund == r && (IsCall(op) ==> callGasTemp == child))
    {
      hide MemoryGas, CallPrice, DataPrice, SstorePrice, SelfdestructPrice;
      cost, err, panic := 0, false, false;
      if op == EXP {
        cost := 10 + ByteLength(Back(ctx.stack, 1)) * (if TableOf(env.rules).Since(Spurious) then 50 else 10);
      } else if op == SSTORE {
        cost, err, panic := GasSStore(ctx);
      } else if op == SELFDESTRUCT {
        cost := GasSelfdestruct(ctx);
      } else if IsCall(op) {
        cost, err := GasCall(ctx, op, size);
      } else if op == SHA3 || op == CREATE2 || IsCopy(op) || IsLog(op) {
        cost, err := GasData(ctx, op, size);
      } else if MemoryArgs(op) != 0 {
        cost, err := MemoryGasCost(ctx, size);
      }
    }
  
    /** The dynamic part of the charge. */
    method ChargeDynamic(ctx: CallCtx, op: Byte, size: nat) returns (err: Option<Error>)
      requires db.env == env && |ctx.stack| >= PriceArgs(op) && ctx.gas < TWO_64
      modifies this`callGasTemp, ctx`gas, ctx`store, ctx`lastGasCost, db`refund
      ensures match Settle(env, old(db.View()), old(ctx.View(returnData)), op, size)
              case Fault(e) => err == Some(e)
              case Paid(w, f, callGas) =>
                && err == None && db.View() == w && ctx.View(returnData) == f
                && (IsCall(op) ==> callGasTemp == callGas)
    {
      hide DynamicPrice;
      var cost, bad, panic := DynamicGas(ctx, op, size);
      if panic { return Some(RefundPanic); }
      if bad { return Some(OutOfGas); }
      var paid := ctx.UseGas(cost);
      if !paid { return Some(OutOfGas); }
      if size > 0 { ctx.ResizeMemory(size); }
      err := None;
    }

    /** Everything the loop does before executing an opcode. */
    method ChargeGas(ctx: CallCtx, op: Byte, o: Operation) returns (err: Option<Error>)
      requires db.env == env && Lookup(TableOf(env.rules), op) == Some(o) && ctx.gas < TWO_64
      modifies this`callGasTemp, ctx`gas, ctx`store, ctx`lastGasCost, db`refund
      ensures match Charge(env, old(db.View()), old(ctx.View(returnData)), op, o, readOnly)
              case Fault(e) => err == Some(e)
              case Paid(w, f, callGas) =>
                && err == None && db.View() == w && ctx.View(returnData) == f
                && (IsCall(op) ==> callGasTemp == callGas)
      ensures CallVerdict(env, old(db.View()), old(ctx.View(returnData)), op, o, readOnly, err)
    {
      hide Settle, Lookup, MemoryNeeded, Covered, OwnError, PriceArgs, CallVerdict;
      CallsCharged(env, db.View(), ctx.View(returnData), op, o, readOnly);
      if |ctx.stack| < o.MinStack() { return Some(StackUnderflow); }
      if |ctx.stack| > o.MaxStack() { return Some(StackOverflow); }
      if readOnly && env.rules.byzantium {
        if o.writes || (op == CALL && Back(ctx.stack, 2) != 0) { return Some(WriteProtection); }
      }
      var paid := ctx.UseGas(o.constantGas);
      if !paid { return Some(OutOfGas); }
      var needed := MemoryNeeded(op, ctx.stack);
      if needed.None? { return Some(GasUintOverflow); }
      var memorySize, overflow := SafeMul(WordCount(needed.value), 32);
      if overflow { return Some(GasUintOverflow); }
      err := ChargeDynamic(ctx, op, memorySize);
    }

    // ----- opcodes that stay inside the frame -----

    method ExecMemory(ctx: CallCtx, op: Byte) returns (err: Option<Error>)
      requires db.env == env && (op == SHA3 || IsCopy(op) || op == MSTORE || op == MSTORE8)
      requires Covered(ctx.View(returnData), op) && (op == MSTORE || op == MSTORE8 ==> |ctx.stack| >= 2)
      modifies ctx`stack, ctx`store
      ensures match MemoryOp(env, db.View(), old(ctx.View(returnData)), op)
              case Ok(f) => err == None && ctx.View(returnData).(pc := ctx.pc + 1) == f
              case Bad(e) => err == Some(e)
    {
      hide MemoryOp, Covered, MemoryNeeded;
      OperandRange(ctx.View(returnData), op);
      if IsCopy(op) {
        err := ExecCopy(ctx, op);
      } else {
        err := ExecWord(ctx, op);
      }
    }

    method ExecWord(ctx: CallCtx, op: Byte) returns (err: Option<Error>)
      requires db.env == env && (op == SHA3 || op == MSTORE || op == MSTORE8)
      requires Covered(ctx.View(returnData), op) && |ctx.stack| >= 2
      modifies ctx`stack, ctx`store
      ensures match MemoryOp(env, db.View(), old(ctx.View(returnData)), op)
              case Ok(f) => err == None && ctx.View(returnData).(pc := ctx.pc + 1) == f
              case Bad(e) => err == Some(e)
    {
      hide Write, Slice, BytesOfNat, Covered, MemoryNeeded, MemoryOp;
      WordOp(env, db.View(), ctx.View(returnData), op);
      err := None;
      if op == SHA3 {
        var offset := ctx.Pop();
        var size := ctx.Pop();
        var data := ctx.GetMemory(offset, size);
        ctx.Push(env.sha3(data));
      } else if op == MSTORE {
        var start := ctx.Pop();
        var val := ctx.Pop();
        ctx.SetMemory(start, 32, BytesOfNat(val, 32));
      } else {
        var off := ctx.Pop();
        var val := ctx.Pop();
        ctx.SetMemory(off, 1, [val % 256]);
      }
    }

    method ExecCopy(ctx: CallCtx, op: Byte) returns (err: Option<Error>)
      requires db.env == env && IsCopy(op) && Covered(ctx.View(returnData), op)
      modifies ctx`stack, ctx`store
      ensures match MemoryOp(env, db.View(), old(ctx.View(returnData)), op)
              case Ok(f) => err == None && ctx.View(returnData).(pc := ctx.pc + 1) == f
              case Bad(e) => err == Some(e)
    {
      hide Write, Slice, GetData, BytesOfNat, Covered, MemoryNeeded;
      OperandRange(ctx.View(returnData), op);
      if op == EXTCODECOPY {
        var a := ctx.Pop();
        err := CopyToMemory(ctx, op, db.GetAccount(ToAddress(a)).code);
      } else {
        err := CopyToMemory(ctx, op,
          if op == CALLDATACOPY then ctx.input else if op == CODECOPY then ctx.code else returnData);
      }
    }

    /** The copy opcodes once their source is known: destination, source offset and length on the stack. */
    method CopyToMemory(ctx: CallCtx, op: Byte, source: Bytes) returns (err: Option<Error>)
      requires |ctx.stack| >= 3 && IsCopy(op)
      requires Back(ctx.stack, 2) > 0 ==> Back(ctx.stack, 0) + Back(ctx.stack, 2) <= |ctx.store|
      modifies ctx`stack, ctx`store
      ensures var s := old(ctx.stack);
              if op == RETURNDATACOPY && (Back(s, 1) >= TWO_64 || Back(s, 1) + Back(s, 2) >= TWO_64
                                          || |source| < Back(s, 1) + Back(s, 2))
              then err == Some(ReturnDataOutOfBounds)
              else
                && err == None && ctx.stack == Drop(s, 3)
                && ctx.store == Write(old(ctx.store), Back(s, 0), Back(s, 2),
                     GetData(source, if op == RETURNDATACOPY then Back(s, 1) else Min(Back(s, 1), TWO_64 - 1), Back(s, 2)))
    {
      err := None;
      var memOffset := ctx.Pop();
      var dataOffset := ctx.Pop();
      var length := ctx.Pop();
      if op == RETURNDATACOPY {
        if dataOffset >= TWO_64 { return Some(ReturnDataOutOfBounds); }
        var end := dataOffset + length;
        if end >= TWO_64 || |source| < end { return Some(ReturnDataOutOfBounds); }
        ctx.SetMemory(memOffset, length, source[dataOffset..end]);
        assert source[dataOffset..end] == GetData(source, dataOffset, length);
      } else {
        ctx.SetMemory(memOffset, length, GetData(source, Min(dataOffset, TWO_64 - 1), length));
      }
    }

    /** JUMP, JUMPI and the subroutine opcodes. */
    method ExecJump(ctx: CallCtx, op: Byte, o: Operation) returns (err: Option<Error>)
      requires ctx.Valid() && FlowEntry(TableOf(env.rules), op) == Some(o) && |ctx.stack| >= o.pops && o.jumps
      modifies ctx, ctx.jumpdests
      ensures ctx.Valid()
      ensures match FlowOp(old(ctx.View(returnData)), op, o)
              case Ok(f) => err == None && ctx.View(returnData) == f
              case Bad(e) => err == Some(e)
    {
      hide ValidJump, TableOf, WordOfBytes, GetData, FlowEntry;
      JumpOps(TableOf(env.rules), op, o);
      err := None;
      if op == JUMPSUB && |ctx.returns_| >= RETURN_STACK_LIMIT { return Some(ReturnStackExceeded); }
      if op == RETURNSUB {
        if ctx.returns_ == [] { return Some(InvalidRetsub); }
        ctx.pc := ctx.returns_[|ctx.returns_| - 1] + 1;
        ctx.returns_ := ctx.returns_[..|ctx.returns_| - 1];
        return;
      }
      var pos := ctx.Pop();
      if op == JUMPI {
        var cond := ctx.Pop();
        if cond == 0 {
          ctx.pc := ctx.pc + 1;
          return;
        }
      }
      var ok := ctx.ValidJumpTo(pos, if op == JUMPSUB then BEGINSUB else JUMPDEST);
      if !ok { return Some(InvalidJump); }
      if op == JUMPSUB {
        ctx.returns_ := ctx.returns_ + [ctx.pc % TWO_32];
        ctx.pc := pos as int + 1;
      } else {
        ctx.pc := pos;
      }
    }

    /** POP, JUMPDEST, BEGINSUB, PUSH, DUP and SWAP. */
    method ExecStack(ctx: CallCtx, op: Byte, o: Operation) returns (err: Option<Error>)
      requires FlowEntry(TableOf(env.rules), op) == Some(o) && |ctx.stack| >= o.pops && !o.jumps
      modifies ctx`stack, ctx`pc
      ensures match FlowOp(old(ctx.View(returnData)), op, o)
              case Ok(f) => err == None && ctx.View(returnData) == f
              case Bad(e) => err == Some(e)
    {
      err := None;
      if op == POP {
        var _ := ctx.Pop();
      } else if op == BEGINSUB {
        err := Some(InvalidSubroutineEntry);
      } else if IsPush(op) {
        ctx.Push(WordOfBytes(GetData(ctx.code, ctx.pc + 1, PushSize(op))));
        ctx.pc := ctx.pc + PushSize(op);
      } else if IsDup(op) {
        ctx.DupItem(op - DUP1 + 1);
      } else if IsSwap(op) {
        ctx.SwapItem(op - SWAP1 + 2);
      }
      ctx.pc := ctx.pc + 1;
    }

    method ExecLocal(ctx: CallCtx, op: Byte, o: Operation) returns (err: Option<Error>)
      requires db.env == env && ctx.Valid() && Lookup(TableOf(env.rules), op) == Some(o) && !IsSystem(op)
      requires |ctx.stack| >= o.pops && Covered(ctx.View(returnData), op)
      modifies ctx, ctx.jumpdests
      ensures ctx.Valid()
      ensures match LocalOp(env, db.View(), old(ctx.View(returnData)), op, o)
              case Ok(f) => err == None && ctx.View(returnData) == f
              case Bad(e) => err == Some(e)
    {
      hide MemoryOp, FlowOp, EnvValue, QueryValue;
      err := None;
      if IsAlu(op) {
        var args := ctx.PopMany(o.pops);
        ctx.Push(env.alu(op, args));
        ctx.pc := ctx.pc + 1;
      } else if IsEnvPush(op) {
        ctx.Push(EnvValue(env, db.View(), ctx.View(returnData), op));
        ctx.pc := ctx.pc + 1;
      } else if IsQuery(op) {
        var answer := QueryValue(env, db.View(), ctx.View(returnData), op, Back(ctx.stack, 0));
        var _ := ctx.Pop();
        ctx.Push(answer);
        ctx.pc := ctx.pc + 1;
      } else if op == SHA3 || IsCopy(op) || op == MSTORE || op == MSTORE8 {
        err := ExecMemory(ctx, op);
        ctx.pc := ctx.pc + 1;
      } else {
        if o.jumps {
          err := ExecJump(ctx, op, o);
        } else {
          err := ExecStack(ctx, op, o);
        }
      }
    }
  
    // ----- opcodes that write state or end the frame -----

    method ExecStore(ctx: CallCtx, op: Byte)
      requires db.env == env && (op == SSTORE || IsLog(op)) && Covered(ctx.View(returnData), op)
      requires |ctx.stack| >= (if op == SSTORE then 2 else op - LOG0 + 2)
      modifies ctx`stack, ctx`pc, db`storage, db`logs
      ensures Next(db.View(), ctx.View(returnData)) == StoreOp(old(db.View()), old(ctx.View(returnData)), op)
      ensures old(db.logs) <= db.logs
    {
      ghost var s := ctx.stack;
      if op == SSTORE {
        var loc := ctx.Pop();
        var val := ctx.Pop();
        db.SetState(Slot(ctx.self, loc), val);
      } else {
        var start := ctx.Pop();
        var size := ctx.Pop();
        assert ctx.stack == Drop(s, 2);
        var topics := ctx.PopMany(op - LOG0);
        assert ctx.stack == Drop(s, op - LOG0 + 2);
        var data := ctx.GetMemory(start, size);
        db.AddLog(Log(ctx.self, topics, data));
      }
      ctx.pc := ctx.pc + 1;
    }

    method ExecHalt(ctx: CallCtx, op: Byte) returns (ret: Bytes, err: Option<Error>)
      requires db.env == env && IsHalt(op) && |ctx.stack| >= PriceArgs(op) && Covered(ctx.View(returnData), op)
      modifies ctx`stack, db`accounts, db`suicided
      ensures Ends(Halt(env, old(db.View()), old(ctx.View(returnData)), op), ctx, ret, err)
    {
      ret, err := [], None;
      if op == SELFDESTRUCT {
        var beneficiary := ctx.Pop();
        var balance := db.GetAccount(ctx.self).balance;
        db.AddBalance(ToAddress(beneficiary), balance);
        var _ := db.Suicide(ctx.self);
      } else if op != STOP {
        var offset := ctx.Pop();
        var size := ctx.Pop();
        ret := ctx.GetMemory(offset, size);
        if op == REVERT { err := Some(ExecutionReverted); }
      }
    }

    /** A frame has ended as the reference says: its output, error and gas, and its state if it kept it. */
    ghost predicate Ends(r: RunResult, ctx: CallCtx, ret: Bytes, err: Option<Error>)
      reads db, ctx
    {
      match r
      case Returned(w, g, out) => err == None && ret == out && ctx.gas == g && db.View() == w
      case Reverted(g, out) => err == Some(ExecutionReverted) && ret == out && ctx.gas == g
      case Failed(e) => err == Some(e) && ret == []
    }
  
    /** A step as the reference step says: on to the next state, or done with a result. */
    ghost predicate Follows(r: StepResult, ctx: CallCtx, done: bool, ret: Bytes, err: Option<Error>)
      reads this`returnData, db, ctx
    {
      match r
      case Next(w, f) => !done && db.View() == w && ctx.View(returnData) == f
      case Stop(result) => done && Ends(result, ctx, ret, err)
    }

    // ----- frames -----

    /** One iteration of the loop, as the reference step. */
    method Step(ctx: CallCtx) returns (done: bool, ret: Bytes, err: Option<Error>)
      requires db.env == env && ctx.Valid() && FrameSafe(env, ctx.View(returnData)) && Sound(env, db.View())
      modifies this`depth, this`readOnly, this`returnData, this`callGasTemp, db, ctx, ctx.jumpdests
      ensures depth == old(depth) && readOnly == old(readOnly)
      ensures ctx.Valid() && old(db.snapshots) <= db.snapshots && old(db.logs) <= db.logs
      ensures Follows(EvmSemantics.Step(env, old(db.View()), old(ctx.View(returnData)), depth, readOnly), ctx, done, ret, err)
      decreases ctx.gas, 2
    {
      hide Lookup, Charge, EvmSemantics.Execute, FrameSafe, Sound;
      done, ret := true, [];
      ghost var bound, w0, f0 := ctx.gas, db.View(), ctx.View(returnData);
      var op := OpAt(ctx.code, ctx.pc);
      var entry := Lookup(TableOf(env.rules), op);
      if entry.None? { return true, [], Some(InvalidOpcode); }
      var o := entry.value;
      FrameBounds(env, ctx.View(returnData));
      err := ChargeGas(ctx, op, o);
      if err.Some? { return; }
      if !IsCall(op) {
        ghost var c := Charge(env, w0, f0, op, o, readOnly);
        CallGasUnused(env, c.w, c.f, op, o, c.callGas, callGasTemp, depth, readOnly, bound);
      }
      done, ret, err := Execute(ctx, op, o, bound);
    }

    /** Executing an opcode that has been paid for. */
    method Execute(ctx: CallCtx, op: Byte, o: Operation, ghost bound: nat)
      returns (done: bool, ret: Bytes, err: Option<Error>)
      requires db.env == env && ctx.Valid() && Lookup(TableOf(env.rules), op) == Some(o)
      requires |ctx.stack| >= o.pops && Covered(ctx.View(returnData), op) && bound < TWO_64
      requires IsCall(op) || IsCreate(op) ==> Sound(env, db.View())
      requires IsCall(op) && Frozen(env, readOnly) ==> op == CALL ==> Back(ctx.stack, 2) == 0
      requires if IsHalt(op) then ctx.gas <= bound else ctx.gas < bound
      requires IsCall(op) ==> ctx.gas + CalleeGas(op, ctx.stack, callGasTemp) < bound
      modifies this`depth, this`readOnly, this`returnData, this`callGasTemp, db, ctx, ctx.jumpdests
      ensures depth == old(depth) && readOnly == old(readOnly)
      ensures ctx.Valid() && old(db.snapshots) <= db.snapshots && old(db.logs) <= db.logs
      ensures Follows(EvmSemantics.Execute(env, old(db.View()), old(ctx.View(returnData)), op, o, old(callGasTemp),
                        depth, readOnly, bound), ctx, done, ret, err)
      decreases bound, 1
    {
      hide Lookup, LocalOp, StoreOp, Halt, CallOp, CreateOp, Sound, Covered, Frozen, CalleeGas, InitGas;
      done, ret, err := false, [], None;
      SystemPops(TableOf(env.rules), op);
      if IsCall(op) {
        OpCall(ctx, op, bound);
      } else if IsCreate(op) {
        OpCreate(ctx, op, bound);
      } else {
        done, ret, err := ExecuteAlone(ctx, op, o, bound);
      }
    }

    /** Opcodes that start no other frame. */
    method ExecuteAlone(ctx: CallCtx, op: Byte, o: Operation, ghost bound: nat)
      returns (done: bool, ret: Bytes, err: Option<Error>)
      requires db.env == env && ctx.Valid() && Lookup(TableOf(env.rules), op) == Some(o)
      requires |ctx.stack| >= o.pops && Covered(ctx.View(returnData), op) && !IsCall(op) && !IsCreate(op)
      requires if IsHalt(op) then ctx.gas <= bound else ctx.gas < bound
      modifies db`accounts, db`suicided, db`storage, db`logs, ctx, ctx.jumpdests
      ensures ctx.Valid() && old(db.logs) <= db.logs
      ensures Follows(EvmSemantics.Execute(env, old(db.View()), old(ctx.View(returnData)), op, o, callGasTemp,
                        depth, readOnly, bound), ctx, done, ret, err)
    {
      hide Lookup, LocalOp, StoreOp, Halt;
      done, ret, err := false, [], None;
      SystemPops(TableOf(env.rules), op);
      if !IsSystem(op) {
        err := ExecLocal(ctx, op, o);
        done := err.Some?;
      } else if IsHalt(op) {
        done := true;
        ret, err := ExecHalt(ctx, op);
      } else {
        ExecStore(ctx, op);
      }
    }

    /** CALL, CALLCODE, DELEGATECALL and STATICCALL. */
    method OpCall(ctx: CallCtx, op: Byte, ghost bound: nat)
      requires db.env == env && ctx.Valid() && IsCall(op) && Covered(ctx.View(returnData), op)
      requires Sound(env, db.View()) && bound < TWO_64
      requires Frozen(env, readOnly) ==> op == CALL ==> Back(ctx.stack, 2) == 0
      requires ctx.gas + CalleeGas(op, ctx.stack, callGasTemp) < bound
      modifies this`depth, this`readOnly, this`returnData, this`callGasTemp, db, ctx, ctx.jumpdests
      ensures depth == old(depth) && readOnly == old(readOnly)
      ensures ctx.Valid() && old(db.snapshots) <= db.snapshots && old(db.logs) <= db.logs
      ensures Next(db.View(), ctx.View(returnData)) ==
              CallOp(env, old(db.View()), old(ctx.View(returnData)), op,
                     CalleeGas(op, old(ctx.stack), old(callGasTemp)), depth, readOnly)
      decreases bound, 0
    {
      hide Sound, CallMessage, Kept, MessageOf, MemoryNeeded, Frozen, CallOp, AfterCall;
      ghost var w, f := db.View(), ctx.View(returnData);
      var gas := CalleeGas(op, ctx.stack, callGasTemp);
      var m, off, size := TakeCall(ctx, op);
      CallKeeps(env, w, m, gas, depth, readOnly);
      var ret, left, err := Send(ctx, op, m, gas);
      Resume(ctx, op, off, size, ret, left, err, f);
      CallOpReturns(env, w, f, op, gas, depth, readOnly);
    }

    /** Pops the operands of a call opcode: the message it sends and where its output goes. */
    method TakeCall(ctx: CallCtx, op: Byte) returns (m: Message, off: Word, size: Word)
      requires IsCall(op) && Covered(ctx.View(returnData), op)
      modifies ctx`stack
      ensures m == MessageOf(old(ctx.View(returnData)), op)
      ensures m.kind == KindOf(op) && m.from == ctx.self && m.parentCaller == ctx.caller && m.parentValue == ctx.value
      ensures m.value == CallValue(op, old(ctx.stack))
      ensures var n := MemoryArgs(op);
              && ctx.stack == Drop(old(ctx.stack), n)
              && off == Back(old(ctx.stack), n - 2) && size == Back(old(ctx.stack), n - 1)
      ensures size > 0 ==> off + size <= |ctx.store|
    {
      CallRanges(ctx.View(returnData), op);
      hide MemoryNeeded, ToAddress;
      var k := if op == CALL || op == CALLCODE then 1 else 0;
      var args := ctx.PopMany(6 + k);
      var input := ctx.GetMemory(args[2 + k], args[3 + k]);
      m := Message(KindOf(op), ctx.self, ctx.caller, ctx.value, ToAddress(args[1]), input, if k == 1 then args[2] else 0);
      off, size := args[4 + k], args[5 + k];
    }

    /** Back in the caller: pushes the outcome, stores the output and takes the gas left over. */
    method Resume(
      ctx: CallCtx, op: Byte, off: Word, size: Word, ret: Bytes, left: nat, err: Option<Error>, ghost f: Frame)
      requires IsCall(op) && Covered(f, op) && (size > 0 ==> off + size <= |ctx.store|)
      requires off == Back(f.stack, MemoryArgs(op) - 2) && size == Back(f.stack, MemoryArgs(op) - 1)
      requires ctx.View(returnData) == f.(stack := Drop(f.stack, MemoryArgs(op)), returnData := returnData)
      modifies this`returnData, ctx`stack, ctx`store, ctx`gas, ctx`pc
      ensures ctx.View(returnData) == AfterCall(f, op, left, ret, err)
    {
      hide MemoryNeeded;
      ctx.Push(if err.None? then 1 else 0);
      if err.None? || err == Some(ExecutionReverted) { ctx.SetMemory(off, size, ret); }
      ctx.gas := ctx.gas + left;
      returnData := ret;
      ctx.pc := ctx.pc + 1;
    }

    /** Sends the message of a call opcode. */
    method Send(ctx: CallCtx, op: Byte, m: Message, gas: nat) returns (ret: Bytes, left: nat, err: Option<Error>)
      requires db.env == env && IsCall(op) && ctx.Valid() && Sound(env, db.View()) && gas < TWO_64
      requires m.kind == KindOf(op) && (op == DELEGATECALL || op == STATICCALL ==> m.value == 0)
      requires m.from == ctx.self && m.parentCaller == ctx.caller && m.parentValue == ctx.value
      modifies this`depth, this`readOnly, this`returnData, this`callGasTemp, db, ctx.jumpdests
      ensures depth == old(depth) && readOnly == old(readOnly)
      ensures ctx.Valid() && old(db.snapshots) <= db.snapshots && old(db.logs) <= db.logs
      ensures CallResult(db.View(), left, ret, err) == CallMessage(env, old(db.View()), m, gas, depth, readOnly)
      decreases gas, 7
    {
      hide Sound, CallMessage;
      var from := Sender(ctx.self, ctx.caller, ctx.value);
      if op == CALL {
        ret, left, err := Call(from, ctx.jumpdests, m.to, m.input, gas, m.value);
      } else if op == CALLCODE {
        ret, left, err := CallCode(from, ctx.jumpdests, m.to, m.input, gas, m.value);
      } else if op == DELEGATECALL {
        ret, left, err := DelegateCall(from, ctx.jumpdests, m.to, m.input, gas);
      } else {
        ret, left, err := StaticCall(from, ctx.jumpdests, m.to, m.input, gas);
      }
    }

    /** CREATE and CREATE2. */
    method OpCreate(ctx: CallCtx, op: Byte, ghost bound: nat)
      requires db.env == env && ctx.Valid() && IsCreate(op) && Covered(ctx.View(returnData), op)
      requires Sound(env, db.View()) && bound < TWO_64 && ctx.gas < bound && (op == CREATE2 ==> |ctx.stack| >= 4)
      modifies this`depth, this`readOnly, this`returnData, this`callGasTemp, db, ctx, ctx.jumpdests
      ensures depth == old(depth) && readOnly == old(readOnly)
      ensures ctx.Valid() && old(db.snapshots) <= db.snapshots && old(db.logs) <= db.logs
      ensures var f := old(ctx.View(returnData));
              var child := InitGas(env, op, f.gas);
              Next(db.View(), ctx.View(returnData)) ==
              CreateOp(env, old(db.View()), f.(gas := f.gas - child), op, child, depth, readOnly)
      decreases bound, 0
    {
      hide Sound, Kept, CreateContract, CreateOp, CreateTarget, InitCode, MemoryNeeded, AfterCreate;
      ghost var w := db.View();
      var gas := InitGas(env, op, ctx.gas);
      var _ := ctx.UseGas(gas);
      ghost var f := ctx.View(returnData);
      var value, code, salt := TakeCreate(ctx, op);
      var addr := CreateTarget(env, db.View(), ctx.self, op, salt, code);
      var hash := if op == CREATE then NoHash else Keccak(code);
      CreateKeeps(env, w, ctx.self, code, gas, value, addr, depth, readOnly);
      var ret, created, left, err := Create(ctx.self, ctx.jumpdests, code, hash, gas, value, addr);
      ResumeCreate(ctx, op, created, ret, left, err, f);
      CreateOpReturns(env, w, f, op, gas, depth, readOnly);
    }

    /** Back in the creator: pushes the address or zero and takes the gas left over. */
    method ResumeCreate(
      ctx: CallCtx, op: Byte, addr: Address, ret: Bytes, left: nat, err: Option<Error>, ghost f: Frame)
      requires IsCreate(op) && |f.stack| >= (if op == CREATE then 3 else 4)
      requires ctx.View(returnData) == f.(stack := Drop(f.stack, if op == CREATE then 3 else 4), returnData := returnData)
      modifies this`returnData, ctx`stack, ctx`gas, ctx`pc
      ensures ctx.View(returnData) == AfterCreate(env, f, op, addr, left, ret, err)
    {
      var kept := err.None? || (op == CREATE && !env.rules.homestead && err == Some(CodeStoreOutOfGas));
      ctx.Push(if kept then addr else 0);
      ctx.gas := ctx.gas + left;
      returnData := if err == Some(ExecutionReverted) then ret else [];
      ctx.pc := ctx.pc + 1;
    }

    /** Pops the operands of a creation opcode and reads the initialisation code. */
    method TakeCreate(ctx: CallCtx, op: Byte) returns (value: Word, code: Bytes, salt: Word)
      requires IsCreate(op) && Covered(ctx.View(returnData), op) && (op == CREATE2 ==> |ctx.stack| >= 4)
      modifies ctx`stack
      ensures code == InitCode(old(ctx.View(returnData)), op) && value == Back(old(ctx.stack), 0)
      ensures salt == if op == CREATE then 0 else Back(old(ctx.stack), 3)
      ensures ctx.stack == Drop(old(ctx.stack), if op == CREATE then 3 else 4)
    {
      CreateRange(ctx.View(returnData), op);
      hide MemoryNeeded;
      var args := ctx.PopMany(if op == CREATE then 3 else 4);
      value, salt := args[0], if op == CREATE then 0 else args[3];
      code := ctx.GetMemory(args[1], args[2]);
    }

    /** Gives the new account its nonce and its ether. */
    method EndowAccount(creator: Address, addr: Address, value: Word)
      requires db.env == env
      modifies db`accounts
      ensures db.View() == Endow(env, old(db.View()), creator, addr, value)
    {
      hide EvmWorld.SetNonce, AddBalance, SubBalance;
      if env.rules.eip158 { db.SetNonce(addr, 1); }
      db.SubBalance(creator, value);
      db.AddBalance(addr, value);
    }

    /** Creates a contract: bumps the creator's nonce, endows the address, runs the code and stores what it returns. */
    method Create(creator: Address, jumpdests: JumpdestCache, code: Bytes, hash: Hash, gas: nat, value: Word, addr: Address)
      returns (ret: Bytes, created: Address, left: nat, err: Option<Error>)
      requires db.env == env && jumpdests.Valid() && Sound(env, db.View()) && gas < TWO_64
      requires hash == NoHash || hash == Keccak(code)
      modifies this`depth, this`readOnly, this`returnData, this`callGasTemp, db, jumpdests
      ensures depth == old(depth) && readOnly == old(readOnly)
      ensures jumpdests.Valid() && old(db.snapshots) <= db.snapshots && old(db.logs) <= db.logs
      ensures CreateResult(db.View(), created, left, ret, err) ==
              CreateContract(env, old(db.View()), creator, code, gas, value, addr, depth, readOnly)
      ensures err.Some? && (env.rules.homestead || err != Some(CodeStoreOutOfGas)) ==>
                OnlyNonceDiffers(env, old(db.View()), db.View(), creator)
      decreases gas, 6
    {
      hide Sound, Kept, Initialise, Collides, Endow, OnlyNonceDiffers;
      SoundHashed(env, db.View());
      CreateAtomic(env, db.View(), creator, code, gas, value, addr, depth, readOnly);
      if depth > CALL_CREATE_DEPTH { return [], 0, gas, Some(Depth); }
      if db.GetAccount(creator).balance < value { return [], 0, gas, Some(InsufficientBalance); }
      ghost var w := db.View();
      db.SetNonce(creator, (db.GetAccount(creator).nonce + 1) % TWO_64);
      ghost var w0 := db.View();
      if Collides(env, db.View(), addr) { return [], 0, 0, Some(AddressCollision); }
      EndowedSound(env, w, creator, addr, value);
      var snapshot := db.TakeSnapshot();
      EndowAccount(creator, addr, value);
      created := addr;
      if env.noRecursion && depth > 0 { return [], addr, gas, None; }
      ret, left, err := RunInit(InitFrame(creator, addr, code, gas, value), hash, jumpdests, snapshot);
    }

    /** Runs an initialisation frame and stores the code it returns; a failure returns to the snapshot. */
    method RunInit(f: Frame, hash: Hash, jumpdests: JumpdestCache, snapshot: nat)
      returns (ret: Bytes, left: nat, err: Option<Error>)
      requires db.env == env && jumpdests.Valid() && Sound(env, db.View()) && f.gas < TWO_64
      requires hash == NoHash || hash == Keccak(f.code)
      requires f == InitFrame(f.caller, f.self, f.code, f.gas, f.value)
      requires snapshot < |db.snapshots| && db.snapshots[snapshot].logsSize <= |db.logs|
      modifies this`depth, this`readOnly, this`returnData, this`callGasTemp, db, jumpdests
      ensures depth == old(depth) && readOnly == old(readOnly) && jumpdests.Valid()
      ensures old(db.snapshots)[..snapshot] <= db.snapshots
      ensures old(db.logs[..db.snapshots[snapshot].logsSize]) <= db.logs
      ensures CreateResult(db.View(), f.self, left, ret, err) ==
              Initialise(env, old(db.Saved(snapshot)), old(db.View()), f, depth, readOnly)
      decreases f.gas, 5
    {
      hide Sound, EvmSemantics.Run, FrameSafe, Deploy;
      ghost var saved := db.Saved(snapshot);
      NewFrameSafe(env, Message(EvmSemantics.Call, 0, 0, 0, 0, [], 0), f.caller, f.self, f.value, f.code, f.gas);
      var ctx := new CallCtx(f, hash, jumpdests);
      ret, err := Run(ctx, false);
      assert db.Saved(snapshot) == saved;
      left, err := Deposit(ctx, f.self, snapshot, ret, err);
    }

    /** Ends a creation: stores the returned code if it fits and is paid for, else returns to the snapshot. */
    method Deposit(ctx: CallCtx, addr: Address, snapshot: nat, ret: Bytes, runErr: Option<Error>)
      returns (left: nat, err: Option<Error>)
      requires db.env == env && runErr != Some(CodeStoreOutOfGas)
      requires snapshot < |db.snapshots| && db.snapshots[snapshot].logsSize <= |db.logs|
      modifies db, ctx`gas
      ensures old(db.snapshots)[..snapshot] <= db.snapshots
      ensures old(db.logs[..db.snapshots[snapshot].logsSize]) <= db.logs
      ensures if runErr.None? then
                CreateResult(db.View(), addr, left, ret, err) ==
                Deploy(env, old(db.Saved(snapshot)), old(db.View()), addr, old(ctx.gas), ret)
              else
                && db.View() == old(db.Saved(snapshot)) && err == runErr
                && left == if runErr == Some(ExecutionReverted) then old(ctx.gas) else 0
    {
      err := runErr;
      var tooLong := env.rules.eip158 && |ret| > MAX_CODE_SIZE;
      if err.None? && !tooLong {
        var paid := ctx.UseGas(|ret| * CREATE_DATA_GAS);
        if paid {
          db.SetCode(addr, ret);
        } else {
          err := Some(CodeStoreOutOfGas);
        }
      }
      if tooLong || (err.Some? && (env.rules.homestead || err != Some(CodeStoreOutOfGas))) {
        var ok := db.RevertToSnapshot(snapshot);
        assert ok;
        if err != Some(ExecutionReverted) { ctx.gas := 0; }
      }
      if tooLong && err.None? { err := Some(MaxCodeSizeExceeded); }
      left := ctx.gas;
    }
  
    /** The interpreter loop. */
    method RunLoop(ctx: CallCtx) returns (ret: Bytes, err: Option<Error>)
      requires db.env == env && ctx.Valid() && FrameSafe(env, ctx.View(returnData)) && Sound(env, db.View())
      modifies this`depth, this`readOnly, this`returnData, this`callGasTemp, db, ctx, ctx.jumpdests
      ensures depth == old(depth) && readOnly == old(readOnly)
      ensures ctx.Valid() && old(db.snapshots) <= db.snapshots && old(db.logs) <= db.logs
      ensures Ends(Loop(env, old(db.View()), old(ctx.View(returnData)), depth, readOnly), ctx, ret, err)
      decreases ctx.gas, 3
    {
      hide FrameSafe, Sound, Kept, EvmSemantics.Step;
      var done := false;
      ret, err := [], None;
      while !done
        invariant depth == old(depth) && readOnly == old(readOnly) && (!done ==> ctx.gas <= old(ctx.gas))
        invariant ctx.Valid() && old(db.snapshots) <= db.snapshots && old(db.logs) <= db.logs
        invariant !done ==> FrameSafe(env, ctx.View(returnData)) && Sound(env, db.View())
        invariant var result := Loop(env, old(db.View()), old(ctx.View(returnData)), depth, readOnly);
                  if done then Ends(result, ctx, ret, err)
                  else Loop(env, db.View(), ctx.View(returnData), depth, readOnly) == result
        decreases !done, ctx.gas
      {
        ghost var w, f := db.View(), ctx.View(returnData);
        StepSafe(env, w, f, depth, readOnly);
        StepKeeps(env, w, f, depth, readOnly);
        done, ret, err := Step(ctx);
        if !done { KeptWeaken(env, w, db.View(), Frozen(env, readOnly)); }
      }
    }

    /** The interpreter: runs a contract to its end, as the reference frame. */
    method Run(ctx: CallCtx, asStatic: bool) returns (ret: Bytes, err: Option<Error>)
      requires db.env == env && ctx.Valid() && FrameSafe(env, ctx.View([])) && Sound(env, db.View())
      modifies this`depth, this`readOnly, this`returnData, this`callGasTemp, db, ctx, ctx.jumpdests
      ensures depth == old(depth) && readOnly == old(readOnly)
      ensures ctx.Valid() && old(db.snapshots) <= db.snapshots && old(db.logs) <= db.logs
      ensures Ends(EvmSemantics.Run(env, old(db.View()), old(ctx.View([])), old(depth), old(readOnly) || asStatic),
                   ctx, ret, err)
      decreases ctx.gas, 4
    {
      hide FrameSafe, Sound, Loop;
      depth := depth + 1;
      var entered := asStatic && !readOnly;
      if entered { readOnly := true; }
      returnData := [];
      ret, err := [], None;
      if |ctx.code| != 0 { ret, err := RunLoop(ctx); }
      depth := depth - 1;
      if entered { readOnly := false; }
    }
  
    // ----- calls and creations -----

    method RunPrecompiled(a: Address, input: Bytes, gas: nat) returns (ret: Bytes, left: nat, err: Option<Error>)
      ensures match Precompiled(env, a, input, gas)
              case NativeOk(g, out) => err == None && left == g && ret == out
              case NativeErr(e, out) => err == Some(e) && ret == out && e != ExecutionReverted
    {
      var cost := env.precompileGas(a, input);
      if gas < cost { return [], 0, Some(OutOfGas); }
      var run := env.precompileRun(a, input);
      return run.out, gas - cost, if run.failed then Some(PrecompileFailed) else None;
    }

    /** Reverts to the snapshot taken at entry; all gas is lost unless the callee asked for the revert. */
    method Undo(snapshot: nat, gas: nat, err: Error) returns (left: nat)
      requires snapshot < |db.snapshots| && db.snapshots[snapshot].logsSize <= |db.logs|
      modifies db
      ensures db.View() == old(db.Saved(snapshot)) && db.snapshots == old(db.snapshots)[..snapshot]
      ensures left == if err == ExecutionReverted then gas else 0
    {
      var ok := db.RevertToSnapshot(snapshot);
      assert ok;
      left := if err == ExecutionReverted then gas else 0;
    }

    /** Runs the callee of a message; an error returns to the snapshot taken at entry. */
    method DeliverMessage(m: Message, jumpdests: JumpdestCache, gas: nat, snapshot: nat)
      returns (ret: Bytes, left: nat, err: Option<Error>)
      requires db.env == env && jumpdests.Valid() && Sound(env, db.View()) && gas < TWO_64
      requires snapshot < |db.snapshots| && db.snapshots[snapshot].logsSize <= |db.logs|
      modifies this`depth, this`readOnly, this`returnData, this`callGasTemp, db, jumpdests
      ensures depth == old(depth) && readOnly == old(readOnly) && jumpdests.Valid()
      ensures old(db.snapshots)[..snapshot] <= db.snapshots
      ensures old(db.logs[..db.snapshots[snapshot].logsSize]) <= db.logs
      ensures CallResult(db.View(), left, ret, err) ==
              Deliver(env, old(db.Saved(snapshot)), old(db.View()), m, gas, depth, readOnly)
      decreases gas, 5
    {
      hide FrameSafe, Sound, EvmSemantics.Run, Precompiled;
      ghost var saved, logs := db.Saved(snapshot), db.logs;
      if env.isPrecompile(m.to) {
        ret, left, err := RunPrecompiled(m.to, m.input, gas);
      } else {
        var acct := db.GetAccount(m.to);
        assert acct.codeHash == Keccak(acct.code) by { SoundHash(env, db.View(), m.to); }
        NewFrameSafe(env, m, 0, 0, 0, acct.code, gas);
        var ctx := new CallCtx(NewFrame(m, acct.code, gas), acct.codeHash, jumpdests);
        ret, err := Run(ctx, m.kind.StaticCall?);
        left := ctx.gas;
      }
      assert db.Saved(snapshot) == saved;
      if err.Some? { left := Undo(snapshot, left, err.value); }
    }

    /** A message call with value: transfers, runs the callee, and undoes everything on an error. */
    method Call(from: Sender, jumpdests: JumpdestCache, to: Address, input: Bytes, gas: nat, value: Word)
      returns (ret: Bytes, left: nat, err: Option<Error>)
      requires db.env == env && jumpdests.Valid() && Sound(env, db.View()) && gas < TWO_64
      modifies this`depth, this`readOnly, this`returnData, this`callGasTemp, db, jumpdests
      ensures depth == old(depth) && readOnly == old(readOnly)
      ensures jumpdests.Valid() && old(db.snapshots) <= db.snapshots && old(db.logs) <= db.logs
      ensures CallResult(db.View(), left, ret, err) ==
              CallMessage(env, old(db.View()), MessageFrom(EvmSemantics.Call, from, to, input, value), gas, depth, readOnly)
      ensures err.Some? ==> db.View() == old(db.View())
      decreases gas, 6
    {
      hide Sound, Deliver, Exist, Transfer, Kept;
      if env.noRecursion && depth > 0 { return [], gas, None; }
      if depth > CALL_CREATE_DEPTH { return [], gas, Some(Depth); }
      if value != 0 && db.GetAccount(from.self).balance < value { return [], gas, Some(InsufficientBalance); }
      ghost var w := db.View();
      var m := MessageFrom(EvmSemantics.Call, from, to, input, value);
      var snapshot := db.TakeSnapshot();
      if !Exist(env, db.View(), to) {
        if !env.isPrecompile(to) && env.rules.eip158 && value == 0 { return [], gas, None; }
      }
      PrepareKept(env, w, m, false);
      MoveValue(from.self, to, value);
      KeptWeaken(env, w, db.View(), false);
      ret, left, err := DeliverMessage(m, jumpdests, gas, snapshot);
      CallAtomic(env, old(db.View()), m, gas, depth, readOnly);
    }
  
    method MoveValue(from: Address, to: Address, value: Word)
      requires db.env == env
      modifies db`accounts
      ensures db.View() == Transfer(env, old(db.View()), from, to, value)
    {
      db.SubBalance(from, value);
      db.AddBalance(to, value);
    }

    /** Runs the code of another account in the caller's context. */
    method CallCode(from: Sender, jumpdests: JumpdestCache, to: Address, input: Bytes, gas: nat, value: Word)
      returns (ret: Bytes, left: nat, err: Option<Error>)
      requires db.env == env && jumpdests.Valid() && Sound(env, db.View()) && gas < TWO_64
      modifies this`depth, this`readOnly, this`returnData, this`callGasTemp, db, jumpdests
      ensures depth == old(depth) && readOnly == old(readOnly)
      ensures jumpdests.Valid() && old(db.snapshots) <= db.snapshots && old(db.logs) <= db.logs
      ensures CallResult(db.View(), left, ret, err) ==
              CallMessage(env, old(db.View()), MessageFrom(EvmSemantics.CallCode, from, to, input, value), gas, depth, readOnly)
      ensures err.Some? ==> db.View() == old(db.View())
      decreases gas, 6
    {
      hide Sound, Deliver;
      if env.noRecursion && depth > 0 { return [], gas, None; }
      if depth > CALL_CREATE_DEPTH { return [], gas, Some(Depth); }
      if db.GetAccount(from.self).balance < value { return [], gas, Some(InsufficientBalance); }
      var snapshot := db.TakeSnapshot();
      var m := MessageFrom(EvmSemantics.CallCode, from, to, input, value);
      ret, left, err := DeliverMessage(m, jumpdests, gas, snapshot);
      CallAtomic(env, old(db.View()), m, gas, depth, readOnly);
    }

    /** Runs the code of another account in the caller's context, as the caller's own caller. */
    method DelegateCall(from: Sender, jumpdests: JumpdestCache, to: Address, input: Bytes, gas: nat)
      returns (ret: Bytes, left: nat, err: Option<Error>)
      requires db.env == env && jumpdests.Valid() && Sound(env, db.View()) && gas < TWO_64
      modifies this`depth, this`readOnly, this`returnData, this`callGasTemp, db, jumpdests
      ensures depth == old(depth) && readOnly == old(readOnly)
      ensures jumpdests.Valid() && old(db.snapshots) <= db.snapshots && old(db.logs) <= db.logs
      ensures CallResult(db.View(), left, ret, err) ==
              CallMessage(env, old(db.View()), MessageFrom(EvmSemantics.DelegateCall, from, to, input, 0), gas, depth, readOnly)
      ensures err.Some? ==> db.View() == old(db.View())
      decreases gas, 6
    {
      hide Sound, Deliver;
      if env.noRecursion && depth > 0 { return [], gas, None; }
      if depth > CALL_CREATE_DEPTH { return [], gas, Some(Depth); }
      var snapshot := db.TakeSnapshot();
      var m := MessageFrom(EvmSemantics.DelegateCall, from, to, input, 0);
      ret, left, err := DeliverMessage(m, jumpdests, gas, snapshot);
      CallAtomic(env, old(db.View()), m, gas, depth, readOnly);
    }

    /** A call that may not change the state. */
    method StaticCall(from: Sender, jumpdests: JumpdestCache, to: Address, input: Bytes, gas: nat)
      returns (ret: Bytes, left: nat, err: Option<Error>)
      requires db.env == env && jumpdests.Valid() && Sound(env, db.View()) && gas < TWO_64
      modifies this`depth, this`readOnly, this`returnData, this`callGasTemp, db, jumpdests
      ensures depth == old(depth) && readOnly == old(readOnly)
      ensures jumpdests.Valid() && old(db.snapshots) <= db.snapshots && old(db.logs) <= db.logs
      ensures CallResult(db.View(), left, ret, err) ==
              CallMessage(env, old(db.View()), MessageFrom(EvmSemantics.StaticCall, from, to, input, 0), gas, depth, readOnly)
      ensures err.Some? ==> db.View() == old(db.View())
      decreases gas, 6
    {
      hide Sound, Deliver;
      if env.noRecursion && depth > 0 { return [], gas, None; }
      if depth > CALL_CREATE_DEPTH { return [], gas, Some(Depth); }
      ghost var w := db.View();
      var snapshot := db.TakeSnapshot();
      var m := MessageFrom(EvmSemantics.StaticCall, from, to, input, 0);
      PrepareKept(env, w, m, false);
      db.AddBalance(to, 0);
      KeptWeaken(env, w, db.View(), false);
      ret, left, err := DeliverMessage(m, jumpdests, gas, snapshot);
      CallAtomic(env, old(db.View()), m, gas, depth, readOnly);
    }
  }
}
