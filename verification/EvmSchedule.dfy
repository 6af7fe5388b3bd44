/** The gas schedule in numbers: which opcodes there are, what they take and give, and exactly what they cost. */
module EvmSchedule {
  import opened Basics
  import opened EvmTypes
  import opened EvmTable
  import opened EvmWorld
  import opened EvmCode
  import opened EvmGas
  import opened EvmSemantics
  import opened EvmFrames
  import opened EvmTheorems
  import opened EvmOpcodes
  import opened EvmStateOps

  // ----- the table -----

  /** The fork that introduced an opcode. */
  function Introduced(op: Byte): Option<Fork>
  {
    if op == DELEGATECALL then Some(Homestead)
    else if op == RETURNDATASIZE || op == RETURNDATACOPY || op == STATICCALL || op == REVERT then Some(Byzantium)
    else if 0x1b <= op <= 0x1d || op == EXTCODEHASH || op == CREATE2 then Some(Constantinople)
    else if op == CHAINID || op == SELFBALANCE then Some(Istanbul)
    else if op == BEGINSUB || op == RETURNSUB || op == JUMPSUB then Some(YoloV2)
    else if op <= 0x0b || 0x10 <= op <= 0x1d || op == 0x20 || 0x30 <= op <= 0x3f || 0x40 <= op <= 0x47 then Some(Frontier)
    else if 0x50 <= op <= 0x5b || 0x60 <= op <= 0xa4 || 0xf0 <= op <= 0xf3 || op == 0xff then Some(Frontier)
    else None
  }

  /** How many items an opcode takes from the stack and how many it puts there. */
  function Takes(op: Byte): nat
  {
    if IsSwap(op) then op - SWAP1 + 2 else if IsDup(op) then op - DUP1 + 1 else if IsLog(op) then op - LOG0 + 2
    else if op == CALL || op == CALLCODE then 7
    else if op == DELEGATECALL || op == STATICCALL then 6
    else if op == EXTCODECOPY || op == CREATE2 then 4
    else if op == 0x08 || op == 0x09 || IsCopy(op) || op == CREATE then 3
    else if op == 0x15 || op == 0x19 || IsQuery(op) || op == POP || op == JUMP || op == JUMPSUB || op == SELFDESTRUCT then 1
    else if IsAlu(op) || op == SHA3 || op == MSTORE || op == MSTORE8 || op == SSTORE || op == JUMPI || op == RETURN || op == REVERT then 2
    else 0
  }

  function Gives(op: Byte): nat
  {
    if IsSwap(op) then op - SWAP1 + 2 else if IsDup(op) then op - DUP1 + 2
    else if IsAlu(op) || op == SHA3 || IsEnvPush(op) || IsQuery(op) || IsPush(op) || IsCreate(op) || IsCall(op) then 1
    else 0
  }

  /** The constant part of the cost. */
  function Base(t: Fork, op: Byte): nat
  {
    if op == STOP || op == RETURN || op == REVERT || op == SSTORE || op == EXP || IsLog(op) || op == SELFDESTRUCT then 0
    else if op == JUMPDEST then 1
    else if op == SELFBALANCE || op == RETURNSUB then 5
    else if IsEnvPush(op) || op == POP || op == BEGINSUB then 2
    else if op == 0x01 || op == 0x03 || 0x10 <= op <= 0x1d || op == CALLDATALOAD || op == MLOAD || op == MSTORE || op == MSTORE8
            || op == CALLDATACOPY || op == CODECOPY || op == RETURNDATACOPY || IsPush(op) || IsDup(op) || IsSwap(op) then 3
    else if op == 0x02 || 0x04 <= op <= 0x07 || op == SIGNEXTEND then 5
    else if op == 0x08 || op == 0x09 || op == JUMP then 8
    else if op == JUMPI || op == JUMPSUB then 10
    else if op == BLOCKHASH then 20
    else if op == SHA3 then 30
    else if op == BALANCE then (if t.Since(Istanbul) then 700 else if t.Since(Tangerine) then 400 else 20)
    else if op == SLOAD then (if t.Since(Istanbul) then 800 else if t.Since(Tangerine) then 200 else 50)
    else if op == EXTCODEHASH then (if t.Since(Istanbul) then 700 else 400)
    else if op == EXTCODESIZE || op == EXTCODECOPY then (if t.Since(Tangerine) then 700 else 20)
    else if IsCreate(op) then 32000
    else if IsCall(op) then (if t.Since(Tangerine) then 700 else 40)
    else 0
  }

  /** An entry says of an opcode what the numbers say. */
  predicate Agrees(t: Fork, op: Byte, entry: Option<Operation>)
  {
    && (entry.Some? <==> Introduced(op).Some? && t.Since(Introduced(op).value))
    && (entry.Some? ==>
          entry.value.constantGas == Base(t, op) && entry.value.pops == Takes(op) && entry.value.pushes == Gives(op))
  }

  lemma HaltInNumbers(t: Fork, op: Byte)
    requires IsHalt(op) || op == SSTORE || IsLog(op)
    ensures Agrees(t, op, SystemEntry(t, op))
  {
    hide IsAlu, IsEnvPush, IsQuery, IsCopy;
    Apart(op);
  }

  lemma FramesInNumbers(t: Fork, op: Byte)
    requires IsCreate(op) || IsCall(op)
    ensures Agrees(t, op, SystemEntry(t, op))
  {
    hide IsAlu, IsEnvPush, IsQuery, IsCopy;
    Apart(op);
  }

  /** Opcodes that write state, start a frame or end one are of no other family. */
  lemma Apart(op: Byte)
    requires IsSystem(op)
    ensures !IsAlu(op) && !IsEnvPush(op) && !IsQuery(op) && !IsCopy(op)
  {
  }

  lemma AluInNumbers(t: Fork, op: Byte)
    requires IsAlu(op)
    ensures Agrees(t, op, AluEntry(t, op))
  {
  }

  lemma EnvInNumbers(t: Fork, op: Byte)
    requires IsEnvPush(op)
    ensures Agrees(t, op, EnvEntry(t, op))
  {
    hide IsAlu, IsQuery, IsCopy, IsEnvPush;
    EnvApart(op);
    EnvIntroduced(op);
  }

  lemma EnvApart(op: Byte)
    requires IsEnvPush(op)
    ensures !IsAlu(op) && !IsQuery(op) && !IsCopy(op)
    ensures 0x30 <= op <= 0x47 || op == PC || op == MSIZE || op == GAS
    ensures op != EXTCODEHASH && op != EXTCODECOPY && op != RETURNDATACOPY
  {
  }

  lemma EnvIntroduced(op: Byte)
    requires IsEnvPush(op)
    ensures Introduced(op) ==
            Some(if op == RETURNDATASIZE then Byzantium else if op == CHAINID || op == SELFBALANCE then Istanbul else Frontier)
  {
  }

  lemma QueryInNumbers(t: Fork, op: Byte)
    requires IsQuery(op)
    ensures Agrees(t, op, EnvEntry(t, op))
  {
    hide IsAlu, IsEnvPush;
    QueryApart(op);
  }

  lemma QueryApart(op: Byte)
    requires IsQuery(op)
    ensures !IsAlu(op) && !IsEnvPush(op)
  {
  }

  lemma MemoryInNumbers(t: Fork, op: Byte)
    requires op == SHA3 || IsCopy(op) || op == MSTORE || op == MSTORE8
    ensures Agrees(t, op, MemoryEntry(t, op))
  {
    hide IsAlu, IsEnvPush, IsQuery;
    MemoryApart(op);
  }

  lemma MemoryApart(op: Byte)
    requires op == SHA3 || IsCopy(op) || op == MSTORE || op == MSTORE8
    ensures !IsAlu(op) && !IsEnvPush(op) && !IsQuery(op)
  {
  }

  lemma FlowInNumbers(t: Fork, op: Byte)
    requires !IsSystem(op) && !IsAlu(op) && !IsEnvPush(op) && !IsQuery(op)
    requires op != SHA3 && !IsCopy(op) && op != MSTORE && op != MSTORE8
    ensures Agrees(t, op, FlowEntry(t, op))
  {
  }

  /** The table has exactly these opcodes, with these numbers. */
  lemma TableInNumbers(t: Fork, op: Byte)
    ensures Agrees(t, op, Lookup(t, op))
  {
    hide Agrees, SystemEntry, AluEntry, EnvEntry, MemoryEntry, FlowEntry;
    if IsSystem(op) {
      if IsCreate(op) || IsCall(op) {
        FramesInNumbers(t, op);
      } else {
        HaltInNumbers(t, op);
      }
    } else if IsAlu(op) {
      AluInNumbers(t, op);
    } else if IsEnvPush(op) {
      EnvInNumbers(t, op);
    } else if IsQuery(op) {
      QueryInNumbers(t, op);
    } else if op == SHA3 || IsCopy(op) || op == MSTORE || op == MSTORE8 {
      MemoryInNumbers(t, op);
    } else {
      FlowInNumbers(t, op);
    }
  }

  // ----- memory -----

  /** The ranges of memory an opcode names, as offset and length. */
  function Ranges(op: Byte, s: seq<Word>): (rs: seq<(nat, nat)>)
    requires |s| >= Takes(op)
    ensures |rs| <= 2
  {
    var n := |s|;
    if op == MLOAD || op == MSTORE then [(s[n - 1], 32)]
    else if op == MSTORE8 then [(s[n - 1], 1)]
    else if op == SHA3 || op == RETURN || op == REVERT || IsLog(op) then [(s[n - 1], s[n - 2])]
    else if IsCreate(op) then [(s[n - 2], s[n - 3])]
    else if op == EXTCODECOPY then [(s[n - 2], s[n - 4])]
    else if IsCopy(op) then [(s[n - 1], s[n - 3])]
    else if op == CALL || op == CALLCODE then [(s[n - 4], s[n - 5]), (s[n - 6], s[n - 7])]
    else if op == DELEGATECALL || op == STATICCALL then [(s[n - 3], s[n - 4]), (s[n - 5], s[n - 6])]
    else []
  }

  /** The end of a range; an empty one ends nowhere. */
  function End(r: (nat, nat)): nat { if r.1 == 0 then 0 else r.0 + r.1 }

  function Reach(rs: seq<(nat, nat)>): nat
    requires |rs| <= 2
  {
    if rs == [] then 0 else if |rs| == 1 || End(rs[0]) > End(rs[1]) then End(rs[0]) else End(rs[1])
  }

  /** The memory an opcode needs reaches to the end of its ranges, if that fits 64 bits. */
  lemma NeededInNumbers(op: Byte, s: seq<Word>)
    requires |s| >= Takes(op) && |s| >= MemoryArgs(op)
    ensures MemoryNeeded(op, s) == if Reach(Ranges(op, s)) < TWO_64 then Some(Reach(Ranges(op, s))) else None
  {
  }

  /** What growing the memory to a size costs: the difference of the fees 3w + w*w/512 for w words. */
  function GrowthCost(f: Frame, need: nat): nat
  {
    var (words, now) := (WordCount(need), |f.store| / 32);
    if words <= now then 0 else (3 * words + words * words / 512) - Min(3 * now + now * now / 512, 3 * words + words * words / 512)
  }

  // ----- the cost of an opcode that starts no call -----

  /** Bytes a number takes. */
  function SizeInBytes(n: nat): nat { if n == 0 then 0 else 1 + SizeInBytes(n / 256) }

  /** What an opcode costs beyond its constant part and the growth of memory. */
  function Extra(env: Env, w: World, f: Frame, op: Byte): nat
    requires |f.stack| >= Takes(op) && !IsCall(op)
  {
    var (s, n) := (f.stack, |f.stack|);
    if op == EXP then 10 + SizeInBytes(s[n - 2]) * (if TableOf(env.rules).Since(Spurious) then 50 else 10)
    else if op == SHA3 then 6 * WordCount(s[n - 2])
    else if op == CREATE2 then 6 * WordCount(s[n - 3])
    else if op == EXTCODECOPY then 3 * WordCount(s[n - 4])
    else if IsCopy(op) then 3 * WordCount(s[n - 3])
    else if IsLog(op) then 375 * (op - LOG0 + 1) + 8 * (s[n - 2] as nat)
    else if op == SSTORE then
      var slot := Slot(f.self, s[n - 1]);
      SstoreMeter(env.rules, Committed(env, slot), State(env, w, slot), s[n - 2]).cost
    else if op == SELFDESTRUCT then SelfdestructCost(env, w, f.self, s[n - 1] % TWO_160)
    else 0
  }

  /** Free before EIP-150; then 5000, and 25000 more for an heir that is new. */
  function SelfdestructCost(env: Env, w: World, self: Address, heir: Address): nat
  {
    if !env.rules.eip150 then 0
    else if (if env.rules.eip158 then Empty(env, w, heir) && Balance(env, w, self) != 0 else !Exist(env, w, heir)) then 30000
    else 5000
  }

  /** An SSTORE may run: since Istanbul with more than 2300 gas, and only if the refund it takes back is there. */
  predicate StoreAllowed(env: Env, w: World, f: Frame)
    requires |f.stack| >= 2
  {
    var slot := Slot(f.self, f.stack[|f.stack| - 1]);
    && (TableOf(env.rules).Since(Istanbul) ==> f.gas > 2300)
    && SstoreMeter(env.rules, Committed(env, slot), State(env, w, slot), f.stack[|f.stack| - 2]).sub <= w.refund
  }

  predicate Writes(op: Byte) { op == SSTORE || IsLog(op) || IsCreate(op) || op == SELFDESTRUCT }

  /** The total cost. */
  function Cost(env: Env, w: World, f: Frame): nat
    requires var op := OpAt(f.code, f.pc); |f.stack| >= Takes(op) && !IsCall(op)
  {
    var op := OpAt(f.code, f.pc);
    Base(TableOf(env.rules), op) + GrowthCost(f, Reach(Ranges(op, f.stack))) + Extra(env, w, f, op)
  }

  /** Everything an opcode asks for before it runs. */
  predicate Affords(env: Env, w: World, f: Frame, readOnly: bool)
    requires !IsCall(OpAt(f.code, f.pc))
  {
    var op := OpAt(f.code, f.pc);
    && Introduced(op).Some? && TableOf(env.rules).Since(Introduced(op).value)
    && Takes(op) <= |f.stack| && |f.stack| - Takes(op) + Gives(op) <= 1024
    && !(readOnly && env.rules.byzantium && Writes(op))
    && Reach(Ranges(op, f.stack)) <= 0x1F_FFFF_FFE0
    && (op == SSTORE ==> StoreAllowed(env, w, f))
    && Cost(env, w, f) <= f.gas
  }

  lemma {:induction false} SameByteLength(n: nat)
    ensures ByteLength(n) == SizeInBytes(n)
  {
    if n > 0 {
      SameByteLength(n / 256);
    }
  }

  /** The growth of a safe memory, in numbers. */
  lemma GrowthInNumbers(f: Frame, need: nat)
    requires MemorySafe(f)
    ensures MemoryGas(f, WordCount(need) * 32) ==
            if need <= 0x1F_FFFF_FFE0 then Some(Growth(GrowthCost(f, need), MemoryGas(f, WordCount(need) * 32).value.total)) else None
  {
    var (words, now) := (WordCount(need), |f.store| / 32);
    GrowthExact(f, need);
    if need <= 0x1F_FFFF_FFE0 && words > now {
      MemoryFeeBounds(now, words);
    }
  }

  lemma DataPriceInNumbers(w: World, f: Frame, op: Byte, g: Growth)
    requires |f.stack| >= Takes(op) && |f.stack| >= MemoryArgs(op)
    requires op == SHA3 || op == CREATE2 || IsCopy(op) || IsLog(op)
    requires Reach(Ranges(op, f.stack)) < TWO_64
    ensures forall env :: DataPrice(w, f, op, g) == Price(g.fee + Extra(env, w, f, op), g.total, w.refund, 0)
  {
  }

  /** The dynamic price in numbers. */
  lemma PriceInNumbers(env: Env, w: World, f: Frame, op: Byte, need: nat)
    requires MemorySafe(f) && !IsCall(op) && |f.stack| >= Takes(op) && |f.stack| >= PriceArgs(op)
    requires need == Reach(Ranges(op, f.stack)) < TWO_64
    ensures var p := DynamicPrice(env, w, f, op, WordCount(need) * 32);
            && (p.Price? <==> need <= 0x1F_FFFF_FFE0 && (op == SSTORE ==> StoreAllowed(env, w, f)))
            && (p.Price? ==> p.cost == GrowthCost(f, need) + Extra(env, w, f, op))
  {
    hide MemoryGas, GrowthCost, SstoreMeter, State, Committed, Exist, Empty, Balance;
    GrowthInNumbers(f, need);
    if op == EXP {
      SameByteLength(f.stack[|f.stack| - 2]);
    } else if op == SHA3 || op == CREATE2 || IsCopy(op) || IsLog(op) {
      if need <= 0x1F_FFFF_FFE0 {
        DataPriceInNumbers(w, f, op, MemoryGas(f, WordCount(need) * 32).value);
      }
    }
    NoGrowth(f);
  }

  lemma NoGrowth(f: Frame)
    ensures GrowthCost(f, 0) == 0
  {
  }

  lemma CostApart(env: Env, w: World, f: Frame, op: Byte, gas: nat)
    requires |f.stack| >= Takes(op) && !IsCall(op)
    ensures Extra(env, w, f.(gas := gas), op) == Extra(env, w, f, op)
    ensures forall need :: GrowthCost(f.(gas := gas), need) == GrowthCost(f, need)
  {
    hide SstoreMeter, State, Committed, SelfdestructCost;
  }

  /** A frame pays for an opcode that starts no call exactly when it affords it, and pays exactly its cost. */
  lemma PaysExactly(env: Env, w: World, f: Frame, readOnly: bool)
    requires MemorySafe(f) && !IsCall(OpAt(f.code, f.pc))
    ensures Pays(env, w, f, readOnly) <==> Affords(env, w, f, readOnly)
    ensures Affords(env, w, f, readOnly) ==>
              Pays(env, w, f, readOnly) && PaidFrame(env, w, f, readOnly).gas == f.gas - Cost(env, w, f)
  {
    hide Lookup, MemoryNeeded, Settle, Takes, Gives, Introduced, Base, Ranges, Reach, Extra, GrowthCost, StoreAllowed, Charge;
    var op := OpAt(f.code, f.pc);
    EntryInNumbers(TableOf(env.rules), op);
    ChargeInNumbers(env, w, f, readOnly);
    if Lookup(TableOf(env.rules), op).Some? && Takes(op) <= |f.stack| && Base(TableOf(env.rules), op) <= f.gas {
      SmallReach(Reach(Ranges(op, f.stack)));
      if Reach(Ranges(op, f.stack)) < TWO_64 {
        SettledInNumbers(env, w, f, op, Base(TableOf(env.rules), op));
      }
    }
  }

  /** The checks that come before the dynamic part; only CALL is checked for the value it moves. */
  predicate Reaches(env: Env, f: Frame, op: Byte, readOnly: bool)
  {
    && Introduced(op).Some? && TableOf(env.rules).Since(Introduced(op).value)
    && Takes(op) <= |f.stack| && |f.stack| - Takes(op) + Gives(op) <= 1024
    && !(readOnly && env.rules.byzantium && (Writes(op) || (op == CALL && |f.stack| >= 3 && f.stack[|f.stack| - 3] != 0)))
    && Base(TableOf(env.rules), op) <= f.gas
    && Reach(Ranges(op, f.stack)) < TWO_64 && WordCount(Reach(Ranges(op, f.stack))) * 32 < TWO_64
  }

  /** Paying is passing the checks and paying the dynamic part. */
  lemma ChargeInNumbers(env: Env, w: World, f: Frame, readOnly: bool)
    ensures var op := OpAt(f.code, f.pc);
            if !Reaches(env, f, op, readOnly) then !Pays(env, w, f, readOnly)
            else
              var constant := Base(TableOf(env.rules), op);
              var size := WordCount(Reach(Ranges(op, f.stack))) * 32;
              && |f.stack| >= PriceArgs(op) && Lookup(TableOf(env.rules), op).Some?
              && Charge(env, w, f, op, Entry(env, f), readOnly) == Settle(env, w, f.(gas := f.gas - constant), op, size)
  {
    hide Lookup, MemoryNeeded, Settle, Takes, Gives, Introduced, Base, Ranges, Reach;
    var op := OpAt(f.code, f.pc);
    EntryInNumbers(TableOf(env.rules), op);
    if Lookup(TableOf(env.rules), op).Some? && Takes(op) <= |f.stack| {
      NeededInNumbers(op, f.stack);
    }
    CallItems(op);
  }

  /** Why a frame that does not pay fails: the first of the checks, in this order, that it does not pass. */
  function Refusal(env: Env, w: World, f: Frame, op: Byte, readOnly: bool): Error
  {
    if !(Introduced(op).Some? && TableOf(env.rules).Since(Introduced(op).value)) then InvalidOpcode
    else if |f.stack| < Takes(op) then StackUnderflow
    else if |f.stack| - Takes(op) + Gives(op) > 1024 then StackOverflow
    else if readOnly && env.rules.byzantium && (Writes(op) || (op == CALL && |f.stack| >= 3 && f.stack[|f.stack| - 3] != 0)) then
      WriteProtection
    else if f.gas < Base(TableOf(env.rules), op) then OutOfGas
    else if Reach(Ranges(op, f.stack)) >= TWO_64 || WordCount(Reach(Ranges(op, f.stack))) * 32 >= TWO_64 then GasUintOverflow
    else if op == SSTORE && |f.stack| >= 2 && RefundMissing(env, w, f) then RefundPanic
    else OutOfGas
  }

  /** An SSTORE with enough gas to be looked at takes back a refund that is not there. */
  predicate RefundMissing(env: Env, w: World, f: Frame)
    requires |f.stack| >= 2
  {
    var slot := Slot(f.self, f.stack[|f.stack| - 1]);
    && (TableOf(env.rules).Since(Istanbul) ==> f.gas > 2300)
    && SstoreMeter(env.rules, Committed(env, slot), State(env, w, slot), f.stack[|f.stack| - 2]).sub > w.refund
  }

  lemma FailsExactly(env: Env, w: World, f: Frame, depth: nat, readOnly: bool)
    requires !Pays(env, w, f, readOnly)
    ensures Step(env, w, f, depth, readOnly) == Stop(Failed(Refusal(env, w, f, OpAt(f.code, f.pc), readOnly)))
  {
    hide Lookup, Charge, Execute, Refusal;
    var op := OpAt(f.code, f.pc);
    if Lookup(TableOf(env.rules), op).None? {
      NotIntroduced(env, w, f, op, readOnly);
    } else {
      FaultInNumbers(env, w, f, op, Entry(env, f), readOnly);
    }
  }

  lemma NotIntroduced(env: Env, w: World, f: Frame, op: Byte, readOnly: bool)
    requires Lookup(TableOf(env.rules), op).None?
    ensures Refusal(env, w, f, op, readOnly) == InvalidOpcode
  {
    hide Lookup, Takes, Gives, Introduced, Base, Ranges, Reach, RefundMissing;
    EntryInNumbers(TableOf(env.rules), op);
  }

  lemma FaultInNumbers(env: Env, w: World, f: Frame, op: Byte, o: Operation, readOnly: bool)
    requires Lookup(TableOf(env.rules), op) == Some(o) && Charge(env, w, f, op, o, readOnly).Fault?
    ensures Charge(env, w, f, op, o, readOnly).err == Refusal(env, w, f, op, readOnly)
  {
    hide Lookup, MemoryNeeded, Settle, Takes, Gives, Introduced, Base, Ranges, Reach, RefundMissing, WordCount;
    EntryInNumbers(TableOf(env.rules), op);
    CallItems(op);
    StoreItems(op);
    if Takes(op) <= |f.stack| {
      NeededInNumbers(op, f.stack);
      if Base(TableOf(env.rules), op) <= f.gas {
        PanicExactly(env, w, f, op, Base(TableOf(env.rules), op), WordCount(Reach(Ranges(op, f.stack))) * 32);
      }
    }
  }

  lemma PanicExactly(env: Env, w: World, f: Frame, op: Byte, constant: nat, size: nat)
    requires |f.stack| >= PriceArgs(op) && constant <= f.gas && (op == SSTORE ==> constant == 0)
    ensures var r := Settle(env, w, f.(gas := f.gas - constant), op, size);
            r.Fault? ==> r.err == if op == SSTORE && |f.stack| >= 2 && RefundMissing(env, w, f) then RefundPanic else OutOfGas
  {
    hide State, Committed, SstoreMeter;
  }

  lemma StoreItems(op: Byte)
    ensures op == SSTORE ==> Takes(op) == 2
  {
  }

  lemma CallItems(op: Byte)
    ensures op == CALL ==> Takes(op) == 7
  {
  }

  lemma EntryInNumbers(t: Fork, op: Byte)
    ensures Lookup(t, op).Some? <==> Introduced(op).Some? && t.Since(Introduced(op).value)
    ensures Lookup(t, op).Some? ==>
              var o := Lookup(t, op).value;
              && o.constantGas == Base(t, op) && o.pops == Takes(op) && o.pushes == Gives(op) && (o.writes <==> Writes(op))
              && PriceArgs(op) <= Takes(op) && MemoryArgs(op) <= Takes(op)
    ensures op == SSTORE ==> Base(t, op) == 0
  {
    TableInNumbers(t, op);
    hide Lookup, Takes, Gives;
  }

  lemma SmallReach(need: nat)
    ensures need <= 0x1F_FFFF_FFE0 ==> WordCount(need) * 32 < TWO_64
    ensures WordCount(need) * 32 >= TWO_64 ==> need > 0x1F_FFFF_FFE0
  {
  }

  /** The dynamic part of the charge, in numbers. */
  lemma SettledInNumbers(env: Env, w: World, f: Frame, op: Byte, constant: nat)
    requires MemorySafe(f) && !IsCall(op) && |f.stack| >= Takes(op) && |f.stack| >= PriceArgs(op) && constant <= f.gas
    requires Reach(Ranges(op, f.stack)) < TWO_64 && (op == SSTORE ==> constant == 0)
    ensures var need := Reach(Ranges(op, f.stack));
            var r := Settle(env, w, f.(gas := f.gas - constant), op, WordCount(need) * 32);
            && (r.Paid? <==>
                  && need <= 0x1F_FFFF_FFE0 && (op == SSTORE ==> StoreAllowed(env, w, f))
                  && constant + GrowthCost(f, need) + Extra(env, w, f, op) <= f.gas)
            && (r.Paid? ==> r.f.gas == f.gas - (constant + GrowthCost(f, need) + Extra(env, w, f, op)))
  {
    hide DynamicPrice, Takes, Ranges, Reach, Extra, GrowthCost;
    CostApart(env, w, f, op, f.gas - constant);
    PriceInNumbers(env, w, f.(gas := f.gas - constant), op, Reach(Ranges(op, f.stack)));
  }

  // ----- the cost of a call -----

  /** Growth of memory, 9000 for moving value, and 25000 for a new account. */
  function CallCost(env: Env, w: World, f: Frame, op: Byte): nat
    requires IsCall(op) && |f.stack| >= Takes(op)
  {
    var (s, n) := (f.stack, |f.stack|);
    var moves := (op == CALL || op == CALLCODE) && s[n - 3] != 0;
    var a := s[n - 2] % TWO_160;
    var isNew := op == CALL && if env.rules.eip158 then moves && Empty(env, w, a) else !Exist(env, w, a);
    GrowthCost(f, Reach(Ranges(op, s))) + (if moves then 9000 else 0) + (if isNew then 25000 else 0)
  }

  /** Everything a call opcode asks for before it is sent; before EIP-150 also all the gas it asks for. */
  predicate AffordsCall(env: Env, w: World, f: Frame, readOnly: bool)
    requires IsCall(OpAt(f.code, f.pc))
  {
    var op := OpAt(f.code, f.pc);
    && Introduced(op).Some? && TableOf(env.rules).Since(Introduced(op).value)
    && Takes(op) <= |f.stack| && |f.stack| - Takes(op) + Gives(op) <= 1024
    && !(readOnly && env.rules.byzantium && op == CALL && f.stack[|f.stack| - 3] != 0)
    && Reach(Ranges(op, f.stack)) <= 0x1F_FFFF_FFE0
    && var requested := f.stack[|f.stack| - 1];
       && (!env.rules.eip150 ==> requested < TWO_64)
       && Base(TableOf(env.rules), op) + CallCost(env, w, f, op) + (if env.rules.eip150 then 0 else requested) <= f.gas
  }

  /** The gas set aside for the callee: what it asks for, since EIP-150 at most all but a 64th of what is left. */
  function SetAside(env: Env, w: World, f: Frame): nat
    requires var op := OpAt(f.code, f.pc);
             IsCall(op) && |f.stack| >= Takes(op) && Base(TableOf(env.rules), op) + CallCost(env, w, f, op) <= f.gas
  {
    var op := OpAt(f.code, f.pc);
    var left := f.gas - Base(TableOf(env.rules), op) - CallCost(env, w, f, op);
    if env.rules.eip150 then Min(f.stack[|f.stack| - 1], left - left / 64) else f.stack[|f.stack| - 1]
  }

  lemma SurchargeInNumbers(env: Env, w: World, f: Frame, op: Byte)
    requires IsCall(op) && |f.stack| >= Takes(op)
    ensures CallCost(env, w, f, op) == GrowthCost(f, Reach(Ranges(op, f.stack)))
            + CallSurcharge(env, w, op, f.stack[|f.stack| - 2], CallValue(op, f.stack))
  {
    hide Exist, Empty, GrowthCost, Reach, Ranges;
  }

  /** Before EIP-150 a call takes all the gas it asks for. */
  lemma LegacyCallSettled(env: Env, w: World, f: Frame, op: Byte, size: nat)
    requires IsCall(op) && |f.stack| >= PriceArgs(op) && !env.rules.eip150
    ensures var r := Settle(env, w, f, op, size);
            var requested := f.stack[|f.stack| - 1];
            match MemoryGas(f, size)
            case None => r == Fault(OutOfGas)
            case Some(g) =>
              var base := g.fee + CallSurcharge(env, w, op, Back(f.stack, 1), CallValue(op, f.stack));
              if requested < TWO_64 && base + requested <= f.gas then
                r.Paid? && r.callGas == requested && r.f.gas == f.gas - base - requested && r.w == w
              else r == Fault(OutOfGas)
  {
    hide MemoryGas, CallSurcharge, SstorePrice, SelfdestructPrice, DataPrice;
  }

  /** The dynamic part of a call, in numbers. */
  lemma CallSettledInNumbers(env: Env, w: World, f: Frame, op: Byte, constant: nat)
    requires MemorySafe(f) && IsCall(op) && |f.stack| >= Takes(op) && |f.stack| >= PriceArgs(op) && constant <= f.gas < TWO_64
    requires Reach(Ranges(op, f.stack)) < TWO_64
    ensures var (need, requested) := (Reach(Ranges(op, f.stack)), f.stack[|f.stack| - 1]);
            var r := Settle(env, w, f.(gas := f.gas - constant), op, WordCount(need) * 32);
            var cost := constant + CallCost(env, w, f, op);
            && (r.Paid? <==>
                  && need <= 0x1F_FFFF_FFE0 && (!env.rules.eip150 ==> requested < TWO_64)
                  && cost + (if env.rules.eip150 then 0 else requested) <= f.gas)
            && (r.Paid? ==>
                  var left := f.gas - cost;
                  && r.callGas == (if env.rules.eip150 then Min(requested, left - left / 64) else requested)
                  && r.f.gas == left - r.callGas)
  {
    hide Settle, MemoryGas, CallSurcharge, CallCost, GrowthCost, Reach, Ranges, Takes;
    var f1 := f.(gas := f.gas - constant);
    var need := Reach(Ranges(op, f.stack));
    GrowthApart(f, f1.gas, WordCount(need) * 32);
    GrowthInNumbers(f, need);
    SurchargeInNumbers(env, w, f, op);
    if env.rules.eip150 {
      CallSettled(env, w, f1, op, WordCount(need) * 32);
    } else {
      LegacyCallSettled(env, w, f1, op, WordCount(need) * 32);
    }
  }

  /** A frame pays for a call opcode exactly when it affords it; what it pays is the cost and what it sets aside. */
  lemma PaysCallExactly(env: Env, w: World, f: Frame, readOnly: bool)
    requires MemorySafe(f) && f.gas < TWO_64 && IsCall(OpAt(f.code, f.pc))
    ensures Pays(env, w, f, readOnly) <==> AffordsCall(env, w, f, readOnly)
    ensures AffordsCall(env, w, f, readOnly) ==>
              var op := OpAt(f.code, f.pc);
              && Pays(env, w, f, readOnly)
              && Charge(env, w, f, op, Entry(env, f), readOnly).callGas == SetAside(env, w, f)
              && PaidFrame(env, w, f, readOnly).gas ==
                   f.gas - Base(TableOf(env.rules), op) - CallCost(env, w, f, op) - SetAside(env, w, f)
  {
    hide Lookup, MemoryNeeded, Settle, Takes, Gives, Introduced, Base, Ranges, Reach, CallCost, Charge;
    var op := OpAt(f.code, f.pc);
    EntryInNumbers(TableOf(env.rules), op);
    CallTakes(op);
    ChargeInNumbers(env, w, f, readOnly);
    if Lookup(TableOf(env.rules), op).Some? && Takes(op) <= |f.stack| && Base(TableOf(env.rules), op) <= f.gas {
      SmallReach(Reach(Ranges(op, f.stack)));
      if Reach(Ranges(op, f.stack)) < TWO_64 {
        CallSettledInNumbers(env, w, f, op, Base(TableOf(env.rules), op));
      }
    }
  }

  lemma CallTakes(op: Byte)
    requires IsCall(op)
    ensures Takes(op) == (if op == CALL || op == CALLCODE then 7 else 6) && !Writes(op)
  {
  }

  // ----- the refund counter -----

  /** Paying moves the refund counter by what SSTORE meters, or by 24000 for the first SELFDESTRUCT of a contract. */
  lemma RefundCharged(env: Env, w: World, f: Frame, readOnly: bool)
    requires Pays(env, w, f, readOnly)
    ensures var op := OpAt(f.code, f.pc);
            var w1 := Charge(env, w, f, op, Entry(env, f), readOnly).w;
            && (op == SSTORE ==>
                  && |f.stack| >= 2
                  && var slot := Slot(f.self, f.stack[|f.stack| - 1]);
                     var m := SstoreMeter(env.rules, Committed(env, slot), State(env, w, slot), f.stack[|f.stack| - 2]);
                     m.sub <= w.refund && w1.refund == w.refund - m.sub + m.add)
            && (op == SELFDESTRUCT ==> w1.refund == w.refund + if f.self in w.suicided then 0 else 24000)
            && (op != SSTORE && op != SELFDESTRUCT ==> w1.refund == w.refund)
  {
    hide Lookup, MemoryNeeded, State, Committed, SstoreMeter, Covered;
  }

  /** The same seen from the step. */
  lemma RefundMoves(env: Env, w: World, f: Frame, depth: nat, readOnly: bool)
    requires Pays(env, w, f, readOnly)
    ensures var r := Step(env, w, f, depth, readOnly);
            && (OpAt(f.code, f.pc) == SSTORE ==>
                  && r.Next? && |f.stack| >= 2
                  && var slot := Slot(f.self, f.stack[|f.stack| - 1]);
                     var m := SstoreMeter(env.rules, Committed(env, slot), State(env, w, slot), f.stack[|f.stack| - 2]);
                     m.sub <= w.refund && r.w.refund == w.refund - m.sub + m.add)
            && (OpAt(f.code, f.pc) == SELFDESTRUCT ==>
                  && r.Stop? && r.result.Returned?
                  && r.result.w.refund == w.refund + if f.self in w.suicided then 0 else 24000)
  {
    hide Step, Charge, Lookup, State, Committed, SstoreMeter, Covered;
    RefundCharged(env, w, f, readOnly);
    if OpAt(f.code, f.pc) == SSTORE {
      StoreStep(env, w, f, depth, readOnly);
    } else if OpAt(f.code, f.pc) == SELFDESTRUCT {
      HaltStep(env, w, f, depth, readOnly);
    }
  }

  // ----- SSTORE -----

  /** The metering of SSTORE case by case, with the numbers of EIP-2200 and EIP-1283, and before and between them. */
  lemma MeteringInNumbers(r: Rules, original: Word, current: Word, value: Word)
    ensures var m := SstoreMeter(r, original, current, value);
            if !r.istanbul && !r.yoloV2 && (r.petersburg || !r.constantinople) then
              if current == 0 && value != 0 then m == Meter(20000, 0, 0)
              else m == Meter(5000, if current != 0 && value == 0 then 15000 else 0, 0)
            else
              var base := if r.istanbul || r.yoloV2 then 800 else 200;
              if current == value then m == Meter(base, 0, 0)
              else if original == current then
                if original == 0 then m == Meter(20000, 0, 0) else m == Meter(5000, if value == 0 then 15000 else 0, 0)
              else
                && m.cost == base
                && m.sub == (if original != 0 && current == 0 then 15000 else 0)
                && m.add == (if original != 0 && current != 0 && value == 0 then 15000 else 0)
                           + (if original == value then (if original == 0 then 20000 - base else 5000 - base) else 0)
  {
  }
}
