/** Frames, memory fees, SSTORE metering and the gas of every opcode with a dynamic part. */
module EvmGas {
  import opened Basics
  import opened EvmTypes
  import opened EvmTable
  import opened EvmWorld

  /** One call context: its contract, stack, return stack, memory and last returned data. */
  datatype Frame = Frame(
    self: Address, caller: Address, value: Word, code: Bytes, input: Bytes,
    gas: nat, pc: nat, stack: seq<Word>, returns_: seq<nat>,
    store: Bytes, lastGasCost: nat, returnData: Bytes)

  const CALL_STIPEND: nat := 2300
  const VALUE_TRANSFER_GAS: nat := 9000
  const NEW_ACCOUNT_GAS: nat := 25000
  const CREATE_DATA_GAS: nat := 200
  const MEMORY_LIMIT: nat := 0x1FFFFFFFE0
  const CLEAR_REFUND: nat := 15000

  // ----- memory -----

  function WordCount(size: nat): nat { (size + 31) / 32 }

  /** Total fee of a memory of the given number of words. */
  function MemoryFee(words: nat): nat { 3 * words + words * words / 512 }

  /** What growing the memory costs now, and the total fee recorded afterwards. */
  datatype Growth = Growth(fee: nat, total: nat)

  function MemoryGas(f: Frame, size: nat): Option<Growth>
  {
    if size == 0 then Some(Growth(0, f.lastGasCost))
    else if size > MEMORY_LIMIT then None
    else if WordCount(size) * 32 > |f.store| then
      var total := MemoryFee(WordCount(size));
      Some(Growth((total - f.lastGasCost) % TWO_64, total))
    else Some(Growth(0, f.lastGasCost))
  }

  // ----- SSTORE -----

  /** Gas charged for a write, and what it adds to and takes from the refund counter. */
  datatype Meter = Meter(cost: nat, add: nat, sub: nat)

  /** Net metering of EIP-1283 (noop = 200) and EIP-2200 (noop = 800). */
  function NetMeter(noop: nat, original: Word, current: Word, value: Word): Meter
    requires noop <= 5000
  {
    if current == value then Meter(noop, 0, 0)
    else if original == current then
      if original == 0 then Meter(20000, 0, 0)
      else Meter(5000, if value == 0 then CLEAR_REFUND else 0, 0)
    else
      var sub := if original != 0 && current == 0 then CLEAR_REFUND else 0;
      var cleared := if original != 0 && current != 0 && value == 0 then CLEAR_REFUND else 0;
      var reset := if original != value then 0 else if original == 0 then 20000 - noop else 5000 - noop;
      Meter(noop, cleared + reset, sub)
  }

  function LegacyMeter(current: Word, value: Word): Meter
  {
    if current == 0 && value != 0 then Meter(20000, 0, 0)
    else if current != 0 && value == 0 then Meter(5000, CLEAR_REFUND, 0)
    else Meter(5000, 0, 0)
  }

  function SstoreMeter(r: Rules, original: Word, current: Word, value: Word): Meter
  {
    if TableOf(r).Since(Istanbul) then NetMeter(800, original, current, value)
    else if r.petersburg || !r.constantinople then LegacyMeter(current, value)
    else NetMeter(200, original, current, value)
  }

  // ----- gas handed to a call -----

  /** The 63/64 rule; the subtraction wraps at 64 bits as in the source. */
  function CallGas(eip150: bool, available: nat, base: nat, requested: Word): Option<nat>
  {
    if eip150 then
      var left := (available - base) % TWO_64;
      var cap := left - left / 64;
      Some(if requested >= TWO_64 || cap < requested then cap else requested)
    else if requested >= TWO_64 then None
    else Some(requested)
  }

  // ----- dynamic gas -----

  /** Price of an opcode: gas, memory total afterwards, refund afterwards, gas handed to a call. */
  datatype Price = Price(cost: nat, total: nat, refund: nat, callGas: nat) | Unpriced | Panicked

  function PerWord(len: Word, g: nat, rate: nat): Option<nat>
  {
    if len >= TWO_64 then None else Some(g + WordCount(len) * rate)
  }

  function CallSurcharge(env: Env, w: World, op: Byte, to: Word, value: Word): nat
  {
    var isNew := if env.rules.eip158 then value != 0 && Empty(env, w, ToAddress(to)) else !Exist(env, w, ToAddress(to));
    (if op == CALL && isNew then NEW_ACCOUNT_GAS else 0) + (if value != 0 then VALUE_TRANSFER_GAS else 0)
  }

  /** Value moved by a call opcode; only CALL and CALLCODE name one. */
  function CallValue(op: Byte, s: seq<Word>): Word
    requires |s| >= MemoryArgs(op)
  {
    if op == CALL || op == CALLCODE then Back(s, 2) else 0
  }

  function CallPrice(env: Env, w: World, f: Frame, op: Byte, g: Growth): (r: Price)
    requires IsCall(op) && |f.stack| >= MemoryArgs(op)
    ensures r.Unpriced? || (r.Price? && r.total == g.total && r.refund == w.refund && r.cost >= g.fee)
  {
    var base := g.fee + CallSurcharge(env, w, op, Back(f.stack, 1), CallValue(op, f.stack));
    match CallGas(env.rules.eip150, f.gas, base, Back(f.stack, 0))
    case None => Unpriced
    case Some(child) => Price(base + child, g.total, w.refund, child)
  }

  function SstorePrice(env: Env, w: World, f: Frame): (r: Price)
    requires |f.stack| >= 2
    ensures r.Price? ==> r.total == f.lastGasCost
  {
    if TableOf(env.rules).Since(Istanbul) && f.gas <= 2300 then Unpriced
    else
      var slot := Slot(f.self, Back(f.stack, 0));
      var m := SstoreMeter(env.rules, Committed(env, slot), State(env, w, slot), Back(f.stack, 1));
      if m.sub > w.refund then Panicked
      else Price(m.cost, f.lastGasCost, w.refund - m.sub + m.add, 0)
  }

  function SelfdestructPrice(env: Env, w: World, f: Frame): (r: Price)
    requires |f.stack| >= 1
    ensures r.Price? && r.total == f.lastGasCost
  {
    var to := ToAddress(Back(f.stack, 0));
    var isNew := if env.rules.eip158 then Empty(env, w, to) && Balance(env, w, f.self) != 0 else !Exist(env, w, to);
    Price(if !env.rules.eip150 then 0 else if isNew then 5000 + 25000 else 5000,
          f.lastGasCost, w.refund + (if f.self in w.suicided then 0 else 24000), 0)
  }

  /** Opcodes whose dynamic part is the memory growth plus a per-word or per-byte rate. */
  function DataPrice(w: World, f: Frame, op: Byte, g: Growth): (r: Price)
    requires |f.stack| >= MemoryArgs(op)
    requires op == SHA3 || op == CREATE2 || IsCopy(op) || IsLog(op)
    ensures r.Unpriced? || (r.Price? && r.total == g.total && r.refund == w.refund && r.cost >= g.fee)
  {
    var priced :=
      if op == SHA3 then PerWord(Back(f.stack, 1), g.fee, 6)
      else if op == CREATE2 then PerWord(Back(f.stack, 2), g.fee, 6)
      else if op == EXTCODECOPY then PerWord(Back(f.stack, 3), g.fee, 3)
      else if IsCopy(op) then PerWord(Back(f.stack, 2), g.fee, 3)
      else if Back(f.stack, 1) >= TWO_64 then None
      else Some(g.fee + 375 + (op - LOG0) * 375 + Back(f.stack, 1) * 8);
    if priced.None? then Unpriced else Price(priced.value, g.total, w.refund, 0)
  }

  function DynamicPrice(env: Env, w: World, f: Frame, op: Byte, size: nat): (r: Price)
    requires |f.stack| >= PriceArgs(op)
    ensures r.Price? && IsMetered(op) ==> r.cost > 0
    ensures r.Price? && op != SSTORE && op != SELFDESTRUCT ==> r.refund == w.refund
    ensures r.Panicked? ==> op == SSTORE
    ensures r.Price? && IsCall(op) ==>
              r.cost >= r.callGas + (if CallValue(op, f.stack) != 0 then VALUE_TRANSFER_GAS else 0)
  {
    if op == EXP then
      Price(10 + ByteLength(Back(f.stack, 1)) * (if TableOf(env.rules).Since(Spurious) then 50 else 10),
            f.lastGasCost, w.refund, 0)
    else if op == SSTORE then SstorePrice(env, w, f)
    else if op == SELFDESTRUCT then SelfdestructPrice(env, w, f)
    else if MemoryArgs(op) == 0 then Price(0, f.lastGasCost, w.refund, 0)
    else
      match MemoryGas(f, size)
      case None => Unpriced
      case Some(g) =>
        if IsCall(op) then CallPrice(env, w, f, op, g)
        else if op == SHA3 || op == CREATE2 || IsCopy(op) || IsLog(op) then DataPrice(w, f, op, g)
        else Price(g.fee, g.total, w.refund, 0)
  }
}
