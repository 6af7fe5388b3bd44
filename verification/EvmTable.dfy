/** Opcodes, the jump table of each fork, and the size of memory each opcode touches. */
module EvmTable {
  import opened Basics
  import opened EvmTypes

  const STOP: Byte := 0x00
  const EXP: Byte := 0x0a
  const SIGNEXTEND: Byte := 0x0b
  const SHA3: Byte := 0x20
  const ADDRESS: Byte := 0x30
  const BALANCE: Byte := 0x31
  const ORIGIN: Byte := 0x32
  const CALLER: Byte := 0x33
  const CALLVALUE: Byte := 0x34
  const CALLDATALOAD: Byte := 0x35
  const CALLDATASIZE: Byte := 0x36
  const CALLDATACOPY: Byte := 0x37
  const CODESIZE: Byte := 0x38
  const CODECOPY: Byte := 0x39
  const GASPRICE: Byte := 0x3a
  const EXTCODESIZE: Byte := 0x3b
  const EXTCODECOPY: Byte := 0x3c
  const RETURNDATASIZE: Byte := 0x3d
  const RETURNDATACOPY: Byte := 0x3e
  const EXTCODEHASH: Byte := 0x3f
  const BLOCKHASH: Byte := 0x40
  const COINBASE: Byte := 0x41
  const GASLIMIT: Byte := 0x45
  const CHAINID: Byte := 0x46
  const SELFBALANCE: Byte := 0x47
  const POP: Byte := 0x50
  const MLOAD: Byte := 0x51
  const MSTORE: Byte := 0x52
  const MSTORE8: Byte := 0x53
  const SLOAD: Byte := 0x54
  const SSTORE: Byte := 0x55
  const JUMP: Byte := 0x56
  const JUMPI: Byte := 0x57
  const PC: Byte := 0x58
  const MSIZE: Byte := 0x59
  const GAS: Byte := 0x5a
  const JUMPDEST: Byte := 0x5b
  const BEGINSUB: Byte := 0x5c
  const RETURNSUB: Byte := 0x5d
  const JUMPSUB: Byte := 0x5e
  const PUSH1: Byte := 0x60
  const PUSH32: Byte := 0x7f
  const DUP1: Byte := 0x80
  const DUP16: Byte := 0x8f
  const SWAP1: Byte := 0x90
  const SWAP16: Byte := 0x9f
  const LOG0: Byte := 0xa0
  const LOG4: Byte := 0xa4
  const CREATE: Byte := 0xf0
  const CALL: Byte := 0xf1
  const CALLCODE: Byte := 0xf2
  const RETURN: Byte := 0xf3
  const DELEGATECALL: Byte := 0xf4
  const CREATE2: Byte := 0xf5
  const STATICCALL: Byte := 0xfa
  const REVERT: Byte := 0xfd
  const SELFDESTRUCT: Byte := 0xff

  const STACK_LIMIT: nat := 1024

  predicate IsPush(op: Byte) { PUSH1 <= op <= PUSH32 }
  predicate IsDup(op: Byte) { DUP1 <= op <= DUP16 }
  predicate IsSwap(op: Byte) { SWAP1 <= op <= SWAP16 }
  predicate IsLog(op: Byte) { LOG0 <= op <= LOG4 }
  predicate IsCall(op: Byte) { op == CALL || op == CALLCODE || op == DELEGATECALL || op == STATICCALL }
  predicate IsCreate(op: Byte) { op == CREATE || op == CREATE2 }
  predicate IsHalt(op: Byte) { op == STOP || op == RETURN || op == REVERT || op == SELFDESTRUCT }

  /** A jump-table entry; the stack bounds are kept as numbers of items popped and pushed. */
  datatype Operation = Operation(
    constantGas: nat, pops: nat, pushes: nat,
    halts: bool, jumps: bool, writes: bool, reverts: bool, setsReturnData: bool)
  {
    function MinStack(): nat { pops }
    function MaxStack(): int { STACK_LIMIT + pops - pushes }
  }

  /** An entry without flags. */
  function Plain(gas: nat, pops: nat, pushes: nat): Option<Operation>
  {
    Some(Operation(gas, pops, pushes, false, false, false, false, false))
  }

  datatype Fork =
    Frontier | Homestead | Tangerine | Spurious | Byzantium | Constantinople | Istanbul | YoloV2
  {
    function Rank(): nat
    {
      match this
      case Frontier => 0 case Homestead => 1 case Tangerine => 2 case Spurious => 3
      case Byzantium => 4 case Constantinople => 5 case Istanbul => 6 case YoloV2 => 7
    }
    predicate Since(f: Fork) { f.Rank() <= Rank() }
  }

  /** The table the interpreter picks for the chain rules. */
  function TableOf(r: Rules): Fork
  {
    if r.yoloV2 then YoloV2
    else if r.istanbul then Istanbul
    else if r.constantinople then Constantinople
    else if r.byzantium then Byzantium
    else if r.eip158 then Spurious
    else if r.eip150 then Tangerine
    else if r.homestead then Homestead
    else Frontier
  }

  /** Arithmetic, comparison and bitwise opcodes. */
  function AluEntry(t: Fork, op: Byte): Option<Operation>
  {
    if op == 0x01 || op == 0x03 then Plain(3, 2, 1)
    else if op == 0x02 || 0x04 <= op <= 0x07 then Plain(5, 2, 1)
    else if op == 0x08 || op == 0x09 then Plain(8, 3, 1)
    else if op == EXP then Plain(0, 2, 1)
    else if op == SIGNEXTEND then Plain(5, 2, 1)
    else if op == 0x15 || op == 0x19 then Plain(3, 1, 1)
    else if 0x10 <= op <= 0x1a then Plain(3, 2, 1)
    else if 0x1b <= op <= 0x1d && t.Since(Constantinople) then Plain(3, 2, 1)
    else None
  }

  predicate IsAlu(op: Byte) { 0x01 <= op <= 0x0b || 0x10 <= op <= 0x1d }

  /** Opcodes that push one item that does not depend on the stack. */
  predicate IsEnvPush(op: Byte)
  {
    op == ADDRESS || op == ORIGIN || op == CALLER || op == CALLVALUE || op == CALLDATASIZE
    || op == CODESIZE || op == GASPRICE || op == RETURNDATASIZE || COINBASE <= op <= SELFBALANCE
    || op == PC || op == MSIZE || op == GAS
  }

  /** Opcodes that replace the top item. */
  predicate IsQuery(op: Byte)
  {
    op == BALANCE || op == CALLDATALOAD || op == EXTCODESIZE || op == EXTCODEHASH || op == BLOCKHASH
    || op == MLOAD || op == SLOAD
  }

  predicate IsCopy(op: Byte)
  {
    op == CALLDATACOPY || op == CODECOPY || op == EXTCODECOPY || op == RETURNDATACOPY
  }

  function EnvEntry(t: Fork, op: Byte): Option<Operation>
  {
    if op == RETURNDATASIZE then (if t.Since(Byzantium) then Plain(2, 0, 1) else None)
    else if op == CHAINID then (if t.Since(Istanbul) then Plain(2, 0, 1) else None)
    else if op == SELFBALANCE then (if t.Since(Istanbul) then Plain(5, 0, 1) else None)
    else if IsEnvPush(op) then Plain(2, 0, 1)
    else if op == BALANCE then Plain(if t.Since(Istanbul) then 700 else if t.Since(Tangerine) then 400 else 20, 1, 1)
    else if op == SLOAD then Plain(if t.Since(Istanbul) then 800 else if t.Since(Tangerine) then 200 else 50, 1, 1)
    else if op == EXTCODESIZE then Plain(if t.Since(Tangerine) then 700 else 20, 1, 1)
    else if op == EXTCODEHASH then
      (if t.Since(Istanbul) then Plain(700, 1, 1) else if t.Since(Constantinople) then Plain(400, 1, 1) else None)
    else if op == BLOCKHASH then Plain(20, 1, 1)
    else if op == CALLDATALOAD || op == MLOAD then Plain(3, 1, 1)
    else None
  }

  function MemoryEntry(t: Fork, op: Byte): Option<Operation>
  {
    if op == SHA3 then Plain(30, 2, 1)
    else if op == CALLDATACOPY || op == CODECOPY then Plain(3, 3, 0)
    else if op == RETURNDATACOPY then (if t.Since(Byzantium) then Plain(3, 3, 0) else None)
    else if op == EXTCODECOPY then Plain(if t.Since(Tangerine) then 700 else 20, 4, 0)
    else if op == MSTORE || op == MSTORE8 then Plain(3, 2, 0)
    else None
  }

  function FlowEntry(t: Fork, op: Byte): Option<Operation>
  {
    if op == POP then Plain(2, 1, 0)
    else if op == JUMPDEST then Plain(1, 0, 0)
    else if op == JUMP then Some(Operation(8, 1, 0, false, true, false, false, false))
    else if op == JUMPI then Some(Operation(10, 2, 0, false, true, false, false, false))
    else if op == BEGINSUB then (if t.Since(YoloV2) then Plain(2, 0, 0) else None)
    else if op == JUMPSUB then
      (if t.Since(YoloV2) then Some(Operation(10, 1, 0, false, true, false, false, false)) else None)
    else if op == RETURNSUB then
      (if t.Since(YoloV2) then Some(Operation(5, 0, 0, false, true, false, false, false)) else None)
    else if IsPush(op) then Plain(3, 0, 1)
    else if IsDup(op) then Plain(3, op - DUP1 + 1, op - DUP1 + 2)
    else if IsSwap(op) then Plain(3, op - SWAP1 + 2, op - SWAP1 + 2)
    else None
  }

  /** Opcodes that write state, start a frame or end one. */
  function SystemEntry(t: Fork, op: Byte): Option<Operation>
  {
    var call := if t.Since(Tangerine) then 700 else 40;
    if op == STOP then Some(Operation(0, 0, 0, true, false, false, false, false))
    else if op == SSTORE then Some(Operation(0, 2, 0, false, false, true, false, false))
    else if IsLog(op) then Some(Operation(0, op - LOG0 + 2, 0, false, false, true, false, false))
    else if op == CREATE then Some(Operation(32000, 3, 1, false, false, true, false, true))
    else if op == CREATE2 then
      (if t.Since(Constantinople) then Some(Operation(32000, 4, 1, false, false, true, false, true)) else None)
    else if op == CALL || op == CALLCODE then Some(Operation(call, 7, 1, false, false, false, false, true))
    else if op == DELEGATECALL then
      (if t.Since(Homestead) then Some(Operation(call, 6, 1, false, false, false, false, true)) else None)
    else if op == STATICCALL then
      (if t.Since(Byzantium) then Some(Operation(700, 6, 1, false, false, false, false, true)) else None)
    else if op == RETURN then Some(Operation(0, 2, 0, true, false, false, false, false))
    else if op == REVERT then
      (if t.Since(Byzantium) then Some(Operation(0, 2, 0, false, false, false, true, true)) else None)
    else if op == SELFDESTRUCT then Some(Operation(0, 1, 0, true, false, true, false, false))
    else None
  }

  /** Opcodes without a constant gas that always have a positive dynamic one. */
  predicate IsMetered(op: Byte) { op == EXP || op == SSTORE || IsLog(op) }

  predicate IsSystem(op: Byte)
  {
    IsHalt(op) || op == SSTORE || IsLog(op) || IsCreate(op) || IsCall(op)
  }

  function Lookup(t: Fork, op: Byte): (r: Option<Operation>)
    ensures r.Some? ==> PriceArgs(op) <= r.value.pops && MemoryArgs(op) <= r.value.pops
    ensures r.Some? && !IsHalt(op) && !IsMetered(op) ==> r.value.constantGas > 0
    ensures r.Some? ==> (r.value.writes <==> op == SSTORE || IsLog(op) || IsCreate(op) || op == SELFDESTRUCT)
  {
    if IsSystem(op) then SystemEntry(t, op)
    else if IsAlu(op) then AluEntry(t, op)
    else if IsEnvPush(op) || IsQuery(op) then EnvEntry(t, op)
    else if op == SHA3 || IsCopy(op) || op == MSTORE || op == MSTORE8 then MemoryEntry(t, op)
    else FlowEntry(t, op)
  }

  /** The n-th item from the top of the stack. */
  function Back(s: seq<Word>, n: nat): Word
    requires n < |s|
  {
    s[|s| - 1 - n]
  }

  /** End of the byte range [off, off + len), or nothing when it does not fit 64 bits. */
  function RangeEnd(off: Word, len: Word): (r: Option<nat>)
    ensures r.Some? ==> r.value < TWO_64
  {
    if len >= TWO_64 then None
    else if len == 0 then Some(0)
    else if off >= TWO_64 || off + len >= TWO_64 then None
    else Some(off + len)
  }

  function MaxEnd(a: Option<nat>, b: Option<nat>): Option<nat>
  {
    if a.None? || b.None? then None
    else Some(if a.value > b.value then a.value else b.value)
  }

  /** How many stack items the memory size of an opcode depends on. */
  function MemoryArgs(op: Byte): nat
  {
    if op == SHA3 || op == RETURN || op == REVERT || IsLog(op) then 2
    else if op == CALLDATACOPY || op == CODECOPY || op == RETURNDATACOPY || IsCreate(op) then 3
    else if op == EXTCODECOPY then 4
    else if op == MLOAD || op == MSTORE || op == MSTORE8 then 1
    else if op == CALL || op == CALLCODE then 7
    else if op == DELEGATECALL || op == STATICCALL then 6
    else 0
  }

  /** How many stack items the dynamic gas of an opcode depends on. */
  function PriceArgs(op: Byte): nat
  {
    if op == EXP || op == SSTORE then 2 else if op == SELFDESTRUCT then 1 else MemoryArgs(op)
  }

  /** Memory an opcode needs, in bytes; nothing on overflow. */
  function MemoryNeeded(op: Byte, s: seq<Word>): (r: Option<nat>)
    requires |s| >= MemoryArgs(op)
    ensures r.Some? ==> r.value < TWO_64
  {
    if op == SHA3 || op == RETURN || op == REVERT || IsLog(op) then RangeEnd(Back(s, 0), Back(s, 1))
    else if op == CALLDATACOPY || op == CODECOPY || op == RETURNDATACOPY then RangeEnd(Back(s, 0), Back(s, 2))
    else if op == EXTCODECOPY then RangeEnd(Back(s, 1), Back(s, 3))
    else if op == MLOAD || op == MSTORE then RangeEnd(Back(s, 0), 32)
    else if op == MSTORE8 then RangeEnd(Back(s, 0), 1)
    else if IsCreate(op) then RangeEnd(Back(s, 1), Back(s, 2))
    else if op == CALL || op == CALLCODE then
      MaxEnd(RangeEnd(Back(s, 5), Back(s, 6)), RangeEnd(Back(s, 3), Back(s, 4)))
    else if op == DELEGATECALL || op == STATICCALL then
      MaxEnd(RangeEnd(Back(s, 4), Back(s, 5)), RangeEnd(Back(s, 2), Back(s, 3)))
    else Some(0)
  }
}
