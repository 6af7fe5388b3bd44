/** Instruction boundaries of a code, by the simple left-to-right scan. */
module EvmCode {
  import opened Basics
  import opened EvmTypes
  import opened EvmTable

  /** The opcode at a position; past the end it is STOP. */
  function OpAt(code: Bytes, pc: nat): Byte
  {
    if pc < |code| then code[pc] else STOP
  }

  /** Number of data bytes that follow an opcode. */
  function PushSize(op: Byte): nat
  {
    if IsPush(op) then op - PUSH1 + 1 else 0
  }

  function NextPc(code: Bytes, pc: nat): nat
  {
    pc + 1 + PushSize(OpAt(code, pc))
  }

  /** Does the scan that starts at `from` stop at `pos`? */
  predicate ScanReaches(code: Bytes, from: nat, pos: nat)
    decreases if from < |code| then |code| - from else 0
  {
    from == pos || (from < pos && from < |code| && ScanReaches(code, NextPc(code, from), pos))
  }

  predicate IsBoundary(code: Bytes, pos: nat) { ScanReaches(code, 0, pos) }

  predicate ValidJump(code: Bytes, dest: Word, marker: Byte)
  {
    dest < |code| && code[dest] == marker && IsBoundary(code, dest)
  }

  /** A position the interpreter may fetch from: an instruction boundary, or past the code. */
  predicate FetchSafe(code: Bytes, pc: nat) { pc >= |code| || IsBoundary(code, pc) }

  lemma {:induction false} ScanTrans(code: Bytes, from: nat, mid: nat, pos: nat)
    requires ScanReaches(code, from, mid) && ScanReaches(code, mid, pos)
    ensures ScanReaches(code, from, pos)
    decreases if from < |code| then |code| - from else 0
  {
    if from != mid {
      ScanTrans(code, NextPc(code, from), mid, pos);
      ScanForward(code, mid, pos);
    }
  }

  lemma {:induction false} ScanForward(code: Bytes, from: nat, pos: nat)
    requires ScanReaches(code, from, pos)
    ensures from <= pos
  {
  }

  /** Falling through an instruction leads to the next boundary. */
  lemma NextIsBoundary(code: Bytes, pc: nat)
    requires pc < |code| && IsBoundary(code, pc)
    ensures IsBoundary(code, NextPc(code, pc))
  {
    assert ScanReaches(code, pc, NextPc(code, pc)) by {
      assert ScanReaches(code, NextPc(code, pc), NextPc(code, pc));
    }
    ScanTrans(code, 0, pc, NextPc(code, pc));
  }
}
