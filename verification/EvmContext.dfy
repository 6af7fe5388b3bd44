/** A call context in place: contract, stack, return stack and memory of one frame. */
module EvmContext {
  import opened Basics
  import opened EvmTypes
  import opened EvmTable
  import opened EvmCode
  import opened EvmGas
  import opened EvmSemantics
  import opened EvmAnalysis

  /** Analyses shared by all contracts of one outermost call, by code hash. */
  class JumpdestCache {
    var analyses: map<Hash, seq<bv8>>

    ghost predicate Valid()
      reads this
    {
      forall h | h in analyses :: h.Keccak? && Describes(analyses[h], h.preimage)
    }

    constructor ()
      ensures Valid() && analyses == map[]
    {
      analyses := map[];
    }
  }

  class CallCtx {
    const self: Address
    const caller: Address
    const value: Word
    const code: Bytes
    const codeHash: Hash
    const input: Bytes
    const jumpdests: JumpdestCache
    var gas: nat
    var pc: nat
    var stack: seq<Word>
    var returns_: seq<nat>
    var store: Bytes
    var lastGasCost: nat
    var analysis: Option<seq<bv8>>

    /** The context as a value, with the interpreter's last returned data. */
    function View(returnData: Bytes): Frame
      reads this
    {
      Frame(self, caller, value, code, input, gas, pc, stack, returns_, store, lastGasCost, returnData)
    }

    /** The cached analysis is this code's, and so is whatever the shared cache has for its hash. */
    ghost predicate Valid()
      reads this, jumpdests
    {
      && jumpdests.Valid()
      && (codeHash == NoHash || codeHash == Keccak(code))
      && (analysis.Some? ==> Describes(analysis.value, code))
    }

    constructor (f: Frame, codeHash: Hash, jumpdests: JumpdestCache)
      requires jumpdests.Valid() && (codeHash == NoHash || codeHash == Keccak(f.code))
      ensures Valid() && View(f.returnData) == f && this.codeHash == codeHash && this.jumpdests == jumpdests
    {
      self, caller, value, code, input := f.self, f.caller, f.value, f.code, f.input;
      this.codeHash, this.jumpdests := codeHash, jumpdests;
      gas, pc, stack, returns_, store, lastGasCost := f.gas, f.pc, f.stack, f.returns_, f.store, f.lastGasCost;
      analysis := None;
    }

    // ----- contract -----

    method UseGas(amount: nat) returns (ok: bool)
      modifies this`gas
      ensures ok <==> amount <= old(gas)
      ensures gas == if ok then old(gas) - amount else old(gas)
    {
      ok := gas >= amount;
      if ok { gas := gas - amount; }
    }

    /** Is the position an opcode rather than push data? Answers from the caches when it can. */
    method IsCode(dest: nat) returns (r: bool)
      requires Valid() && dest < |code|
      modifies this`analysis, jumpdests
      ensures Valid() && (r <==> IsBoundary(code, dest))
    {
      if analysis.Some? {
        r := !Bit(analysis.value, dest);
      } else if codeHash != NoHash {
        if codeHash !in jumpdests.analyses {
          var bits := CodeBitmap(code);
          jumpdests.analyses := jumpdests.analyses[codeHash := bits[..]];
        }
        analysis := Some(jumpdests.analyses[codeHash]);
        r := !Bit(analysis.value, dest);
      } else {
        var bits := CodeBitmap(code);
        analysis := Some(bits[..]);
        r := !Bit(analysis.value, dest);
      }
    }

    method ValidJumpTo(dest: Word, marker: Byte) returns (r: bool)
      requires Valid()
      modifies this`analysis, jumpdests
      ensures Valid() && (r <==> ValidJump(code, dest, marker))
    {
      if dest >= |code| || code[dest] != marker {
        r := false;
      } else {
        r := IsCode(dest);
      }
    }

    // ----- stack -----

    method Push(v: Word)
      modifies this`stack
      ensures stack == old(stack) + [v]
    {
      stack := stack + [v];
    }

    method Pop() returns (v: Word)
      requires |stack| > 0
      modifies this`stack
      ensures v == Back(old(stack), 0) && stack == Drop(old(stack), 1)
    {
      v := stack[|stack| - 1];
      stack := stack[..|stack| - 1];
    }

    /** Pops n items into a list, topmost first. */
    method PopMany(n: nat) returns (vs: seq<Word>)
      requires n <= |stack|
      modifies this`stack
      ensures vs == Top(old(stack), n) && stack == Drop(old(stack), n)
    {
      vs := [];
      for i := 0 to n
        invariant |vs| == i && stack == Drop(old(stack), i)
        invariant forall j | 0 <= j < i :: vs[j] == Back(old(stack), j)
      {
        var v := Pop();
        vs := vs + [v];
      }
    }

    method DupItem(n: nat)
      requires 1 <= n <= |stack|
      modifies this`stack
      ensures stack == old(stack) + [Back(old(stack), n - 1)]
    {
      Push(stack[|stack| - n]);
    }

    method SwapItem(n: nat)
      requires 1 < n <= |stack|
      modifies this`stack
      ensures stack == old(stack)[|old(stack)| - n := Back(old(stack), 0)][|old(stack)| - 1 := old(stack)[|old(stack)| - n]]
    {
      var top := |stack| - 1;
      var t := stack[|stack| - n];
      stack := stack[|stack| - n := stack[top]];
      stack := stack[top := t];
    }

    // ----- memory -----

    method ResizeMemory(size: nat)
      modifies this`store
      ensures store == Resize(old(store), size)
    {
      if |store| < size {
        store := store + seq(size - |store|, _ => 0);
      }
    }

    /** Copies data to the memory; the source panics if the range is outside. */
    method SetMemory(off: Word, size: Word, data: Bytes)
      requires size > 0 ==> off + size <= |store|
      modifies this`store
      ensures store == Write(old(store), off, size, data)
    {
      if size > 0 {
        var n := Min(size, |data|);
        store := store[..off] + data[..n] + store[off + n..];
      }
    }

    /** Reads a range of the memory; an empty range reads nothing whatever its offset. */
    method GetMemory(off: Word, size: Word) returns (data: Bytes)
      requires size > 0 ==> off + size <= |store|
      ensures data == Slice(store, off, size)
    {
      if size == 0 {
        data := [];
      } else if |store| > off {
        data := store[off..off + size];
      } else {
        data := [];
      }
    }
  }
}
