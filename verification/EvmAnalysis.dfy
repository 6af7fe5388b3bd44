/** JUMPDEST analysis: a packed bit vector that marks the data bytes of a code. */
module EvmAnalysis {
  import opened Basics
  import opened EvmTable
  import opened EvmCode

  function Mask(k: nat): bv8
    requires k < 8
  {
    (0x80 as bv8) >> k
  }

  /** Ones from bit k on, counting from the most significant. */
  function TailMask(k: nat): bv8
    requires k < 8
  {
    (0xFF as bv8) >> k
  }

  /** Bit j of a byte, counting from the most significant. */
  predicate On(b: bv8, j: nat)
    requires j < 8
  {
    b & Mask(j) != 0
  }

  /** The bit of a packed vector at a position. */
  predicate Bit(bits: seq<bv8>, pos: nat)
    requires pos / 8 < |bits|
  {
    On(bits[pos / 8], pos % 8)
  }

  /** A byte with the bits from k on set, and with the bits before k set. */
  function WithTail(b: bv8, k: nat): bv8
    requires k < 8
  {
    b | TailMask(k)
  }

  function WithHead(b: bv8, k: nat): bv8
    requires k < 8
  {
    b | !TailMask(k)
  }

  lemma MaskedBits(a: bv8, i: nat, j: nat)
    requires i < 8 && j < 8
    ensures (a | Mask(i)) & Mask(j) != 0 <==> a & Mask(j) != 0 || i == j
  {
    if i == 0 {} else if i == 1 {} else if i == 2 {} else if i == 3 {}
    else if i == 4 {} else if i == 5 {} else if i == 6 {} else {}
  }

  lemma TailedBits(a: bv8, i: nat, j: nat)
    requires i < 8 && j < 8
    ensures (a | TailMask(i)) & Mask(j) != 0 <==> a & Mask(j) != 0 || i <= j
    ensures (a | !TailMask(i)) & Mask(j) != 0 <==> a & Mask(j) != 0 || j < i
  {
    if i == 0 {} else if i == 1 {} else if i == 2 {} else if i == 3 {}
    else if i == 4 {} else if i == 5 {} else if i == 6 {} else {}
  }

  lemma MaskBits(a: bv8, i: nat, j: nat)
    requires i < 8 && j < 8
    ensures On(a | Mask(i), j) <==> On(a, j) || i == j
  {
    hide Mask;
    MaskedBits(a, i, j);
  }

  lemma TailBits(a: bv8, i: nat, j: nat)
    requires i < 8 && j < 8
    ensures On(WithTail(a, i), j) <==> On(a, j) || i <= j
    ensures On(WithHead(a, i), j) <==> On(a, j) || j < i
  {
    hide Mask, TailMask;
    TailedBits(a, i, j);
  }

  /** Marks one position as data. */
  method Set(bits: array<bv8>, pos: nat)
    requires pos / 8 < bits.Length
    modifies bits
    ensures forall q: nat | q / 8 < bits.Length :: Bit(bits[..], q) <==> old(Bit(bits[..], q)) || q == pos
  {
    hide On, Mask;
    forall q: nat | q / 8 == pos / 8
      ensures On(bits[pos / 8] | Mask(pos % 8), q % 8) <==> On(bits[pos / 8], q % 8) || q == pos
    {
      MaskBits(bits[pos / 8], pos % 8, q % 8);
    }
    bits[pos / 8] := bits[pos / 8] | Mask(pos % 8);
  }

  function SetEight(bits: seq<bv8>, pos: nat): seq<bv8>
    requires pos / 8 + 1 < |bits|
  {
    bits[pos / 8 := WithTail(bits[pos / 8], pos % 8)][pos / 8 + 1 := WithHead(bits[pos / 8 + 1], pos % 8)]
  }

  lemma EightBits(bits: seq<bv8>, pos: nat, q: nat)
    requires pos / 8 + 1 < |bits| && q / 8 < |bits|
    ensures Bit(SetEight(bits, pos), q) <==> Bit(bits, q) || pos <= q < pos + 8
  {
    hide On, WithTail, WithHead;
    var i, k, j := pos / 8, pos % 8, q % 8;
    var after := SetEight(bits, pos);
    Window(pos, q);
    if q / 8 == i {
      assert after[i] == WithTail(bits[i], k);
      TailBits(bits[i], k, j);
    } else if q / 8 == i + 1 {
      assert after[i + 1] == WithHead(bits[i + 1], k);
      TailBits(bits[i + 1], k, j);
    }
  }

  /** Which bits of which byte a window of eight positions covers. */
  lemma Window(pos: nat, q: nat)
    ensures pos <= q < pos + 8 <==>
              (q / 8 == pos / 8 && pos % 8 <= q % 8) || (q / 8 == pos / 8 + 1 && q % 8 < pos % 8)
  {
  }

  /** Marks eight positions as data, across two bytes. */
  method Set8(bits: array<bv8>, pos: nat)
    requires pos / 8 + 1 < bits.Length
    modifies bits
    ensures forall q: nat | q / 8 < bits.Length :: Bit(bits[..], q) <==> old(Bit(bits[..], q)) || pos <= q < pos + 8
  {
    hide Bit, WithTail, WithHead;
    ghost var before := bits[..];
    bits[pos / 8] := WithTail(bits[pos / 8], pos % 8);
    bits[pos / 8 + 1] := WithHead(bits[pos / 8 + 1], pos % 8);
    assert bits[..] == SetEight(before, pos);
    forall q: nat | q / 8 < bits.Length
      ensures Bit(bits[..], q) <==> Bit(before, q) || pos <= q < pos + 8
    {
      EightBits(before, pos, q);
    }
  }

  /** Positions inside an instruction's data are not boundaries. */
  lemma {:induction false} DataIsNoBoundary(code: Bytes, from: nat, pc: nat, q: nat)
    requires ScanReaches(code, from, pc) && pc < |code| && pc < q < NextPc(code, pc)
    ensures !ScanReaches(code, from, q)
    decreases |code| - from
  {
    ScanForward(code, from, pc);
    if from != pc {
      ScanForward(code, NextPc(code, from), pc);
      DataIsNoBoundary(code, NextPc(code, from), pc, q);
    } else if ScanReaches(code, NextPc(code, pc), q) {
      ScanForward(code, NextPc(code, pc), q);
    }
  }

  /** The packed vector agrees with the scan on every byte of the code. */
  predicate Describes(bits: seq<bv8>, code: Bytes)
  {
    && |code| / 8 < |bits|
    && forall q | 0 <= q < |code| :: Bit(bits, q) <==> !IsBoundary(code, q)
  }

  /** Marks the n data bytes from pc on, eight at a time and then one by one. */
  method MarkData(bits: array<bv8>, pc: nat, n: nat) returns (end: nat)
    requires n <= 32 && pc / 8 + 4 < bits.Length
    modifies bits
    ensures end == pc + n
    ensures forall q: nat | q / 8 < bits.Length :: Bit(bits[..], q) <==> old(Bit(bits[..], q)) || pc <= q < pc + n
  {
    end := pc;
    var left: nat := n;
    while left >= 8
      invariant left <= n && end == pc + (n - left)
      invariant forall q: nat | q / 8 < bits.Length :: Bit(bits[..], q) <==> old(Bit(bits[..], q)) || pc <= q < end
    {
      Set8(bits, end);
      end := end + 8;
      left := left - 8;
    }
    while left > 0
      invariant left <= n && end == pc + (n - left)
      invariant forall q: nat | q / 8 < bits.Length :: Bit(bits[..], q) <==> old(Bit(bits[..], q)) || pc <= q < end
    {
      Set(bits, end);
      end := end + 1;
      left := left - 1;
    }
  }

  method CodeBitmap(code: Bytes) returns (bits: array<bv8>)
    ensures fresh(bits) && Describes(bits[..], code)
  {
    bits := new bv8[|code| / 8 + 1 + 4](_ => 0);
    var pc := 0;
    while pc < |code|
      invariant pc <= |code| + 32 && bits.Length == |code| / 8 + 5 && fresh(bits)
      invariant IsBoundary(code, pc)
      invariant forall q: nat | q / 8 < bits.Length && q >= pc :: !Bit(bits[..], q)
      invariant forall q: nat | q < pc && q < |code| :: Bit(bits[..], q) <==> !IsBoundary(code, q)
      decreases |code| + 32 - pc
    {
      var start := pc;
      var op := code[pc];
      NextIsBoundary(code, start);
      forall q | start < q < NextPc(code, start)
        ensures !IsBoundary(code, q)
      {
        DataIsNoBoundary(code, 0, start, q);
      }
      pc := pc + 1;
      if IsPush(op) {
        pc := MarkData(bits, pc, op - PUSH1 + 1);
      }
    }
  }
}
