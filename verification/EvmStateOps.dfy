/** What the opcodes that read and write accounts, storage and logs do, and how frames end. */
module EvmStateOps {
  import opened Basics
  import opened EvmTypes
  import opened EvmTable
  import opened EvmWorld
  import opened EvmCode
  import opened EvmGas
  import opened EvmSemantics
  import opened EvmSupply
  import opened EvmFrames
  import opened EvmCalls
  import opened EvmOpcodes
  import opened EvmMemoryOps

  // ----- accounts -----

  /** The account a word names: its low 160 bits. */
  function Named(x: Word): Address { x % TWO_160 }

  /** BALANCE, EXTCODESIZE, EXTCODEHASH and BLOCKHASH replace a name by what it asks about. */
  lemma AccountQueries(env: Env, w: World, f: Frame, depth: nat, readOnly: bool) returns (x: Word)
    requires Pays(env, w, f, readOnly)
    requires var op := OpAt(f.code, f.pc); op == BALANCE || op == EXTCODESIZE || op == EXTCODEHASH || op == BLOCKHASH
    ensures |f.stack| >= 1 && Simply(w, f, Step(env, w, f, depth, readOnly), 1, [x])
    ensures var op := OpAt(f.code, f.pc);
            var a := AccountOf(env, w, Named(f.stack[|f.stack| - 1]));
            && (op == BALANCE ==> x == a.balance)
            && (op == EXTCODESIZE && |a.code| < TWO_256 ==> x == |a.code|)
            && (op == EXTCODEHASH && a.codeHash == Keccak(a.code) ==> x == env.sha3(a.code))
            && (op == EXTCODEHASH && a.codeHash == NoHash && a.nonce == 0 && a.balance == 0 ==> x == 0)
            && (op == BLOCKHASH ==> x == env.blockHash(f.stack[|f.stack| - 1]))
  {
    hide Step, Charge, Lookup, Simply;
    QueryReplaces(env, w, f, depth, readOnly);
    x := QueryValue(env, w, PaidFrame(env, w, f, readOnly), OpAt(f.code, f.pc), f.stack[|f.stack| - 1]);
  }

  /** Seen by BALANCE, a call to an account without code takes its value from the sender and gives it to the target. */
  lemma TransferSeen(env: Env, w: World, m: Message, gas: nat, depth: nat, f: Frame, at: nat, readOnly: bool)
    returns (before: Word, after: Word)
    requires Hashed(env, w) && Supply(env, w) < TWO_256 && m.kind.Call? && Accepted(env, w, m, depth)
    requires !env.isPrecompile(m.to) && CodeOf(env, w, m.to) == [] && OpAt(f.code, f.pc) == BALANCE
    requires Pays(env, w, f, readOnly) && Pays(env, CallMessage(env, w, m, gas, depth, readOnly).w, f, readOnly)
    ensures var w' := CallMessage(env, w, m, gas, depth, readOnly).w;
            && |f.stack| >= 1 && Simply(w, f, Step(env, w, f, at, readOnly), 1, [before])
            && Simply(w', f, Step(env, w', f, at, readOnly), 1, [after])
            && var a := Named(f.stack[|f.stack| - 1]);
               after == before - (if a == m.from then m.value else 0) + (if a == m.to then m.value else 0)
  {
    hide Step, Charge, Lookup, Simply, CallMessage, Prepare, Hashed, Supply, AccountOf, Pays;
    CodelessCallee(env, w, m, gas, depth, readOnly);
    Prepared(env, w, m, depth);
    before := AccountQueries(env, w, f, at, readOnly);
    after := AccountQueries(env, CallMessage(env, w, m, gas, depth, readOnly).w, f, at, readOnly);
  }

  // ----- storage -----

  /** SLOAD replaces a key by the current value of the slot. */
  lemma SloadPushes(env: Env, w: World, f: Frame, depth: nat, readOnly: bool)
    requires Pays(env, w, f, readOnly) && OpAt(f.code, f.pc) == SLOAD
    ensures |f.stack| >= 1
    ensures Simply(w, f, Step(env, w, f, depth, readOnly), 1, [State(env, w, Slot(f.self, f.stack[|f.stack| - 1]))])
  {
    hide Step, Charge, Lookup, Simply, State;
    QueryReplaces(env, w, f, depth, readOnly);
    PaidMemory(env, w, f, readOnly);
  }

  /** A slot that the transaction has not written reads as it was committed, and as zero if it never was. */
  lemma UnwrittenLoads(env: Env, w: World, f: Frame, depth: nat, readOnly: bool)
    requires Pays(env, w, f, readOnly) && OpAt(f.code, f.pc) == SLOAD
    ensures |f.stack| >= 1
    ensures var s := Slot(f.self, f.stack[|f.stack| - 1]);
            s !in w.storage ==>
              Simply(w, f, Step(env, w, f, depth, readOnly), 1,
                     [if s in env.committedStorage then env.committedStorage[s] else 0])
  {
    hide Step, Charge, Lookup, Simply;
    SloadPushes(env, w, f, depth, readOnly);
  }

  /** Nothing but storage and the refund counter differs. */
  predicate OnlyStorage(w: World, w': World) { w' == w.(storage := w'.storage, refund := w'.refund) }

  lemma StoreStep(env: Env, w: World, f: Frame, depth: nat, readOnly: bool)
    requires Pays(env, w, f, readOnly)
    requires var op := OpAt(f.code, f.pc); op == SSTORE || IsLog(op)
    ensures var op := OpAt(f.code, f.pc);
            var c := PaidFrame(env, w, f, readOnly);
            var w1 := Charge(env, w, f, op, Entry(env, f), readOnly).w;
            && w1 == w.(refund := w1.refund) && (op != SSTORE ==> w1 == w)
            && |c.stack| >= (if op == SSTORE then 2 else op - LOG0 + 2) && Covered(c, op)
            && Step(env, w, f, depth, readOnly) == StoreOp(w1, c, op)
  {
    hide Charge, StoreOp, Covered;
  }

  lemma SstoreStep(env: Env, w: World, f: Frame, depth: nat, readOnly: bool)
    requires Pays(env, w, f, readOnly) && OpAt(f.code, f.pc) == SSTORE
    ensures |f.stack| >= 2
    ensures var r := Step(env, w, f, depth, readOnly);
            var s := Slot(f.self, f.stack[|f.stack| - 1]);
            && r.Next? && OnlyStorage(w, r.w) && r.w.storage == w.storage[s := f.stack[|f.stack| - 2]]
            && r.f.pc == f.pc + 1 && r.f.store == f.store && Effect(f, r.f, 2, [])
  {
    hide Step, Charge, Lookup, Covered;
    StoreStep(env, w, f, depth, readOnly);
    PaidRuns(env, w, f, readOnly);
    PaidMemory(env, w, f, readOnly);
    NoRange(SSTORE, f.stack);
    assert f.stack[..|f.stack| - 2] + [] == f.stack[..|f.stack| - 2];
  }

  /**
   * After a step at SSTORE with a key and a value, a step at SLOAD of that key in the same contract pushes the value; a
   * step at SLOAD of any other slot pushes what it would have pushed before.
   */
  lemma StoredValueLoads(env: Env, w: World, f: Frame, g: Frame, depth: nat, at: nat, readOnly: bool)
    requires Pays(env, w, f, readOnly) && OpAt(f.code, f.pc) == SSTORE && OpAt(g.code, g.pc) == SLOAD
    requires Step(env, w, f, depth, readOnly).Next? && Pays(env, Step(env, w, f, depth, readOnly).w, g, readOnly)
    ensures StorageReads(w, f, g, Step(env, w, f, depth, readOnly).w, Step(env, Step(env, w, f, depth, readOnly).w, g, at, readOnly))
    ensures !SameSlot(f, g) && Pays(env, w, g, readOnly) ==>
              var (r, r') := (Step(env, w, g, at, readOnly), Step(env, Step(env, w, f, depth, readOnly).w, g, at, readOnly));
              r.Next? && r'.Next? && r'.f.stack == r.f.stack
  {
    hide Step, Charge, Lookup, Pays;
    SstoreStep(env, w, f, depth, readOnly);
    SloadPushes(env, Step(env, w, f, depth, readOnly).w, g, at, readOnly);
    if Pays(env, w, g, readOnly) {
      SloadPushes(env, w, g, at, readOnly);
    }
  }

  /** The slot that f writes is the one that g reads. */
  predicate SameSlot(f: Frame, g: Frame)
  {
    |f.stack| >= 1 && |g.stack| >= 1 && f.self == g.self && f.stack[|f.stack| - 1] == g.stack[|g.stack| - 1]
  }

  ghost predicate StorageReads(w: World, f: Frame, g: Frame, w': World, r: StepResult)
  {
    |f.stack| >= 2 && |g.stack| >= 1 && OnlyStorage(w, w') && (SameSlot(f, g) ==> Simply(w', g, r, 1, [f.stack[|f.stack| - 2]]))
  }

  // ----- logs -----

  /** LOGn appends one log of the contract: n topics from the stack, in order, and a range of memory as data. */
  lemma LogAppends(env: Env, w: World, f: Frame, depth: nat, readOnly: bool) returns (log: Log)
    requires Pays(env, w, f, readOnly) && IsLog(OpAt(f.code, f.pc))
    ensures var n := OpAt(f.code, f.pc) - 0xa0;
            var r := Step(env, w, f, depth, readOnly);
            && |f.stack| >= n + 2 && r.Next? && r.w == w.(logs := w.logs + [log]) && r.f.pc == f.pc + 1
            && Effect(f, r.f, n + 2, []) && Written(f.store, r.f.store, 0, [])
            && log.addr == f.self && TopItems(log.topics, f.stack[..|f.stack| - 2], n)
            && Window(log.data, f.store, f.stack[|f.stack| - 1], f.stack[|f.stack| - 2])
  {
    hide Step, Charge, Lookup, Covered, Window, Grown, MemoryNeeded, Slice, Written;
    var op, c := OpAt(f.code, f.pc), PaidFrame(env, w, f, readOnly);
    StoreStep(env, w, f, depth, readOnly);
    PaidRuns(env, w, f, readOnly);
    PaidMemory(env, w, f, readOnly);
    LogRange(c, op);
    log := LogStored(w, c, op);
    SliceWindow(f.store, c.store, MemoryNeeded(op, f.stack).value, f.stack[|f.stack| - 1], f.stack[|f.stack| - 2]);
    GrownUnwritten(f.store, c.store, MemoryNeeded(op, f.stack).value);
  }

  lemma LogRange(c: Frame, op: Byte)
    requires IsLog(op) && Covered(c, op)
    ensures |c.stack| >= 2
    ensures c.stack[|c.stack| - 2] > 0 ==> c.stack[|c.stack| - 1] + c.stack[|c.stack| - 2] <= |c.store|
  {
  }

  lemma LogStored(w: World, c: Frame, op: Byte) returns (log: Log)
    requires IsLog(op) && Covered(c, op) && |c.stack| >= op - LOG0 + 2
    requires c.stack[|c.stack| - 2] > 0 ==> c.stack[|c.stack| - 1] + c.stack[|c.stack| - 2] <= |c.store|
    ensures StoreOp(w, c, op) == Next(w.(logs := w.logs + [log]), Onward(c, op - 0xa0 + 2, []))
    ensures log.addr == c.self && TopItems(log.topics, c.stack[..|c.stack| - 2], op - 0xa0)
    ensures log.data == Slice(c.store, c.stack[|c.stack| - 1], c.stack[|c.stack| - 2])
  {
    hide Slice, Covered;
    log := Log(c.self, Top(Drop(c.stack, 2), op - LOG0), Slice(c.store, c.stack[|c.stack| - 1], c.stack[|c.stack| - 2]));
    assert c.stack[..|c.stack| - (op - 0xa0 + 2)] + [] == c.stack[..|c.stack| - (op - 0xa0 + 2)];
  }

  lemma GrownUnwritten(store: Bytes, grown: Bytes, need: nat)
    requires Grown(store, grown, need)
    ensures Written(store, grown, 0, [])
  {
  }

  // ----- the end of a frame -----

  lemma HaltStep(env: Env, w: World, f: Frame, depth: nat, readOnly: bool)
    requires Pays(env, w, f, readOnly) && IsHalt(OpAt(f.code, f.pc))
    ensures var op := OpAt(f.code, f.pc);
            var c := PaidFrame(env, w, f, readOnly);
            var w1 := Charge(env, w, f, op, Entry(env, f), readOnly).w;
            && w1 == w.(refund := w1.refund) && (op != SELFDESTRUCT ==> w1 == w)
            && |c.stack| >= PriceArgs(op) && Covered(c, op)
            && Step(env, w, f, depth, readOnly) == Stop(Halt(env, w1, c, op))
  {
    hide Charge, Halt, Covered;
  }

  /** STOP ends with nothing, RETURN and REVERT with a range of memory; the gas left is what was not paid. */
  lemma FramesEnd(env: Env, w: World, f: Frame, depth: nat, readOnly: bool) returns (b: Bytes)
    requires Pays(env, w, f, readOnly) && IsHalt(OpAt(f.code, f.pc)) && OpAt(f.code, f.pc) != SELFDESTRUCT
    ensures var op := OpAt(f.code, f.pc);
            var r := Step(env, w, f, depth, readOnly);
            var gas := PaidFrame(env, w, f, readOnly).gas;
            && (op == STOP ==> r == Stop(Returned(w, gas, [])))
            && (op != STOP ==> |f.stack| >= 2 && Window(b, f.store, f.stack[|f.stack| - 1], f.stack[|f.stack| - 2]))
            && (op == RETURN ==> r == Stop(Returned(w, gas, b))) && (op == REVERT ==> r == Stop(Reverted(gas, b)))
  {
    hide Step, Charge, Lookup, Window, Grown, MemoryNeeded, Slice;
    var op, c := OpAt(f.code, f.pc), PaidFrame(env, w, f, readOnly);
    b := [];
    HaltStep(env, w, f, depth, readOnly);
    PaidMemory(env, w, f, readOnly);
    if op != STOP {
      HaltRange(c, op);
      b := Slice(c.store, f.stack[|f.stack| - 1], f.stack[|f.stack| - 2]);
      SliceWindow(f.store, c.store, MemoryNeeded(op, f.stack).value, f.stack[|f.stack| - 1], f.stack[|f.stack| - 2]);
    }
  }

  lemma HaltRange(c: Frame, op: Byte)
    requires (op == RETURN || op == REVERT) && Covered(c, op)
    ensures |c.stack| >= 2
    ensures c.stack[|c.stack| - 2] > 0 ==> c.stack[|c.stack| - 1] + c.stack[|c.stack| - 2] <= |c.store|
  {
  }

  /**
   * SELFDESTRUCT ends the frame, gives the whole balance to the account it names, leaves none, and marks the contract; a
   * contract that names itself loses its balance.
   */
  lemma SelfdestructPays(env: Env, w: World, f: Frame, depth: nat, readOnly: bool)
    requires Pays(env, w, f, readOnly) && OpAt(f.code, f.pc) == SELFDESTRUCT && Hashed(env, w) && Supply(env, w) < TWO_256
    ensures |f.stack| >= 1
    ensures var r := Step(env, w, f, depth, readOnly);
            && r.Stop? && r.result.Returned? && r.result.ret == [] && r.result.gas == PaidFrame(env, w, f, readOnly).gas
            && var (w', heir) := (r.result.w, Named(f.stack[|f.stack| - 1]));
               && w'.suicided == w.suicided + {f.self} && w'.logs == w.logs && w'.storage == w.storage
               && forall a :: Balance(env, w', a) ==
                    if a == f.self then 0 else Balance(env, w, a) + if a == heir then Balance(env, w, f.self) else 0
  {
    hide Step, Charge, Lookup, Covered, Hashed, Supply, AccountOf, AddBalance, Suicide, PaidFrame;
    HaltStep(env, w, f, depth, readOnly);
    PaidMemory(env, w, f, readOnly);
    var w1 := Charge(env, w, f, SELFDESTRUCT, Entry(env, f), readOnly).w;
    var heir := Named(f.stack[|f.stack| - 1]);
    RefundApart(env, w, w1);
    if heir != f.self {
      TwoBalancesBound(env, w1, heir, f.self);
      Bequeathed(env, w1, f.self, heir);
    } else {
      SelfBequeathed(env, w1, f.self);
    }
  }

  lemma RefundApart(env: Env, w: World, w1: World)
    requires w1 == w.(refund := w1.refund)
    ensures (Hashed(env, w) <==> Hashed(env, w1)) && Supply(env, w1) == Supply(env, w)
    ensures forall a :: AccountOf(env, w1, a) == AccountOf(env, w, a)
  {
  }

  lemma Bequeathed(env: Env, w: World, self: Address, heir: Address)
    requires Hashed(env, w) && heir != self && Balance(env, w, heir) + Balance(env, w, self) < TWO_256
    ensures var w' := Suicide(env, AddBalance(env, w, heir, Balance(env, w, self)), self);
            && w'.suicided == w.suicided + {self} && w'.logs == w.logs && w'.storage == w.storage
            && forall a :: Balance(env, w', a) ==
                 if a == self then 0 else Balance(env, w, a) + if a == heir then Balance(env, w, self) else 0
  {
    hide AddBalance, Hashed;
    Credited(env, w, heir, Balance(env, w, self));
    HashedAccount(env, AddBalance(env, w, heir, Balance(env, w, self)), self);
  }

  lemma SelfBequeathed(env: Env, w: World, self: Address)
    requires Hashed(env, w)
    ensures var w' := Suicide(env, AddBalance(env, w, self, Balance(env, w, self)), self);
            && w'.suicided == w.suicided + {self} && w'.logs == w.logs && w'.storage == w.storage
            && forall a :: Balance(env, w', a) == if a == self then 0 else Balance(env, w, a)
  {
    HashedAccount(env, w, self);
  }
}
