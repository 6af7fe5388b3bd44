/** What every step, frame, call and creation keeps of the world. */
module EvmRuns {
  import opened Basics
  import opened EvmTypes
  import opened EvmTable
  import opened EvmWorld
  import opened EvmCode
  import opened EvmGas
  import opened EvmSemantics
  import opened EvmSupply
  import opened EvmRefund

  /** Records carry their code hash, cleared slots are backed by the refund counter, and no balance can wrap. */
  ghost predicate Sound(env: Env, w: World)
  {
    Hashed(env, w) && RefundBacked(env, w) && Supply(env, w) < TWO_256
  }

  /** Two worlds no reader can tell apart. */
  ghost predicate Unchanged(env: Env, w: World, w': World)
  {
    && (forall a :: AccountOf(env, w', a) == AccountOf(env, w, a))
    && (forall s :: State(env, w', s) == State(env, w, s))
    && w'.suicided == w.suicided && w'.logs == w.logs && w'.refund == w.refund
  }

  /** What an execution from w to w' keeps. */
  ghost predicate Kept(env: Env, w: World, w': World, frozen: bool)
  {
    && Sound(env, w')
    && w.logs <= w'.logs
    && w.suicided <= w'.suicided
    && Supply(env, w') <= Supply(env, w)
    && (w'.suicided == {} ==> Supply(env, w') == Supply(env, w))
    && (frozen ==> Unchanged(env, w, w'))
  }

  lemma KeptTrans(env: Env, w0: World, w1: World, w2: World, frozen: bool)
    requires Kept(env, w0, w1, frozen) && Kept(env, w1, w2, frozen)
    ensures Kept(env, w0, w2, frozen)
  {
  }

  lemma KeptRefl(env: Env, w: World)
    requires Sound(env, w)
    ensures Kept(env, w, w, true) && Kept(env, w, w, false)
  {
  }

  lemma KeptWeaken(env: Env, w: World, w': World, frozen: bool)
    requires Kept(env, w, w', frozen)
    ensures Kept(env, w, w', false) && Sound(env, w')
  {
  }

  ghost predicate RunKept(env: Env, w: World, r: RunResult, frozen: bool)
  {
    match r
    case Returned(w', _, _) => Kept(env, w, w', frozen)
    case Reverted(_, _) => true
    case Failed(e) => e != RefundPanic
  }

  ghost predicate StepKept(env: Env, w: World, r: StepResult, frozen: bool)
  {
    match r
    case Next(w', _) => Kept(env, w, w', frozen)
    case Stop(result) => RunKept(env, w, result, frozen)
  }

  // ----- single operations -----

  /** Writing a record keeps everything but the supply, which moves with the balance. */
  lemma PutKept(env: Env, w: World, a: Address, r: Account)
    requires Sound(env, w) && r.codeHash == Keccak(r.code) && r.balance == Balance(env, w, a)
    ensures Kept(env, w, PutAccount(w, a, r), false)
    ensures r == AccountOf(env, w, a) ==> Kept(env, w, PutAccount(w, a, r), true)
  {
    PutHashed(env, w, a, r);
    assert Cleared(env, PutAccount(w, a, r)) == Cleared(env, w);
  }

  lemma SetNonceKept(env: Env, w: World, a: Address, n: nat)
    requires Sound(env, w)
    ensures Kept(env, w, SetNonce(env, w, a, n), false)
    ensures forall b :: Balance(env, SetNonce(env, w, a, n), b) == Balance(env, w, b)
  {
    HashedAccount(env, w, a);
    PutKept(env, w, a, AccountOf(env, w, a).(nonce := n));
  }

  lemma SetCodeKept(env: Env, w: World, a: Address, code: Bytes)
    requires Sound(env, w)
    ensures Kept(env, w, SetCode(env, w, a, code), false)
  {
    PutKept(env, w, a, AccountOf(env, w, a).(code := code, codeHash := Keccak(code)));
  }

  /** Adding or subtracting nothing only touches the record. */
  lemma TouchKept(env: Env, w: World, a: Address)
    requires Sound(env, w)
    ensures Kept(env, w, AddBalance(env, w, a, 0), true)
    ensures SubBalance(env, w, a, 0) == AddBalance(env, w, a, 0)
  {
    HashedAccount(env, w, a);
    PutKept(env, w, a, AccountOf(env, w, a));
  }

  lemma ZeroTransferKept(env: Env, w: World, from: Address, to: Address)
    requires Sound(env, w)
    ensures Kept(env, w, Transfer(env, w, from, to, 0), true)
  {
    TouchKept(env, w, from);
    TouchKept(env, SubBalance(env, w, from, 0), to);
    KeptTrans(env, w, SubBalance(env, w, from, 0), Transfer(env, w, from, to, 0), true);
  }

  lemma TransferKept(env: Env, w: World, from: Address, to: Address, v: Word)
    requires Sound(env, w) && v <= Balance(env, w, from)
    ensures Kept(env, w, Transfer(env, w, from, to, v), false)
  {
    TransferSupply(env, w, from, to, v);
    assert Cleared(env, Transfer(env, w, from, to, v)) == Cleared(env, w);
  }

  /** What happens before the callee runs; a static or valueless message changes nothing. */
  lemma PrepareKept(env: Env, w: World, m: Message, frozen: bool)
    requires Sound(env, w) && (m.kind.Call? ==> m.value <= Balance(env, w, m.from))
    requires frozen && m.kind.Call? ==> m.value == 0
    ensures Kept(env, w, Prepare(env, w, m), frozen)
  {
    if m.kind.Call? {
      if frozen {
        ZeroTransferKept(env, w, m.from, m.to);
      } else {
        TransferKept(env, w, m.from, m.to, m.value);
      }
    } else if m.kind.StaticCall? {
      TouchKept(env, w, m.to);
    }
  }

  /** The new account's nonce and endowment. */
  lemma EndowKept(env: Env, w: World, creator: Address, addr: Address, value: Word)
    requires Sound(env, w) && value <= Balance(env, w, creator)
    ensures Kept(env, w, Endow(env, w, creator, addr, value), false)
  {
    if env.rules.eip158 {
      var w1 := SetNonce(env, w, addr, 1);
      SetNonceKept(env, w, addr, 1);
      TransferKept(env, w1, creator, addr, value);
      KeptTrans(env, w, w1, Transfer(env, w1, creator, addr, value), false);
    } else {
      TransferKept(env, w, creator, addr, value);
    }
  }

  lemma HaltKept(env: Env, w: World, f: Frame, op: Byte)
    requires Sound(env, w) && IsHalt(op) && |f.stack| >= PriceArgs(op) && Covered(f, op)
    ensures RunKept(env, w, Halt(env, w, f, op), op != SELFDESTRUCT)
  {
    if op == SELFDESTRUCT {
      SuicideSupply(env, w, f.self, ToAddress(Back(f.stack, 0)));
      var w' := Suicide(env, AddBalance(env, w, ToAddress(Back(f.stack, 0)), Balance(env, w, f.self)), f.self);
      assert Cleared(env, w') == Cleared(env, w);
    }
  }

  /** A metered write finds its refund and keeps the world sound. */
  lemma MeteredWriteKept(env: Env, w: World, s: Slot, v: Word)
    requires Sound(env, w)
    ensures var m := SstoreMeter(env.rules, Committed(env, s), State(env, w, s), v);
            m.sub <= w.refund && Kept(env, w, SetState(w.(refund := w.refund - m.sub + m.add), s, v), false)
  {
    hide SstoreMeter, State, Committed, RefundBacked;
    WriteKeepsBacked(env, w, s, v);
  }

  /** What charging for SSTORE does to the refund counter. */
  lemma SstoreCharged(env: Env, w: World, f: Frame, o: Operation, readOnly: bool)
    requires Lookup(TableOf(env.rules), SSTORE) == Some(o)
    ensures var c := Charge(env, w, f, SSTORE, o, readOnly);
            |f.stack| >= 2 ==>
              var slot := Slot(f.self, Back(f.stack, 0));
              var m := SstoreMeter(env.rules, Committed(env, slot), State(env, w, slot), Back(f.stack, 1));
              m.sub <= w.refund ==> if c.Paid? then c.w.refund == w.refund - m.sub + m.add else c.err != RefundPanic
    ensures |f.stack| < 2 ==> Charge(env, w, f, SSTORE, o, readOnly) == Fault(StackUnderflow)
  {
    hide SstoreMeter, State, Committed, MemoryGas, Resize;
  }

  /** SSTORE, with the refund its price settled. */
  lemma SstoreKept(env: Env, w: World, f: Frame, o: Operation, readOnly: bool)
    requires Sound(env, w) && Lookup(TableOf(env.rules), SSTORE) == Some(o)
    ensures var c := Charge(env, w, f, SSTORE, o, readOnly);
            if c.Paid? then StepKept(env, w, StoreOp(c.w, c.f, SSTORE), false) else c.err != RefundPanic
  {
    hide Lookup, Charge, SstoreMeter, State, Committed, SetState, Sound, Kept;
    SstoreCharged(env, w, f, o, readOnly);
    if |f.stack| >= 2 {
      MeteredWriteKept(env, w, Slot(f.self, Back(f.stack, 0)), Back(f.stack, 1));
    }
  }

  lemma LogKept(env: Env, w: World, f: Frame, op: Byte)
    requires Sound(env, w) && IsLog(op) && |f.stack| >= op - LOG0 + 2 && Covered(f, op)
    ensures StepKept(env, w, StoreOp(w, f, op), false)
  {
    assert Cleared(env, StoreOp(w, f, op).w) == Cleared(env, w);
  }

  /** Charging for SELFDESTRUCT only adds to the refund counter. */
  lemma SelfdestructChargeKept(env: Env, w: World, f: Frame, o: Operation, readOnly: bool)
    requires Sound(env, w) && Lookup(TableOf(env.rules), SELFDESTRUCT) == Some(o)
    ensures var c := Charge(env, w, f, SELFDESTRUCT, o, readOnly);
            c.Paid? ==> Kept(env, w, c.w, false)
  {
    var c := Charge(env, w, f, SELFDESTRUCT, o, readOnly);
    if c.Paid? {
      assert Cleared(env, c.w) == Cleared(env, w);
    }
  }

  lemma SelfdestructKept(env: Env, w: World, f: Frame, o: Operation, readOnly: bool)
    requires Sound(env, w) && Lookup(TableOf(env.rules), SELFDESTRUCT) == Some(o)
    ensures var c := Charge(env, w, f, SELFDESTRUCT, o, readOnly);
            c.Paid? ==> RunKept(env, w, Halt(env, c.w, c.f, SELFDESTRUCT), false)
  {
    hide Kept, Sound, Lookup, Charge;
    var c := Charge(env, w, f, SELFDESTRUCT, o, readOnly);
    if c.Paid? {
      SelfdestructChargeKept(env, w, f, o, readOnly);
      KeptWeaken(env, w, c.w, false);
      HaltKept(env, c.w, c.f, SELFDESTRUCT);
      KeptTrans(env, w, c.w, Halt(env, c.w, c.f, SELFDESTRUCT).w, false);
    }
  }

  // ----- whole runs -----

  predicate Frozen(env: Env, readOnly: bool) { readOnly && env.rules.byzantium }

  /** One step keeps the world sound and, in a static frame, unchanged; it never meets the refund panic. */
  lemma {:induction false} StepKeeps(env: Env, w: World, f: Frame, depth: nat, readOnly: bool)
    requires Sound(env, w)
    ensures StepKept(env, w, Step(env, w, f, depth, readOnly), Frozen(env, readOnly))
    decreases f.gas, 1
  {
    hide Kept, Sound, Lookup, Charge, Halt, StoreOp;
    var op := OpAt(f.code, f.pc);
    var entry := Lookup(TableOf(env.rules), op);
    if entry.Some? {
      var o := entry.value;
      var c := Charge(env, w, f, op, o, readOnly);
      if op == SSTORE {
        SstoreKept(env, w, f, o, readOnly);
      } else if op == SELFDESTRUCT {
        SelfdestructKept(env, w, f, o, readOnly);
      } else if c.Paid? {
        ExecuteKeeps(env, w, c.f, op, o, c.callGas, depth, readOnly, f.gas);
      }
    }
  }

  lemma SystemPops(t: Fork, op: Byte)
    ensures var o := Lookup(t, op);
            && (IsLog(op) ==> o.Some? && o.value.pops == op - LOG0 + 2)
            && (op == CREATE2 && o.Some? ==> o.value.pops == 4)
  {
  }

  lemma {:induction false} ExecuteKeeps(
    env: Env, w: World, f: Frame, op: Byte, o: Operation, callGas: nat, depth: nat, readOnly: bool, bound: nat)
    requires Sound(env, w) && Lookup(TableOf(env.rules), op) == Some(o) && |f.stack| >= o.pops && Covered(f, op)
    requires if IsHalt(op) then f.gas <= bound else f.gas < bound
    requires IsCall(op) ==> f.gas + CalleeGas(op, f.stack, callGas) < bound
    requires op != SSTORE && op != SELFDESTRUCT
    requires Frozen(env, readOnly) ==> !o.writes && (op == CALL ==> Back(f.stack, 2) == 0)
    ensures StepKept(env, w, Execute(env, w, f, op, o, callGas, depth, readOnly, bound), Frozen(env, readOnly))
    decreases bound, 0
  {
    hide Kept, Sound, Lookup, LocalOp, StoreOp, CallOp, CreateOp;
    SystemPops(TableOf(env.rules), op);
    KeptRefl(env, w);
    if IsHalt(op) {
      HaltKept(env, w, f, op);
    } else if IsLog(op) {
      LogKept(env, w, f, op);
    } else if IsCall(op) {
      CallOpKeeps(env, w, f, op, CalleeGas(op, f.stack, callGas), depth, readOnly);
    } else if IsCreate(op) {
      var child := InitGas(env, op, f.gas);
      CreateOpKeeps(env, w, f.(gas := f.gas - child), op, child, depth, readOnly);
    }
  }

  lemma {:induction false} LoopKeeps(env: Env, w: World, f: Frame, depth: nat, readOnly: bool)
    requires Sound(env, w)
    ensures RunKept(env, w, Loop(env, w, f, depth, readOnly), Frozen(env, readOnly))
    decreases f.gas, 2
  {
    StepKeeps(env, w, f, depth, readOnly);
    match Step(env, w, f, depth, readOnly)
    case Stop(_) =>
    case Next(w1, f1) =>
      LoopKeeps(env, w1, f1, depth, readOnly);
      var r := Loop(env, w1, f1, depth, readOnly);
      if r.Returned? { KeptTrans(env, w, w1, r.w, Frozen(env, readOnly)); }
  }

  lemma {:induction false} RunKeeps(env: Env, w: World, f: Frame, depth: nat, readOnly: bool)
    requires Sound(env, w)
    ensures RunKept(env, w, Run(env, w, f, depth, readOnly), Frozen(env, readOnly))
    decreases f.gas, 3
  {
    if |f.code| != 0 { LoopKeeps(env, w, f, depth + 1, readOnly); }
  }

  lemma {:induction false} DeliverKeeps(
    env: Env, w: World, w1: World, m: Message, gas: nat, depth: nat, readOnly: bool)
    requires Sound(env, w) && Kept(env, w, w1, Frozen(env, readOnly || m.kind.StaticCall?))
    ensures var r := Deliver(env, w, w1, m, gas, depth, readOnly);
            Kept(env, w, r.w, Frozen(env, readOnly || m.kind.StaticCall?)) && r.err != Some(RefundPanic)
    decreases gas, 4
  {
    hide Kept, Sound, Run, Precompiled;
    var ro := readOnly || m.kind.StaticCall?;
    KeptRefl(env, w);
    KeptWeaken(env, w, w1, Frozen(env, ro));
    var f := NewFrame(m, AccountOf(env, w1, m.to).code, gas);
    RunKeeps(env, w1, f, depth, ro);
    var r := Run(env, w1, f, depth, ro);
    if r.Returned? { KeptTrans(env, w, w1, r.w, Frozen(env, ro)); }
  }

  /** Any message call keeps the world sound; a static one, or one from a static frame, changes nothing. */
  lemma {:induction false} CallKeeps(env: Env, w: World, m: Message, gas: nat, depth: nat, readOnly: bool)
    requires Sound(env, w) && (Frozen(env, readOnly) && m.kind.Call? ==> m.value == 0)
    ensures var r := CallMessage(env, w, m, gas, depth, readOnly);
            Kept(env, w, r.w, Frozen(env, readOnly || m.kind.StaticCall?)) && r.err != Some(RefundPanic)
    decreases gas, 5
  {
    hide Kept, Sound, Deliver;
    KeptRefl(env, w);
    if m.kind.Call? ==> m.value <= Balance(env, w, m.from) {
      PrepareKept(env, w, m, Frozen(env, readOnly || m.kind.StaticCall?));
      DeliverKeeps(env, w, Prepare(env, w, m), m, gas, depth, readOnly);
    }
  }

  lemma {:induction false} InitialiseKeeps(env: Env, w0: World, w: World, f: Frame, depth: nat, readOnly: bool)
    requires Sound(env, w0) && Kept(env, w0, w, false)
    ensures var r := Initialise(env, w0, w, f, depth, readOnly);
            Kept(env, w0, r.w, false) && r.err != Some(RefundPanic)
    decreases f.gas, 4
  {
    hide Kept, Sound, Run;
    KeptRefl(env, w0);
    KeptWeaken(env, w0, w, false);
    RunKeeps(env, w, f, depth, readOnly);
    var r := Run(env, w, f, depth, readOnly);
    if r.Returned? {
      KeptWeaken(env, w, r.w, Frozen(env, readOnly));
      KeptTrans(env, w0, w, r.w, false);
      SetCodeKept(env, r.w, f.self, r.ret);
      KeptTrans(env, w0, r.w, SetCode(env, r.w, f.self, r.ret), false);
    }
  }

  /** A creation keeps the world sound. */
  lemma {:induction false} CreateKeeps(
    env: Env, w: World, creator: Address, code: Bytes, gas: nat, value: Word, addr: Address, depth: nat, readOnly: bool)
    requires Sound(env, w)
    ensures var r := CreateContract(env, w, creator, code, gas, value, addr, depth, readOnly);
            Kept(env, w, r.w, false) && r.err != Some(RefundPanic)
    decreases gas, 5
  {
    hide Kept, Sound, Initialise;
    KeptRefl(env, w);
    if Balance(env, w, creator) >= value {
      var w0 := BumpNonce(env, w, creator);
      SetNonceKept(env, w, creator, (AccountOf(env, w, creator).nonce + 1) % TWO_64);
      KeptWeaken(env, w, w0, false);
      EndowKept(env, w0, creator, addr, value);
      var w2 := Endow(env, w0, creator, addr, value);
      KeptTrans(env, w, w0, w2, false);
      var f := InitFrame(creator, addr, code, gas, value);
      InitialiseKeeps(env, w0, w2, f, depth, readOnly);
      KeptTrans(env, w, w0, Initialise(env, w0, w2, f, depth, readOnly).w, false);
    }
  }

  lemma {:induction false} CallOpKeeps(
    env: Env, w: World, f: Frame, op: Byte, child: nat, depth: nat, readOnly: bool)
    requires Sound(env, w) && IsCall(op) && Covered(f, op)
    requires Frozen(env, readOnly) && op == CALL ==> Back(f.stack, 2) == 0
    ensures StepKept(env, w, CallOp(env, w, f, op, child, depth, readOnly), Frozen(env, readOnly))
    decreases child, 6
  {
    hide Kept, Sound;
    CallKeeps(env, w, MessageOf(f, op), child, depth, readOnly);
    KeptWeaken(env, w, CallMessage(env, w, MessageOf(f, op), child, depth, readOnly).w,
               Frozen(env, readOnly || op == STATICCALL));
  }

  lemma {:induction false} CreateOpKeeps(
    env: Env, w: World, f: Frame, op: Byte, child: nat, depth: nat, readOnly: bool)
    requires Sound(env, w) && IsCreate(op) && Covered(f, op) && (op == CREATE2 ==> |f.stack| >= 4)
    ensures StepKept(env, w, CreateOp(env, w, f, op, child, depth, readOnly), false)
    decreases child, 6
  {
    hide Kept, Sound;
    var code := InitCode(f, op);
    var addr := CreateTarget(env, w, f.self, op, if op == CREATE then 0 else Back(f.stack, 3), code);
    CreateKeeps(env, w, f.self, code, child, Back(f.stack, 0), addr, depth, readOnly);
  }
}
