/** The main results about the machine, stated over every call, creation and iteration. */
module EvmTheorems {
  import opened Basics
  import opened EvmTypes
  import opened EvmTable
  import opened EvmWorld
  import opened EvmCode
  import opened EvmGas
  import opened EvmSemantics
  import opened EvmFrames
  import opened EvmSupply
  import opened EvmRuns

  // ----- gas -----

  /** The opcode passes every check that comes before its dynamic price. */
  predicate ReachesPrice(env: Env, f: Frame, op: Byte, o: Operation, readOnly: bool)
  {
    && Lookup(TableOf(env.rules), op) == Some(o)
    && o.MinStack() <= |f.stack| <= o.MaxStack() && |f.stack| >= PriceArgs(op)
    && !(readOnly && env.rules.byzantium && (o.writes || (op == CALL && Back(f.stack, 2) != 0)))
    && o.constantGas <= f.gas < TWO_64
    && MemoryNeeded(op, f.stack).Some? && WordCount(MemoryNeeded(op, f.stack).value) * 32 < TWO_64
  }

  /** What a call opcode costs before anything is handed to the callee: memory growth and surcharges. */
  function CallBase(env: Env, w: World, f: Frame, op: Byte): Option<nat>
    requires IsCall(op) && |f.stack| >= MemoryArgs(op) && MemoryNeeded(op, f.stack).Some?
  {
    var g := MemoryGas(f, WordCount(MemoryNeeded(op, f.stack).value) * 32);
    if g.None? then None
    else Some(g.value.fee + CallSurcharge(env, w, op, Back(f.stack, 1), CallValue(op, f.stack)))
  }

  /**
   * The 63/64 rule for every call opcode. It is paid for if and only if the gas left after the constant part covers
   * the base cost: what the callee asks for is cut to what is left less a 64th and never makes the call too dear. When
   * the base cost is not covered, the 64-bit subtraction wraps to some large number, and the opcode runs out of gas.
   */
  lemma CallGasRule(env: Env, w: World, f: Frame, op: Byte, o: Operation, readOnly: bool)
    requires ReachesPrice(env, f, op, o, readOnly) && IsCall(op) && env.rules.eip150
    ensures var r := Charge(env, w, f, op, o, readOnly);
            var available := f.gas - o.constantGas;
            match CallBase(env, w, f, op)
            case None => r == Fault(OutOfGas)
            case Some(base) =>
              if base > available then r == Fault(OutOfGas)
              else
                var left := available - base;
                && r.Paid? && r.callGas == Min(Back(f.stack, 0), left - left / 64)
                && r.f.gas == left - r.callGas && r.w == w
  {
    hide Lookup, MemoryNeeded, Settle, MemoryGas, CallSurcharge;
    var f' := f.(gas := f.gas - o.constantGas);
    var size := WordCount(MemoryNeeded(op, f.stack).value) * 32;
    assert Charge(env, w, f, op, o, readOnly) == Settle(env, w, f', op, size);
    GrowthApart(f, f'.gas, size);
    CallSettled(env, w, f', op, size);
  }

  /** How charging for a call opcode ends, when it comes to its price. */
  ghost predicate CallVerdict(env: Env, w: World, f: Frame, op: Byte, o: Operation, readOnly: bool, err: Option<Error>)
  {
    ReachesPrice(env, f, op, o, readOnly) && IsCall(op) && env.rules.eip150 ==>
      var base := CallBase(env, w, f, op);
      err == if base.None? || base.value > f.gas - o.constantGas then Some(OutOfGas) else None
  }

  lemma CallsCharged(env: Env, w: World, f: Frame, op: Byte, o: Operation, readOnly: bool)
    requires Lookup(TableOf(env.rules), op) == Some(o)
    ensures var c := Charge(env, w, f, op, o, readOnly);
            CallVerdict(env, w, f, op, o, readOnly, if c.Fault? then Some(c.err) else None)
  {
    hide Charge, CallBase, Lookup;
    if ReachesPrice(env, f, op, o, readOnly) && IsCall(op) && env.rules.eip150 {
      CallGasRule(env, w, f, op, o, readOnly);
    }
  }

  /** The growth fee does not depend on the gas. */
  lemma GrowthApart(f: Frame, gas: nat, size: nat)
    ensures MemoryGas(f.(gas := gas), size) == MemoryGas(f, size)
  {
  }

  lemma CallSettled(env: Env, w: World, f: Frame, op: Byte, size: nat)
    requires IsCall(op) && |f.stack| >= PriceArgs(op) && env.rules.eip150 && f.gas < TWO_64
    ensures var r := Settle(env, w, f, op, size);
            match MemoryGas(f, size)
            case None => r == Fault(OutOfGas)
            case Some(g) =>
              var base := g.fee + CallSurcharge(env, w, op, Back(f.stack, 1), CallValue(op, f.stack));
              if base > f.gas then r == Fault(OutOfGas)
              else
                var left := f.gas - base;
                && r.Paid? && r.callGas == Min(Back(f.stack, 0), left - left / 64)
                && r.f.gas == left - r.callGas && r.w == w
  {
    hide MemoryGas, CallSurcharge, CallGas, SstorePrice, SelfdestructPrice, DataPrice;
    var g := MemoryGas(f, size);
    if g.Some? {
      HandedOn(f.gas, g.value.fee + CallSurcharge(env, w, op, Back(f.stack, 1), CallValue(op, f.stack)), Back(f.stack, 0));
    }
  }

  lemma HandedOn(available: nat, base: nat, requested: Word)
    requires available < TWO_64
    ensures CallGas(true, available, base, requested).Some?
    ensures base <= available ==>
              var left := available - base;
              CallGas(true, available, base, requested).value == Min(requested, left - left / 64)
  {
    if base <= available {
      assert (available - base) % TWO_64 == available - base;
    }
  }

  /** A callee starts with strictly less gas than its caller had, stipend included, and so does a new contract. */
  lemma ChildStartsPoorer(env: Env, w: World, f: Frame, o: Operation, readOnly: bool)
    requires Lookup(TableOf(env.rules), OpAt(f.code, f.pc)) == Some(o)
    ensures var op := OpAt(f.code, f.pc);
            var c := Charge(env, w, f, op, o, readOnly);
            c.Paid? ==>
              && (IsCall(op) ==> CalleeGas(op, f.stack, c.callGas) < f.gas)
              && (IsCreate(op) ==> InitGas(env, op, c.f.gas) < f.gas)
  {
    hide Charge, Lookup;
  }

  // ----- atomicity -----

  /** A call that reports an error leaves the state it found. */
  lemma CallAtomic(env: Env, w: World, m: Message, gas: nat, depth: nat, readOnly: bool)
    ensures var r := CallMessage(env, w, m, gas, depth, readOnly); r.err.Some? ==> r.w == w
  {
    hide Run, Precompiled, Prepare;
  }

  /** The two worlds agree on everything but one account's nonce. */
  ghost predicate OnlyNonceDiffers(env: Env, w: World, w': World, a: Address)
  {
    && (forall b | b != a :: AccountOf(env, w', b) == AccountOf(env, w, b))
    && AccountOf(env, w', a) == AccountOf(env, w, a).(nonce := AccountOf(env, w', a).nonce)
    && (forall s :: State(env, w', s) == State(env, w, s))
    && w'.suicided == w.suicided && w'.logs == w.logs && w'.refund == w.refund
  }

  /**
   * A creation that reports an error leaves the state it found but for the creator's nonce, except before
   * Homestead when the code deposit cannot be paid: then the state of the initialisation frame stays.
   */
  lemma CreateAtomic(
    env: Env, w: World, creator: Address, code: Bytes, gas: nat, value: Word, addr: Address, depth: nat, readOnly: bool)
    requires Hashed(env, w)
    ensures var r := CreateContract(env, w, creator, code, gas, value, addr, depth, readOnly);
            r.err.Some? && (env.rules.homestead || r.err != Some(CodeStoreOutOfGas)) ==>
              OnlyNonceDiffers(env, w, r.w, creator)
  {
    hide OnlyNonceDiffers, BumpNonce, Endow, InitFrame, Initialise, Collides;
    NonceOnly(env, w, creator);
    NothingDiffers(env, w, creator);
    var w0 := BumpNonce(env, w, creator);
    InitialiseAtomic(env, w0, Endow(env, w0, creator, addr, value), InitFrame(creator, addr, code, gas, value), depth, readOnly);
  }

  lemma NonceOnly(env: Env, w: World, a: Address)
    requires Hashed(env, w)
    ensures OnlyNonceDiffers(env, w, BumpNonce(env, w, a), a)
  {
    HashedAccount(env, w, a);
  }

  lemma NothingDiffers(env: Env, w: World, a: Address)
    ensures OnlyNonceDiffers(env, w, w, a)
  {
  }

  lemma InitialiseAtomic(env: Env, w0: World, w: World, f: Frame, depth: nat, readOnly: bool)
    ensures var r := Initialise(env, w0, w, f, depth, readOnly);
            r.err.Some? && (env.rules.homestead || r.err != Some(CodeStoreOutOfGas)) ==> r.w == w0
  {
    hide Run, SetCode;
  }

  // ----- static calls -----

  /** Under Byzantium rules a static call, or any call from a static frame, changes nothing a reader can see. */
  lemma StaticPurity(env: Env, w: World, m: Message, gas: nat, depth: nat, readOnly: bool)
    requires Sound(env, w) && env.rules.byzantium && (readOnly || m.kind.StaticCall?)
    requires readOnly && m.kind.Call? ==> m.value == 0
    ensures Unchanged(env, w, CallMessage(env, w, m, gas, depth, readOnly).w)
  {
    hide CallMessage, Sound;
    CallKeeps(env, w, m, gas, depth, readOnly);
  }

  // ----- every iteration of every run -----

  /**
   * From a sound world, after any number of iterations of any frame: every cleared slot is backed by the
   * refund counter, no ether has been created, and the refund counter has not underflowed.
   */
  lemma {:induction false} EveryIterationSound(
    env: Env, w: World, f: Frame, depth: nat, readOnly: bool, n: nat)
    requires Sound(env, w)
    ensures StepKept(env, w, Iterate(env, w, f, depth, readOnly, n), Frozen(env, readOnly))
  {
    hide Kept, Sound, Step;
    if n == 0 {
      KeptRefl(env, w);
    } else {
      EveryIterationSound(env, w, f, depth, readOnly, n - 1);
      var r := Iterate(env, w, f, depth, readOnly, n - 1);
      if r.Next? {
        KeptWeaken(env, w, r.w, Frozen(env, readOnly));
        StepKeeps(env, r.w, r.f, depth, readOnly);
        var r' := Step(env, r.w, r.f, depth, readOnly);
        if r'.Next? {
          KeptTrans(env, w, r.w, r'.w, Frozen(env, readOnly));
        } else if r'.result.Returned? {
          KeptTrans(env, w, r.w, r'.result.w, Frozen(env, readOnly));
        }
      }
    }
  }
}
