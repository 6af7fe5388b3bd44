/** What a message call or a creation runs: whose code, as whom, with what, and what becomes of the outcome. */
module EvmCalls {
  import opened Basics
  import opened EvmTypes
  import opened EvmTable
  import opened EvmWorld
  import opened EvmCode
  import opened EvmGas
  import opened EvmSemantics
  import opened EvmSupply
  import opened EvmFrames

  // ----- accounts after a change of balance -----

  /** Everything but balances is as it was. */
  ghost predicate OnlyBalances(env: Env, w: World, w': World)
  {
    && (forall a :: AccountOf(env, w', a) == AccountOf(env, w, a).(balance := Balance(env, w', a)))
    && w'.storage == w.storage && w'.suicided == w.suicided && w'.logs == w.logs && w'.refund == w.refund
  }

  lemma Credited(env: Env, w: World, a: Address, v: Word)
    requires Hashed(env, w) && Balance(env, w, a) + v < TWO_256
    ensures var w' := AddBalance(env, w, a, v);
            && Hashed(env, w') && OnlyBalances(env, w, w')
            && forall x :: Balance(env, w', x) == Balance(env, w, x) + if x == a then v else 0
  {
    HashedAccount(env, w, a);
  }

  lemma Debited(env: Env, w: World, a: Address, v: Word)
    requires Hashed(env, w) && v <= Balance(env, w, a)
    ensures var w' := SubBalance(env, w, a, v);
            && Hashed(env, w') && OnlyBalances(env, w, w')
            && forall x :: Balance(env, w', x) == Balance(env, w, x) - if x == a then v else 0
  {
    HashedAccount(env, w, a);
  }

  /** A covered transfer takes from one account, gives to another, and touches no third. */
  lemma Transferred(env: Env, w: World, from: Address, to: Address, v: Word)
    requires Hashed(env, w) && v <= Balance(env, w, from) && Supply(env, w) < TWO_256
    ensures var w' := Transfer(env, w, from, to, v);
            && Hashed(env, w') && OnlyBalances(env, w, w')
            && forall x :: Balance(env, w', x) == Balance(env, w, x) - (if x == from then v else 0) + (if x == to then v else 0)
  {
    hide AddBalance, SubBalance, Hashed, Supply, AccountOf;
    var w1 := SubBalance(env, w, from, v);
    Debited(env, w, from, v);
    SubSupply(env, w, from, v);
    BalanceBound(env, w1, to);
    Credited(env, w1, to, v);
  }

  // ----- message calls -----

  /** The message gets past the checks that come before the callee. */
  predicate Accepted(env: Env, w: World, m: Message, depth: nat)
  {
    && (env.noRecursion ==> depth == 0) && depth <= CALL_CREATE_DEPTH
    && (m.kind.Call? || m.kind.CallCode? ==> m.value <= Balance(env, w, m.from))
    && !(m.kind.Call? && m.value == 0 && env.rules.eip158 && !env.isPrecompile(m.to) && !Exist(env, w, m.to))
  }

  /** A message that is not accepted changes nothing and costs nothing; depth and balance are errors, the others are not. */
  lemma NotAccepted(env: Env, w: World, m: Message, gas: nat, depth: nat, readOnly: bool)
    requires !Accepted(env, w, m, depth)
    ensures var r := CallMessage(env, w, m, gas, depth, readOnly);
            && r.w == w && r.gas == gas && r.ret == []
            && r.err == if env.noRecursion && depth > 0 then None
                        else if depth > 1024 then Some(Depth)
                        else if (m.kind.Call? || m.kind.CallCode?) && Balance(env, w, m.from) < m.value then Some(InsufficientBalance)
                        else None
  {
    hide Deliver;
  }

  /** What a message does before the callee runs: a call moves its value; the other kinds change nothing a reader can see. */
  lemma Prepared(env: Env, w: World, m: Message, depth: nat)
    requires Hashed(env, w) && Supply(env, w) < TWO_256 && Accepted(env, w, m, depth)
    ensures var w1 := Prepare(env, w, m);
            && Hashed(env, w1) && OnlyBalances(env, w, w1)
            && forall x :: Balance(env, w1, x) ==
                 if m.kind.Call? then Balance(env, w, x) - (if x == m.from then m.value else 0) + (if x == m.to then m.value else 0)
                 else Balance(env, w, x)
  {
    hide AddBalance, Transfer, Hashed, Supply, Exist;
    if m.kind.Call? {
      Transferred(env, w, m.from, m.to, m.value);
    } else if m.kind.StaticCall? {
      BalanceBound(env, w, m.to);
      Credited(env, w, m.to, 0);
    }
  }

  /** The code a message to an account without a precompile runs. */
  function CodeOf(env: Env, w: World, a: Address): Bytes { AccountOf(env, w, a).code }

  /** An accepted message is delivered; without a precompile it is a run of the target's code. */
  lemma Delivery(env: Env, w: World, m: Message, gas: nat, depth: nat, readOnly: bool)
    requires Hashed(env, w) && Supply(env, w) < TWO_256 && Accepted(env, w, m, depth) && !env.isPrecompile(m.to)
    ensures var f := NewFrame(m, CodeOf(env, w, m.to), gas);
            CallMessage(env, w, m, gas, depth, readOnly) ==
            Reported(w, Run(env, Prepare(env, w, m), f, depth, readOnly || m.kind.StaticCall?))
  {
    hide Prepare, Hashed, Supply, Run, OnlyBalances;
    Prepared(env, w, m, depth);
    SameCode(env, w, Prepare(env, w, m), m.to);
    assert CallMessage(env, w, m, gas, depth, readOnly) == Deliver(env, w, Prepare(env, w, m), m, gas, depth, readOnly);
  }

  lemma SameCode(env: Env, w: World, w': World, a: Address)
    requires OnlyBalances(env, w, w')
    ensures CodeOf(env, w', a) == CodeOf(env, w, a)
  {
  }

  /** A callee without code returns at once: the prepared state, all the gas and no output. */
  lemma CodelessCallee(env: Env, w: World, m: Message, gas: nat, depth: nat, readOnly: bool)
    requires Hashed(env, w) && Supply(env, w) < TWO_256 && Accepted(env, w, m, depth)
    requires !env.isPrecompile(m.to) && CodeOf(env, w, m.to) == []
    ensures CallMessage(env, w, m, gas, depth, readOnly) == CallResult(Prepare(env, w, m), gas, [], None)
  {
    hide Prepare, Hashed, Supply, Loop, CallMessage;
    Delivery(env, w, m, gas, depth, readOnly);
  }

  /** The frame a message starts: the target's code, as the account and on behalf of whom its kind prescribes. */
  ghost predicate Starts(m: Message, code: Bytes, gas: nat, f: Frame)
  {
    && f.code == code && f.input == m.input && f.gas == gas
    && f.self == (match m.kind case Call => m.to case StaticCall => m.to case CallCode => m.from case DelegateCall => m.from)
    && f.caller == (if m.kind.DelegateCall? then m.parentCaller else m.from)
    && f.value == (match m.kind case Call => m.value case CallCode => m.value case StaticCall => 0 case DelegateCall => m.parentValue)
    && Blank(f)
  }

  ghost predicate Blank(f: Frame)
  {
    f.pc == 0 && f.stack == [] && f.returns_ == [] && f.store == [] && f.lastGasCost == 0 && f.returnData == []
  }

  /** What a call reports for the way its frame ended; w is the state at entry. */
  function Reported(w: World, r: RunResult): CallResult
  {
    match r
    case Returned(w', g, ret) => CallResult(w', g, ret, None)
    case Reverted(g, ret) => CallResult(w, g, ret, Some(ExecutionReverted))
    case Failed(e) => CallResult(w, 0, [], Some(e))
  }

  /**
   * A message to an account with code is the iteration of steps from such a frame, one level deeper, read-only if the
   * caller was or the call is static.
   */
  lemma CalleeRuns(env: Env, w: World, m: Message, gas: nat, depth: nat, readOnly: bool)
    returns (f: Frame, n: nat, result: RunResult)
    requires Hashed(env, w) && Supply(env, w) < TWO_256 && Accepted(env, w, m, depth)
    requires !env.isPrecompile(m.to) && CodeOf(env, w, m.to) != []
    ensures Starts(m, CodeOf(env, w, m.to), gas, f)
    ensures n <= gas + 1 && Iterate(env, Prepare(env, w, m), f, depth + 1, readOnly || m.kind.StaticCall?, n) == Stop(result)
    ensures CallMessage(env, w, m, gas, depth, readOnly) == Reported(w, result)
  {
    hide Prepare, Hashed, Supply, Loop, Iterate, CallMessage;
    Delivery(env, w, m, gas, depth, readOnly);
    var w1 := Prepare(env, w, m);
    f := NewFrame(m, CodeOf(env, w, m.to), gas);
    result := Loop(env, w1, f, depth + 1, readOnly || m.kind.StaticCall?);
    n := LoopIsIteration(env, w1, f, depth + 1, readOnly || m.kind.StaticCall?);
  }

  lemma FirstStep(env: Env, w: World, f: Frame, depth: nat, readOnly: bool, n: nat, result: RunResult)
    requires Iterate(env, w, f, depth, readOnly, n) == Stop(result) && Step(env, w, f, depth, readOnly).Stop?
    ensures Step(env, w, f, depth, readOnly).result == result
  {
    hide Step;
    assert n > 0;
    StoppedAtOnce(env, w, f, depth, readOnly, n);
  }

  lemma {:induction false} StoppedAtOnce(env: Env, w: World, f: Frame, depth: nat, readOnly: bool, n: nat)
    requires n > 0 && Step(env, w, f, depth, readOnly).Stop?
    ensures Iterate(env, w, f, depth, readOnly, n) == Step(env, w, f, depth, readOnly)
  {
    hide Step;
    if n > 1 {
      StoppedAtOnce(env, w, f, depth, readOnly, n - 1);
    } else {
      assert Iterate(env, w, f, depth, readOnly, 0) == Next(w, f);
    }
  }

  /** A callee that begins with STOP returns the prepared state and all the gas. */
  lemma StoppingCallee(env: Env, w: World, m: Message, gas: nat, depth: nat, readOnly: bool)
    requires Hashed(env, w) && Supply(env, w) < TWO_256 && Accepted(env, w, m, depth)
    requires !env.isPrecompile(m.to) && CodeOf(env, w, m.to) != [] && CodeOf(env, w, m.to)[0] == STOP
    ensures CallMessage(env, w, m, gas, depth, readOnly) == CallResult(Prepare(env, w, m), gas, [], None)
  {
    hide Prepare, Hashed, Supply, CallMessage, Step, Iterate;
    var f, n, result := CalleeRuns(env, w, m, gas, depth, readOnly);
    var ro := readOnly || m.kind.StaticCall?;
    StopStep(env, Prepare(env, w, m), f, depth + 1, ro);
    FirstStep(env, Prepare(env, w, m), f, depth + 1, ro, n, result);
  }

  lemma StopStep(env: Env, w: World, f: Frame, depth: nat, readOnly: bool)
    requires OpAt(f.code, f.pc) == STOP && |f.stack| <= STACK_LIMIT
    ensures Step(env, w, f, depth, readOnly) == Stop(Returned(w, f.gas, []))
  {
  }

  /** A callee that begins with an opcode the rules do not define fails, with the state at entry and no gas. */
  lemma UndefinedCallee(env: Env, w: World, m: Message, gas: nat, depth: nat, readOnly: bool)
    requires Hashed(env, w) && Supply(env, w) < TWO_256 && Accepted(env, w, m, depth)
    requires !env.isPrecompile(m.to) && CodeOf(env, w, m.to) != []
    requires Lookup(TableOf(env.rules), CodeOf(env, w, m.to)[0]).None?
    ensures CallMessage(env, w, m, gas, depth, readOnly) == CallResult(w, 0, [], Some(InvalidOpcode))
  {
    hide Prepare, Hashed, Supply, CallMessage, Lookup, Iterate;
    var f, n, result := CalleeRuns(env, w, m, gas, depth, readOnly);
    var ro := readOnly || m.kind.StaticCall?;
    assert Step(env, Prepare(env, w, m), f, depth + 1, ro) == Stop(Failed(InvalidOpcode));
    FirstStep(env, Prepare(env, w, m), f, depth + 1, ro, n, result);
  }

  /** A precompile gets the input, is charged its price, and hands over its output; failing, it takes all the gas. */
  lemma PrecompiledCallee(env: Env, w: World, m: Message, gas: nat, depth: nat, readOnly: bool)
    requires Accepted(env, w, m, depth) && env.isPrecompile(m.to)
    ensures var r := CallMessage(env, w, m, gas, depth, readOnly);
            var price := env.precompileGas(m.to, m.input);
            var run := env.precompileRun(m.to, m.input);
            if gas < price then r == CallResult(w, 0, [], Some(OutOfGas))
            else if run.failed then r == CallResult(w, 0, run.out, Some(PrecompileFailed))
            else r == CallResult(Prepare(env, w, m), gas - price, run.out, None)
  {
    hide Prepare;
  }

  // ----- creations -----

  /** The creation gets past depth, balance and collision. */
  predicate Admitted(env: Env, w: World, creator: Address, value: Word, addr: Address, depth: nat)
  {
    && depth <= CALL_CREATE_DEPTH && value <= Balance(env, w, creator) && !Taken(env, w, creator, addr)
  }

  /** The address has a nonce or code once the creator's nonce was advanced. */
  predicate Taken(env: Env, w: World, creator: Address, addr: Address)
  {
    var nonce := AccountOf(env, w, addr).nonce;
    (if addr == creator then (nonce + 1) % TWO_64 else nonce) != 0 || CodeOf(env, w, addr) != []
  }

  lemma TakenIsCollision(env: Env, w: World, creator: Address, addr: Address)
    requires Hashed(env, w)
    ensures Taken(env, w, creator, addr) <==> Collides(env, BumpNonce(env, w, creator), addr)
  {
    HashedAccount(env, w, creator);
    HashedAccount(env, w, addr);
  }

  /** A creation that is not admitted: depth and balance cost nothing, a collision takes all the gas and the nonce. */
  lemma NotAdmitted(
    env: Env, w: World, creator: Address, code: Bytes, gas: nat, value: Word, addr: Address, depth: nat, readOnly: bool)
    requires Hashed(env, w) && !Admitted(env, w, creator, value, addr, depth)
    ensures var r := CreateContract(env, w, creator, code, gas, value, addr, depth, readOnly);
            if depth > 1024 then r == CreateResult(w, 0, gas, [], Some(Depth))
            else if Balance(env, w, creator) < value then r == CreateResult(w, 0, gas, [], Some(InsufficientBalance))
            else r == CreateResult(BumpNonce(env, w, creator), 0, 0, [], Some(AddressCollision))
  {
    hide Initialise, Endow, BumpNonce, Hashed, Collides, Taken;
    TakenIsCollision(env, w, creator, addr);
  }

  /** The creator's nonce is one more, modulo 2^64; nothing else differs. */
  lemma NonceAdvanced(env: Env, w: World, a: Address)
    requires Hashed(env, w)
    ensures var w' := BumpNonce(env, w, a);
            && Hashed(env, w')
            && AccountOf(env, w', a) == AccountOf(env, w, a).(nonce := (AccountOf(env, w, a).nonce + 1) % TWO_64)
            && (forall x | x != a :: AccountOf(env, w', x) == AccountOf(env, w, x))
            && w' == w.(accounts := w'.accounts)
  {
    HashedAccount(env, w, a);
  }

  /** The state an initialisation frame starts from: the value moved, and nonce one at the new address since EIP-158. */
  lemma Endowed(env: Env, w: World, creator: Address, addr: Address, value: Word)
    requires Hashed(env, w) && Supply(env, w) < TWO_256 && value <= Balance(env, w, creator)
    ensures var w' := Endow(env, w, creator, addr, value);
            && Hashed(env, w') && w' == w.(accounts := w'.accounts)
            && forall x ::
                 && AccountOf(env, w', x) == AccountOf(env, w, x).(balance := Balance(env, w', x), nonce := NewNonce(env, w, addr, x))
                 && Balance(env, w', x) == Balance(env, w, x) - (if x == creator then value else 0) + (if x == addr then value else 0)
  {
    hide Transfer, Supply, Hashed;
    var w1 := if env.rules.eip158 then SetNonce(env, w, addr, 1) else w;
    if env.rules.eip158 {
      NonceSet(env, w, addr, 1);
    }
    Transferred(env, w1, creator, addr, value);
  }

  /** The nonce of an account when an initialisation frame starts. */
  function NewNonce(env: Env, w: World, addr: Address, x: Address): nat
  {
    if x == addr && env.rules.eip158 then 1 else AccountOf(env, w, x).nonce
  }

  lemma NonceSet(env: Env, w: World, a: Address, n: nat)
    requires Hashed(env, w)
    ensures var w' := SetNonce(env, w, a, n);
            && Hashed(env, w') && Supply(env, w') == Supply(env, w) && w' == w.(accounts := w'.accounts)
            && AccountOf(env, w', a) == AccountOf(env, w, a).(nonce := n)
            && (forall x | x != a :: AccountOf(env, w', x) == AccountOf(env, w, x))
  {
    HashedAccount(env, w, a);
    PutHashed(env, w, a, AccountOf(env, w, a).(nonce := n));
  }

  /** What a creation reports for the way its frame ended; w0 is the state with the creator's nonce advanced. */
  ghost predicate CreationReports(env: Env, w0: World, addr: Address, result: RunResult, r: CreateResult)
  {
    match result
    case Reverted(g, ret) => r == CreateResult(w0, addr, g, ret, Some(ExecutionReverted))
    case Failed(e) => r == CreateResult(w0, addr, 0, [], Some(e))
    case Returned(w', g, ret) =>
      if env.rules.eip158 && |ret| > 24576 then r == CreateResult(w0, addr, 0, ret, Some(MaxCodeSizeExceeded))
      else if g < 200 * |ret| then
        r == if env.rules.homestead then CreateResult(w0, addr, 0, ret, Some(CodeStoreOutOfGas))
             else CreateResult(w', addr, g, ret, Some(CodeStoreOutOfGas))
      else
        && r.err == None && r.addr == addr && r.gas == g - 200 * |ret| && r.ret == ret
        && AccountOf(env, r.w, addr) == AccountOf(env, w', addr).(code := ret, codeHash := Keccak(ret))
        && (forall x | x != addr :: AccountOf(env, r.w, x) == AccountOf(env, w', x))
        && r.w == w'.(accounts := r.w.accounts)
  }

  lemma DeployReports(env: Env, w0: World, addr: Address, result: RunResult, f: Frame, w: World, depth: nat, readOnly: bool)
    requires Run(env, w, f, depth, readOnly) == result && f.self == addr
    ensures CreationReports(env, w0, addr, result, Initialise(env, w0, w, f, depth, readOnly))
  {
    hide Run;
  }

  ghost predicate StartsInit(creator: Address, addr: Address, code: Bytes, gas: nat, value: Word, f: Frame)
  {
    && f.code == code && f.input == [] && f.gas == gas && f.self == addr && f.caller == creator && f.value == value
    && Blank(f)
  }

  /** An admitted creation is the iteration of steps from a frame with the given code at the new address. */
  lemma CreationRuns(
    env: Env, w: World, creator: Address, code: Bytes, gas: nat, value: Word, addr: Address, depth: nat, readOnly: bool)
    returns (f: Frame, n: nat, result: RunResult)
    requires Hashed(env, w) && Admitted(env, w, creator, value, addr, depth) && (env.noRecursion ==> depth == 0) && code != []
    ensures StartsInit(creator, addr, code, gas, value, f)
    ensures var w0 := BumpNonce(env, w, creator);
            && n <= gas + 1 && Iterate(env, Endow(env, w0, creator, addr, value), f, depth + 1, readOnly, n) == Stop(result)
            && CreationReports(env, w0, addr, result, CreateContract(env, w, creator, code, gas, value, addr, depth, readOnly))
  {
    hide Loop, Endow, BumpNonce, Hashed, Collides, Taken, Iterate, Initialise, CreationReports;
    TakenIsCollision(env, w, creator, addr);
    var w0 := BumpNonce(env, w, creator);
    var w2 := Endow(env, w0, creator, addr, value);
    f := InitFrame(creator, addr, code, gas, value);
    result := Loop(env, w2, f, depth + 1, readOnly);
    n := LoopIsIteration(env, w2, f, depth + 1, readOnly);
    DeployReports(env, w0, addr, result, f, w2, depth, readOnly);
  }

  /** Without initialisation code the new account is left with no code, all the gas comes back, and the value is there. */
  lemma EmptyCreation(
    env: Env, w: World, creator: Address, gas: nat, value: Word, addr: Address, depth: nat, readOnly: bool)
    requires Hashed(env, w) && Admitted(env, w, creator, value, addr, depth) && (env.noRecursion ==> depth == 0)
    ensures var r := CreateContract(env, w, creator, [], gas, value, addr, depth, readOnly);
            CreationReports(env, BumpNonce(env, w, creator), addr,
              Returned(Endow(env, BumpNonce(env, w, creator), creator, addr, value), gas, []), r)
  {
    hide Loop, Endow, BumpNonce, Hashed, Collides, Taken, Initialise, CreationReports;
    TakenIsCollision(env, w, creator, addr);
    var w0 := BumpNonce(env, w, creator);
    var w2 := Endow(env, w0, creator, addr, value);
    var f := InitFrame(creator, addr, [], gas, value);
    DeployReports(env, w0, addr, Returned(w2, gas, []), f, w2, depth, readOnly);
  }

  /** A successful creation leaves the code it returned at the address it reports. */
  lemma CodeInPlace(
    env: Env, w: World, creator: Address, code: Bytes, gas: nat, value: Word, addr: Address, depth: nat, readOnly: bool)
    requires Hashed(env, w) && (env.noRecursion ==> depth == 0)
    ensures var r := CreateContract(env, w, creator, code, gas, value, addr, depth, readOnly);
            r.err.None? ==> r.addr == addr && CodeOf(env, r.w, addr) == r.ret && AccountOf(env, r.w, addr).codeHash == Keccak(r.ret)
  {
    hide CreateContract, BumpNonce, Endow, Hashed, Iterate;
    if !Admitted(env, w, creator, value, addr, depth) {
      NotAdmitted(env, w, creator, code, gas, value, addr, depth, readOnly);
    } else if code == [] {
      EmptyCreation(env, w, creator, gas, value, addr, depth, readOnly);
    } else {
      var f, n, result := CreationRuns(env, w, creator, code, gas, value, addr, depth, readOnly);
    }
  }

  /** Where nested frames are switched off, an admitted creation below the top endows the account and runs nothing. */
  lemma CreationSwitchedOff(
    env: Env, w: World, creator: Address, code: Bytes, gas: nat, value: Word, addr: Address, depth: nat, readOnly: bool)
    requires Hashed(env, w) && Admitted(env, w, creator, value, addr, depth) && env.noRecursion && depth > 0
    ensures CreateContract(env, w, creator, code, gas, value, addr, depth, readOnly) ==
            CreateResult(Endow(env, BumpNonce(env, w, creator), creator, addr, value), addr, gas, [], None)
  {
    hide Endow, BumpNonce, Hashed, Collides, Taken, Initialise;
    TakenIsCollision(env, w, creator, addr);
  }
}
