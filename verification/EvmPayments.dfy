/** Who pays for a transaction and who is paid, account by account. */
module EvmPayments {
  import opened Basics
  import opened EvmTypes
  import opened EvmWorld
  import opened EvmSemantics
  import opened EvmSupply
  import opened EvmRuns
  import opened EvmCalls
  import opened EvmTransaction

  /** What intrinsic gas charges for one byte. */
  function BytePrice(b: Byte, eip2028: bool): nat { if b == 0 then 4 else if eip2028 then 16 else 68 }

  /** Intrinsic gas: a base, more for creations since Homestead, and a price for every byte. */
  lemma IntrinsicByByte(data: Bytes, b: Byte, creation: bool, homestead: bool, eip2028: bool)
    ensures IntrinsicGas([], creation, homestead, eip2028) == if creation && homestead then 53000 else 21000
    ensures IntrinsicGas(data + [b], creation, homestead, eip2028) ==
            IntrinsicGas(data, creation, homestead, eip2028) + BytePrice(b, eip2028)
  {
    assert (data + [b])[..|data|] == data;
  }

  /** The message of a transaction, from the state in which its gas was bought. */
  function MessageRun(env: Env, w: World, tx: Tx): Outcome
  {
    var b := Buy(tx, Balance(env, w, tx.from));
    Perform(env, SubBalance(env, w, tx.from, b.paid), tx.(gas := b.gas))
  }

  predicate NonceAccepted(env: Env, w: World, tx: Tx) { tx.checkNonce ==> AccountOf(env, w, tx.from).nonce == tx.nonce }

  /** A transaction is applied exactly when its nonce is right; a nonce ahead and a nonce behind are told apart. */
  lemma AppliedExactly(env: Env, w: World, tx: Tx)
    ensures Transition(env, w, tx).Applied? <==> NonceAccepted(env, w, tx)
    ensures !NonceAccepted(env, w, tx) ==>
              Transition(env, w, tx) == Rejected(if tx.nonce > AccountOf(env, w, tx.from).nonce then NonceTooHigh else NonceTooLow)
  {
    hide Perform, AddBalance, SubBalance, Fee, Buy;
  }

  /** Before the message runs, what the gas costs is taken from the sender and from no one else. */
  lemma GasBought(env: Env, w: World, tx: Tx)
    requires Hashed(env, w)
    ensures var paid := Buy(tx, Balance(env, w, tx.from)).paid;
            var w0 := SubBalance(env, w, tx.from, paid);
            && Hashed(env, w0) && OnlyBalances(env, w, w0)
            && forall a :: Balance(env, w0, a) == Balance(env, w, a) - if a == tx.from then paid else 0
  {
    hide Buy, SubBalance, Hashed;
    Debited(env, w, tx.from, Buy(tx, Balance(env, w, tx.from)).paid);
  }

  /**
   * What is bought is the most gas, up to the limit, that the balance pays for. Gas that is covered up to the limit is
   * paid at its price, and less than that at one unit each.
   */
  lemma MostGasBought(tx: Tx, balance: Word)
    ensures var b := Buy(tx, balance);
            && b.gas <= tx.gas && b.gas * tx.gasPrice <= balance && (b.gas == tx.gas || balance < (b.gas + 1) * tx.gasPrice)
            && b.paid == if tx.gas * tx.gasPrice <= balance then b.gas * tx.gasPrice else b.gas
  {
    if balance < tx.gas * tx.gasPrice {
      ShortQuotient(tx.gas, tx.gasPrice, balance);
      var q := balance / tx.gasPrice;
      assert balance == q * tx.gasPrice + balance % tx.gasPrice;
      assert (q + 1) * tx.gasPrice == q * tx.gasPrice + tx.gasPrice;
    }
  }

  /**
   * After the message, the sender gets back the price of the gas that is left and the fee receiver gets the price of the gas
   * that was used; no other account moves.
   */
  lemma Settled(env: Env, w: World, tx: Tx)
    requires Sound(env, w) && Supply(env, w) + Unpaid(tx, Balance(env, w, tx.from)) < TWO_256 && NonceAccepted(env, w, tx)
    ensures var r := Transition(env, w, tx);
            var o := MessageRun(env, w, tx);
            var bought := Buy(tx, Balance(env, w, tx.from)).gas;
            && r.Applied? && r.usedGas <= bought && r.err == o.err && r.ret == o.ret && OnlyBalances(env, o.w, r.w)
            && forall a :: Balance(env, r.w, a) == Balance(env, o.w, a)
                 + (if a == tx.from then (bought - r.usedGas) * tx.gasPrice else 0)
                 + (if a == tx.feeReceiver then r.usedGas * tx.gasPrice else 0)
  {
    hide Sound, Perform, AddBalance, SubBalance, Supply, Buy, Hashed, OnlyBalances;
    var b := Buy(tx, Balance(env, w, tx.from));
    var t := tx.(gas := b.gas);
    SubKeepsBacked(env, w, tx.from, b.paid);
    PerformKept(env, SubBalance(env, w, tx.from, b.paid), t);
    var o := MessageRun(env, w, tx);
    var left := GasAfterRefund(t, o);
    FeeBounds(left, b.gas, tx.gasPrice);
    AddKeepsBacked(env, o.w, tx.from, Fee(left, tx.gasPrice));
    TwoCredits(env, o.w, tx.from, Fee(left, tx.gasPrice), tx.feeReceiver, Fee(b.gas - left, tx.gasPrice));
  }

  lemma TwoCredits(env: Env, w: World, a: Address, x: Word, b: Address, y: Word)
    requires Sound(env, w) && Supply(env, w) + x + y < TWO_256
    ensures var w' := AddBalance(env, AddBalance(env, w, a, x), b, y);
            && OnlyBalances(env, w, w')
            && forall c :: Balance(env, w', c) == Balance(env, w, c) + (if c == a then x else 0) + (if c == b then y else 0)
  {
    hide AddBalance, Supply, Hashed, AccountOf;
    var w1 := AddBalance(env, w, a, x);
    BalanceBound(env, w, a);
    Credited(env, w, a, x);
    AddKeepsBacked(env, w, a, x);
    BalanceBound(env, w1, b);
    Credited(env, w1, b, y);
  }

  /** The refund counter shortens the gas used, by at most half of it. */
  lemma UsedGas(env: Env, w: World, tx: Tx)
    requires NonceAccepted(env, w, tx)
    ensures var r := Transition(env, w, tx);
            var spent := Buy(tx, Balance(env, w, tx.from)).gas - MessageRun(env, w, tx).gas;
            r.Applied? && r.usedGas == spent - Min(spent / 2, MessageRun(env, w, tx).w.refund)
  {
    hide Perform, AddBalance, SubBalance, Fee, Buy;
  }

  // ----- what the gas that was bought is used for -----

  /** The sender may send the message: the gas covers the intrinsic gas and the balance the value. */
  predicate MaySend(env: Env, w: World, tx: Tx)
  {
    && IntrinsicGas(tx.data, tx.to.None?, env.rules.homestead, env.rules.istanbul) <= tx.gas
    && (tx.value > 0 ==> tx.value <= Balance(env, w, tx.from))
  }

  /** Otherwise only the nonce advances; too little gas is all used up, too little balance leaves the rest. */
  lemma MayNotSend(env: Env, w: World, tx: Tx)
    requires !MaySend(env, w, tx)
    ensures var intrinsic := IntrinsicGas(tx.data, tx.to.None?, env.rules.homestead, env.rules.istanbul);
            Perform(env, w, tx) ==
            if tx.gas < intrinsic then Outcome(BumpNonce(env, w, tx.from), 0, Some(IntrinsicGasTooLow), [])
            else Outcome(BumpNonce(env, w, tx.from), tx.gas - intrinsic, Some(InsufficientFunds), [])
  {
    hide IntrinsicGas, CallMessage, CreateContract, BumpNonce;
  }

  ghost predicate Outcomes(o: Outcome, w: World, gas: nat, err: Option<Error>, ret: Bytes)
  {
    o.w == w && o.gas == gas && o.ret == ret && o.err == if err.None? then None else Some(Vm(err.value))
  }

  /** A transaction with a target is a call from the sender, who is its own origin, with the gas beyond the intrinsic. */
  lemma SendsCall(env: Env, w: World, tx: Tx)
    requires MaySend(env, w, tx) && tx.to.Some?
    ensures var m := Message(Call, tx.from, 0, 0, tx.to.value, tx.data, tx.value);
            var gas := tx.gas - IntrinsicGas(tx.data, false, env.rules.homestead, env.rules.istanbul);
            var r := CallMessage(env, BumpNonce(env, w, tx.from), m, gas, 0, false);
            Outcomes(Perform(env, w, tx), r.w, r.gas, r.err, r.ret)
  {
    hide IntrinsicGas, CallMessage, CreateContract, BumpNonce;
  }

  /** A transaction without a target creates a contract from its data, at the address for the sender and its nonce. */
  lemma SendsCreation(env: Env, w: World, tx: Tx)
    requires MaySend(env, w, tx) && tx.to.None?
    ensures var addr := env.createAddress(tx.from, AccountOf(env, w, tx.from).nonce);
            var gas := tx.gas - IntrinsicGas(tx.data, true, env.rules.homestead, env.rules.istanbul);
            var r := CreateContract(env, w, tx.from, tx.data, gas, tx.value, addr, 0, false);
            Outcomes(Perform(env, w, tx), r.w, r.gas, r.err, r.ret)
  {
    hide IntrinsicGas, CallMessage, CreateContract;
  }

  // ----- a plain transfer of value -----

  /** A transfer to an account without code, from a sender who can pay for it and for the gas. */
  ghost predicate PlainTransfer(env: Env, w: World, tx: Tx)
  {
    && NonceAccepted(env, w, tx) && tx.to.Some? && !env.isPrecompile(tx.to.value) && CodeOf(env, w, tx.to.value) == []
    && IntrinsicGas(tx.data, false, env.rules.homestead, env.rules.istanbul) <= tx.gas
    && tx.gas * tx.gasPrice + tx.value <= Balance(env, w, tx.from)
  }

  /** The message of a plain transfer moves the value, advances the sender's nonce, and uses the intrinsic gas. */
  lemma TransferRun(env: Env, w: World, tx: Tx)
    requires Sound(env, w) && PlainTransfer(env, w, tx)
    ensures var o := MessageRun(env, w, tx);
            && o.err == None && o.ret == [] && o.w.refund == w.refund
            && o.gas == tx.gas - IntrinsicGas(tx.data, false, env.rules.homestead, env.rules.istanbul)
            && AccountOf(env, o.w, tx.from).nonce == (AccountOf(env, w, tx.from).nonce + 1) % TWO_64
            && forall a :: Balance(env, o.w, a) == Balance(env, w, a)
                 - (if a == tx.from then tx.gas * tx.gasPrice + tx.value else 0) + (if a == tx.to.value then tx.value else 0)
  {
    hide IntrinsicGas, Perform, SubBalance, Sound, Supply, Hashed;
    var paid := tx.gas * tx.gasPrice;
    SoundParts(env, w);
    Debited(env, w, tx.from, paid);
    SubSupply(env, w, tx.from, paid);
    SameCode(env, w, SubBalance(env, w, tx.from, paid), tx.to.value);
    TransferPerformed(env, SubBalance(env, w, tx.from, paid), tx);
  }

  /** The same from the state in which the gas was bought. */
  lemma TransferPerformed(env: Env, w: World, tx: Tx)
    requires Hashed(env, w) && Supply(env, w) < TWO_256 && MaySend(env, w, tx) && tx.value <= Balance(env, w, tx.from)
    requires tx.to.Some? && !env.isPrecompile(tx.to.value) && CodeOf(env, w, tx.to.value) == []
    ensures var o := Perform(env, w, tx);
            && o.err == None && o.ret == [] && o.w.refund == w.refund
            && o.gas == tx.gas - IntrinsicGas(tx.data, false, env.rules.homestead, env.rules.istanbul)
            && AccountOf(env, o.w, tx.from).nonce == (AccountOf(env, w, tx.from).nonce + 1) % TWO_64
            && forall a :: Balance(env, o.w, a) == Balance(env, w, a)
                 - (if a == tx.from then tx.value else 0) + (if a == tx.to.value then tx.value else 0)
  {
    hide IntrinsicGas, CallMessage, Perform, BumpNonce, Supply, Hashed;
    var w1 := BumpNonce(env, w, tx.from);
    NonceAdvanced(env, w, tx.from);
    NonceSupply(env, w, tx.from);
    var m := Message(Call, tx.from, 0, 0, tx.to.value, tx.data, tx.value);
    TransferMessage(env, w1, m, tx.gas - IntrinsicGas(tx.data, false, env.rules.homestead, env.rules.istanbul));
    SendsCall(env, w, tx);
  }

  lemma SoundParts(env: Env, w: World)
    requires Sound(env, w)
    ensures Hashed(env, w) && Supply(env, w) < TWO_256
  {
  }

  lemma NonceSupply(env: Env, w: World, a: Address)
    requires Hashed(env, w)
    ensures Supply(env, BumpNonce(env, w, a)) == Supply(env, w)
  {
    hide Supply, Hashed, SetNonce;
    NonceSet(env, w, a, (AccountOf(env, w, a).nonce + 1) % TWO_64);
  }

  /** A top-level call to an account without code. */
  lemma TransferMessage(env: Env, w: World, m: Message, gas: nat)
    requires Hashed(env, w) && Supply(env, w) < TWO_256 && m.kind.Call? && m.value <= Balance(env, w, m.from)
    requires !env.isPrecompile(m.to) && CodeOf(env, w, m.to) == []
    ensures var r := CallMessage(env, w, m, gas, 0, false);
            && r.gas == gas && r.ret == [] && r.err == None && OnlyBalances(env, w, r.w)
            && forall a :: Balance(env, r.w, a) ==
                 Balance(env, w, a) - (if a == m.from then m.value else 0) + (if a == m.to then m.value else 0)
  {
    hide CallMessage, Prepare, Hashed, Supply;
    if Accepted(env, w, m, 0) {
      CodelessCallee(env, w, m, gas, 0, false);
      Prepared(env, w, m, 0);
    } else {
      NotAccepted(env, w, m, gas, 0, false);
    }
  }

  /**
   * A plain transfer costs the sender the value and the price of the gas used, gives the target the value and the receiver
   * the price of the gas used, and moves no other balance; the gas used is the intrinsic gas, less a refund if one was due.
   */
  lemma PlainTransferSettled(env: Env, w: World, tx: Tx)
    requires Sound(env, w) && PlainTransfer(env, w, tx)
    ensures var r := Transition(env, w, tx);
            var intrinsic := IntrinsicGas(tx.data, false, env.rules.homestead, env.rules.istanbul);
            && r.Applied? && r.err == None && r.ret == [] && r.usedGas == intrinsic - Min(intrinsic / 2, w.refund)
            && AccountOf(env, r.w, tx.from).nonce == (AccountOf(env, w, tx.from).nonce + 1) % TWO_64
            && forall a :: Balance(env, r.w, a) == Balance(env, w, a)
                 - (if a == tx.from then tx.value + r.usedGas * tx.gasPrice else 0)
                 + (if a == tx.to.value then tx.value else 0)
                 + (if a == tx.feeReceiver then r.usedGas * tx.gasPrice else 0)
  {
    hide Sound, Transition, MessageRun, Supply, IntrinsicGas, AccountOf;
    PaidExactly(tx, Balance(env, w, tx.from));
    SoundParts(env, w);
    Settled(env, w, tx);
    UsedGas(env, w, tx);
    TransferRun(env, w, tx);
    FeeBounds(tx.gas - Transition(env, w, tx).usedGas, tx.gas, tx.gasPrice);
  }
}
