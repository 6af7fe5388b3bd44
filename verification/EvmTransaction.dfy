/** One transaction: buying gas, running the message, refunding and paying the fee. */
module EvmTransaction {
  import opened Arithmetic
  import opened Basics
  import opened EvmTypes
  import opened EvmWorld
  import opened EvmSemantics
  import opened EvmSupply
  import opened EvmRefund
  import opened EvmRuns
  import opened EvmStateDB
  import opened EvmContext
  import opened EvmMachine

  datatype Tx = Tx(
    from: Address, to: Option<Address>, gasPrice: nat, gas: nat, value: Word,
    nonce: nat, checkNonce: bool, data: Bytes, feeReceiver: Address)

  datatype NonceError = NonceTooHigh | NonceTooLow

  /** Why a transaction that was accepted failed; `Vm` is an error of the machine. */
  datatype TxError = IntrinsicGasTooLow | InsufficientFunds | Vm(err: Error)

  datatype TxResult = Rejected(reason: NonceError) | Applied(w: World, usedGas: nat, err: Option<TxError>, ret: Bytes)

  function NonZeroBytes(data: Bytes): (n: nat)
    ensures n <= |data|
  {
    if data == [] then 0 else NonZeroBytes(data[..|data| - 1]) + (if data[|data| - 1] != 0 then 1 else 0)
  }

  /** Gas a transaction costs before any code runs. */
  function IntrinsicGas(data: Bytes, creation: bool, homestead: bool, eip2028: bool): nat
  {
    var nz := NonZeroBytes(data);
    (if creation && homestead then 53000 else 21000)
    + nz * (if eip2028 then 16 else 68) + (|data| - nz) * 4
  }

  /** State, gas left, error and output once the message has run. */
  datatype Outcome = Outcome(w: World, gas: nat, err: Option<TxError>, ret: Bytes)

  function VmError(e: Option<Error>): Option<TxError> { if e.None? then None else Some(Vm(e.value)) }

  /** Running the message with the gas bought, from the state after buying it. */
  function Perform(env: Env, w: World, tx: Tx): (r: Outcome)
    ensures r.gas <= tx.gas
  {
    var intrinsic := IntrinsicGas(tx.data, tx.to.None?, env.rules.homestead, env.rules.istanbul);
    if tx.gas < intrinsic then Outcome(BumpNonce(env, w, tx.from), 0, Some(IntrinsicGasTooLow), [])
    else if tx.value > 0 && Balance(env, w, tx.from) < tx.value then
      Outcome(BumpNonce(env, w, tx.from), tx.gas - intrinsic, Some(InsufficientFunds), [])
    else if tx.to.None? then
      var addr := env.createAddress(tx.from, AccountOf(env, w, tx.from).nonce);
      var r := CreateContract(env, w, tx.from, tx.data, tx.gas - intrinsic, tx.value, addr, 0, false);
      Outcome(r.w, r.gas, VmError(r.err), r.ret)
    else
      var m := Message(Call, tx.from, 0, 0, tx.to.value, tx.data, tx.value);
      var r := CallMessage(env, BumpNonce(env, w, tx.from), m, tx.gas - intrinsic, 0, false);
      Outcome(r.w, r.gas, VmError(r.err), r.ret)
  }

  /** Gas finally left: what the run left plus the refund, which is at most half of what it used. */
  function GasAfterRefund(tx: Tx, o: Outcome): (g: nat)
    requires o.gas <= tx.gas
    ensures o.gas <= g <= tx.gas && g - o.gas <= (tx.gas - o.gas) / 2 && g - o.gas <= o.w.refund
  {
    o.gas + Min((tx.gas - o.gas) / 2, o.w.refund)
  }

  /** What an amount of gas costs. */
  function Fee(gas: nat, price: nat): nat { gas * price }

  datatype Purchase = Purchase(gas: nat, paid: nat)

  /**
   * The gas a balance buys and what is taken for it. A balance that does not cover the gas limit buys what it can; the
   * quotient then overwrites the number that was to be taken, so that one unit per gas is paid whatever the price.
   */
  function Buy(tx: Tx, balance: Word): (b: Purchase)
    ensures b.gas <= tx.gas && b.paid <= Fee(b.gas, tx.gasPrice) <= balance
  {
    if Fee(tx.gas, tx.gasPrice) <= balance then Purchase(tx.gas, Fee(tx.gas, tx.gasPrice))
    else
      ShortQuotient(tx.gas, tx.gasPrice, balance);
      Purchase(balance / tx.gasPrice, balance / tx.gasPrice)
  }

  /** What is handed back and paid out beyond what was taken. */
  function Unpaid(tx: Tx, balance: Word): nat { Fee(Buy(tx, balance).gas, tx.gasPrice) - Buy(tx, balance).paid }

  lemma ShortQuotient(gas: nat, price: nat, balance: nat)
    requires balance < Fee(gas, price)
    ensures price > 0 && balance / price <= gas && balance / price <= Fee(balance / price, price) <= balance
    ensures Fee(balance / price, price) == balance / price <==> price == 1 || balance < price
  {
    assert price > 0;
    var q, r := balance / price, balance % price;
    assert balance == q * price + r;
    QuotientScaled(q, r, price);
    if q > gas { ProductGrows(gas, q, price); }
  }

  lemma QuotientScaled(q: nat, r: nat, price: nat)
    requires r < price
    ensures q <= q * price
    ensures q * price == q <==> price == 1 || q * price + r < price
  {
    if q > 0 && price > 1 { ProductGrows(2, price, q); }
    if q > 0 { ProductGrows(1, q, price); }
    ProductGrows(1, price, q);
  }

  /** Everything is paid for exactly when the balance covers the gas limit, the price is one, or no gas is bought. */
  lemma PaidExactly(tx: Tx, balance: Word)
    ensures Unpaid(tx, balance) == 0 <==> Fee(tx.gas, tx.gasPrice) <= balance || tx.gasPrice == 1 || balance < tx.gasPrice
  {
    if balance < Fee(tx.gas, tx.gasPrice) {
      ShortQuotient(tx.gas, tx.gasPrice, balance);
    }
  }

  /** The whole transition. */
  function Transition(env: Env, w: World, tx: Tx): TxResult
  {
    var nonce := AccountOf(env, w, tx.from).nonce;
    if tx.checkNonce && nonce < tx.nonce then Rejected(NonceTooHigh)
    else if tx.checkNonce && nonce > tx.nonce then Rejected(NonceTooLow)
    else
      var b := Buy(tx, Balance(env, w, tx.from));
      var t := tx.(gas := b.gas);
      var o := Perform(env, SubBalance(env, w, tx.from, b.paid), t);
      var left := GasAfterRefund(t, o);
      FeeBounds(left, b.gas, tx.gasPrice);
      var w1 := AddBalance(env, o.w, tx.from, Fee(left, tx.gasPrice));
      var w2 := AddBalance(env, w1, tx.feeReceiver, Fee(b.gas - left, tx.gasPrice));
      Applied(w2, b.gas - left, o.err, o.ret)
  }

  /** What is handed back and what is kept add up to what was paid. */
  lemma FeeBounds(left: nat, gas: nat, price: nat)
    requires left <= gas
    ensures Fee(left, price) + Fee(gas - left, price) == Fee(gas, price)
  {
    assert left * price + (gas - left) * price == gas * price;
  }

  lemma {:induction false} PerformKept(env: Env, w: World, tx: Tx)
    requires Sound(env, w)
    ensures Kept(env, w, Perform(env, w, tx).w, false) && Perform(env, w, tx).err != Some(Vm(RefundPanic))
  {
    hide Kept, Sound, CallMessage, CreateContract;
    var w0 := BumpNonce(env, w, tx.from);
    SetNonceKept(env, w, tx.from, (AccountOf(env, w, tx.from).nonce + 1) % TWO_64);
    KeptWeaken(env, w, w0, false);
    var intrinsic := IntrinsicGas(tx.data, tx.to.None?, env.rules.homestead, env.rules.istanbul);
    if tx.gas >= intrinsic {
      if tx.to.None? {
        var addr := env.createAddress(tx.from, AccountOf(env, w, tx.from).nonce);
        CreateKeeps(env, w, tx.from, tx.data, tx.gas - intrinsic, tx.value, addr, 0, false);
      } else {
        var m := Message(Call, tx.from, 0, 0, tx.to.value, tx.data, tx.value);
        CallKeeps(env, w0, m, tx.gas - intrinsic, 0, false);
        KeptTrans(env, w, w0, CallMessage(env, w0, m, tx.gas - intrinsic, 0, false).w, false);
      }
    }
  }

  lemma AddKeepsBacked(env: Env, w: World, a: Address, v: Word)
    requires Sound(env, w) && Supply(env, w) + v < TWO_256
    ensures var w' := AddBalance(env, w, a, v);
            Sound(env, w') && Supply(env, w') == Supply(env, w) + v && w'.suicided == w.suicided && w'.logs == w.logs
  {
    BalanceBound(env, w, a);
    AddSupply(env, w, a, v);
    assert Cleared(env, AddBalance(env, w, a, v)) == Cleared(env, w);
  }

  lemma SubKeepsBacked(env: Env, w: World, a: Address, v: Word)
    requires Sound(env, w) && v <= Balance(env, w, a)
    ensures var w' := SubBalance(env, w, a, v);
            Sound(env, w') && Supply(env, w') == Supply(env, w) - v && w'.suicided == w.suicided && w'.logs == w.logs
  {
    SubSupply(env, w, a, v);
    assert Cleared(env, SubBalance(env, w, a, v)) == Cleared(env, w);
  }

  /**
   * A transaction changes the supply by what was not paid for when gas was bought, less what self-destructs destroy;
   * it uses no more gas than it bought and the refund counter never underflows.
   */
  lemma TransitionSupply(env: Env, w: World, tx: Tx)
    requires Sound(env, w) && Supply(env, w) + Unpaid(tx, Balance(env, w, tx.from)) < TWO_256
    ensures match Transition(env, w, tx)
            case Rejected(_) => true
            case Applied(w', used, err, _) =>
              && Sound(env, w') && w.logs <= w'.logs
              && Supply(env, w') <= Supply(env, w) + Unpaid(tx, Balance(env, w, tx.from))
              && (w'.suicided == {} ==> Supply(env, w') == Supply(env, w) + Unpaid(tx, Balance(env, w, tx.from)))
              && used <= Buy(tx, Balance(env, w, tx.from)).gas && err != Some(Vm(RefundPanic))
  {
    hide Sound, Perform, AddBalance, SubBalance, Supply, Buy, Fee;
    var b := Buy(tx, Balance(env, w, tx.from));
    var t := tx.(gas := b.gas);
    var w0 := SubBalance(env, w, tx.from, b.paid);
    SubKeepsBacked(env, w, tx.from, b.paid);
    PerformKept(env, w0, t);
    var o := Perform(env, w0, t);
    var left := GasAfterRefund(t, o);
    FeeBounds(left, b.gas, tx.gasPrice);
    AddKeepsBacked(env, o.w, tx.from, Fee(left, tx.gasPrice));
    AddKeepsBacked(env, AddBalance(env, o.w, tx.from, Fee(left, tx.gasPrice)), tx.feeReceiver, Fee(b.gas - left, tx.gasPrice));
  }

  /**
   * A transaction whose sender can pay never creates ether, and destroys none unless a contract self-destructs. Without
   * self-destructs the supply is kept if and only if the balance covers the gas, the price is one, or no gas is bought.
   */
  lemma TransitionConserves(env: Env, w: World, tx: Tx)
    requires Sound(env, w) && Supply(env, w) + Unpaid(tx, Balance(env, w, tx.from)) < TWO_256
    ensures var balance := Balance(env, w, tx.from);
            var pays := Fee(tx.gas, tx.gasPrice) <= balance || tx.gasPrice == 1 || balance < tx.gasPrice;
            match Transition(env, w, tx)
            case Rejected(_) => true
            case Applied(w', _, _, _) =>
              && (pays ==> Supply(env, w') <= Supply(env, w))
              && (w'.suicided == {} ==> (Supply(env, w') == Supply(env, w) <==> pays))
  {
    hide Sound, Transition, Supply, Unpaid, Fee;
    TransitionSupply(env, w, tx);
    PaidExactly(tx, Balance(env, w, tx.from));
  }

  /** A short balance that buys some gas, but less than the intrinsic cost, always creates ether: no code runs. */
  lemma ShortBalanceCreates(env: Env, w: World, tx: Tx)
    requires Sound(env, w) && Supply(env, w) + Unpaid(tx, Balance(env, w, tx.from)) < TWO_256
    requires 1 < tx.gasPrice <= Balance(env, w, tx.from) < Fee(tx.gas, tx.gasPrice)
    requires Balance(env, w, tx.from) < Fee(21000, tx.gasPrice) && w.suicided == {} && !tx.checkNonce
    ensures Transition(env, w, tx).Applied? && Supply(env, Transition(env, w, tx).w) > Supply(env, w)
  {
    hide Sound, Supply, Unpaid, Fee, Perform;
    var balance := Balance(env, w, tx.from);
    ShortQuotient(tx.gas, tx.gasPrice, balance);
    ShortQuotient(21000, tx.gasPrice, balance);
    var b := Buy(tx, balance);
    Underpaid(env, SubBalance(env, w, tx.from, b.paid), tx.(gas := b.gas));
    TransitionSupply(env, w, tx);
    PaidExactly(tx, balance);
  }

  /** Too little gas to start: no code runs. */
  lemma Underpaid(env: Env, w: World, tx: Tx)
    requires tx.gas < 21000
    ensures Perform(env, w, tx).w.suicided == w.suicided
  {
    hide CallMessage, CreateContract;
  }

  /** The intrinsic gas by counting bytes. */
  method CountIntrinsicGas(data: Bytes, creation: bool, homestead: bool, eip2028: bool) returns (gas: nat)
    ensures gas == IntrinsicGas(data, creation, homestead, eip2028)
  {
    gas := if creation && homestead then 53000 else 21000;
    if |data| > 0 {
      var nz := 0;
      for i := 0 to |data|
        invariant nz == NonZeroBytes(data[..i])
      {
        assert data[..i + 1][..i] == data[..i];
        if data[i] != 0 { nz := nz + 1; }
      }
      assert data[..|data|] == data;
      var nonZeroGas := 68;
      if eip2028 { nonZeroGas := 16; }
      gas := gas + nz * nonZeroGas;
      var z := |data| - nz;
      gas := gas + z * 4;
    }
  }

  class StateTransition {
    const tx: Tx
    const evm: EVM
    const db: StateDB
    var gas: nat
    var initialGas: nat

    constructor (evm: EVM, tx: Tx)
      ensures this.tx == tx && this.evm == evm && db == evm.db && gas == 0 && initialGas == 0
    {
      this.tx, this.evm, db := tx, evm, evm.db;
      gas, initialGas := 0, 0;
    }

    function GasUsed(): nat
      requires gas <= initialGas
      reads this
    {
      initialGas - gas
    }

    /** Pays for the gas up front, as far as the balance goes. */
    method BuyGas()
      modifies this, db`accounts
      ensures var b := Buy(tx, Balance(db.env, old(db.View()), tx.from));
              && gas == old(gas) + b.gas && initialGas == b.gas
              && db.View() == SubBalance(db.env, old(db.View()), tx.from, b.paid)
    {
      var bought := tx.gas;
      var value := Fee(tx.gas, tx.gasPrice);
      var have := db.GetAccount(tx.from).balance;
      if have < value {
        ShortQuotient(tx.gas, tx.gasPrice, have);
        // the division is in place, on the number that value stands for
        value := have / tx.gasPrice;
        bought := value;
      }
      gas := gas + bought;
      initialGas := bought;
      db.SubBalance(tx.from, value);
    }

    /** Adds the refund to the gas left and returns its price to the sender. */
    method RefundGas()
      requires gas <= initialGas && Fee(initialGas, tx.gasPrice) < TWO_256
      modifies this`gas, db`accounts
      ensures gas == GasAfterRefund(tx.(gas := initialGas), Outcome(old(db.View()), old(gas), None, []))
      ensures Fee(gas, tx.gasPrice) <= Fee(initialGas, tx.gasPrice)
      ensures db.View() == AddBalance(db.env, old(db.View()), tx.from, Fee(gas, tx.gasPrice))
    {
      var refund := GasUsed() / 2;
      if refund > db.refund { refund := db.refund; }
      gas := gas + refund;
      FeeBounds(gas, initialGas, tx.gasPrice);
      db.AddBalance(tx.from, Fee(gas, tx.gasPrice));
    }

    /** Charges the intrinsic gas and runs the message. */
    method RunMessage() returns (ret: Bytes, err: Option<TxError>)
      requires db == evm.db && evm.env == db.env && evm.depth == 0 && !evm.readOnly
      requires Sound(db.env, db.View()) && gas < TWO_64
      modifies this`gas, evm, db
      ensures Outcome(db.View(), gas, err, ret) == Perform(db.env, old(db.View()), tx.(gas := old(gas)))
    {
      hide Sound, Kept, CallMessage, CreateContract, IntrinsicGas, AccountOf, SetNonce, PutAccount;
      var env := db.env;
      ret, err := [], None;
      ghost var w := db.View();
      var intrinsic := CountIntrinsicGas(tx.data, tx.to.None?, env.rules.homestead, env.rules.istanbul);
      if gas < intrinsic {
        err := Some(IntrinsicGasTooLow);
        intrinsic := gas;
      } else if tx.value > 0 && db.GetAccount(tx.from).balance < tx.value {
        err := Some(InsufficientFunds);
      }
      gas := gas - intrinsic;
      if err.None? && tx.to.None? {
        var jumpdests := new JumpdestCache();
        var addr := env.createAddress(tx.from, db.GetAccount(tx.from).nonce);
        var created, vmErr;
        ret, created, gas, vmErr := evm.Create(tx.from, jumpdests, tx.data, NoHash, gas, tx.value, addr);
        err := VmError(vmErr);
      } else {
        SetNonceKept(env, w, tx.from, (AccountOf(env, w, tx.from).nonce + 1) % TWO_64);
        db.SetNonce(tx.from, (db.GetAccount(tx.from).nonce + 1) % TWO_64);
        if err.None? {
          KeptWeaken(env, w, db.View(), false);
          var jumpdests := new JumpdestCache();
          var vmErr;
          ret, gas, vmErr := evm.Call(Sender(tx.from, 0, 0), jumpdests, tx.to.value, tx.data, gas, tx.value);
          err := VmError(vmErr);
        }
      }
    }

    /** The transaction in place, as the reference transition. */
    method TransitionDb() returns (result: TxResult)
      requires db == evm.db && evm.env == db.env && evm.depth == 0 && !evm.readOnly
      requires Sound(db.env, db.View()) && gas == 0 && tx.gas < TWO_64
      modifies this, evm, db
      ensures result == Transition(db.env, old(db.View()), tx)
      ensures db.View() == if result.Applied? then result.w else old(db.View())
    {
      hide Sound, Perform, AddBalance, SubBalance, Buy, Fee;
      if tx.checkNonce {
        var nonce := db.GetAccount(tx.from).nonce;
        if nonce < tx.nonce { return Rejected(NonceTooHigh); }
        if nonce > tx.nonce { return Rejected(NonceTooLow); }
      }
      ghost var b := Buy(tx, Balance(db.env, db.View(), tx.from));
      SubKeepsBacked(db.env, db.View(), tx.from, b.paid);
      BuyGas();
      var ret, err := RunMessage();
      RefundGas();
      FeeBounds(gas, initialGas, tx.gasPrice);
      var fee := Fee(GasUsed(), tx.gasPrice);
      db.AddBalance(tx.feeReceiver, fee);
      result := Applied(db.View(), GasUsed(), err, ret);
    }
  }
}
