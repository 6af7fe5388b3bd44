/** Total supply of ether over the committed and the cached accounts. */
module EvmSupply {
  import opened Basics
  import opened EvmTypes
  import opened EvmWorld

  ghost function SumBalances(m: map<Address, Account>): nat
  {
    if m == map[] then 0
    else var a :| a in m; m[a].balance + SumBalances(m - {a})
  }

  lemma {:induction false} SumRemove(m: map<Address, Account>, a: Address)
    requires a in m
    ensures SumBalances(m) == m[a].balance + SumBalances(m - {a})
    decreases |m|
  {
    var b :| b in m && SumBalances(m) == m[b].balance + SumBalances(m - {b});
    if a != b {
      SumRemove(m - {b}, a);
      SumRemove(m - {a}, b);
      assert m - {a} - {b} == m - {b} - {a};
    }
  }

  lemma SumPut(m: map<Address, Account>, a: Address, r: Account)
    ensures SumBalances(m[a := r]) == SumBalances(m) - (if a in m then m[a].balance else 0) + r.balance
  {
    SumRemove(m[a := r], a);
    assert m[a := r] - {a} == m - {a};
    if a in m {
      SumRemove(m, a);
    } else {
      assert m - {a} == m;
    }
  }

  ghost function Supply(env: Env, w: World): nat
  {
    SumBalances(env.committedAccounts + w.accounts)
  }

  lemma SupplyPut(env: Env, w: World, a: Address, r: Account)
    requires !IsEmptyRecord(r)
    ensures Supply(env, PutAccount(w, a, r)) == Supply(env, w) - Balance(env, w, a) + r.balance
  {
    var m := env.committedAccounts + w.accounts;
    assert env.committedAccounts + w.accounts[a := r] == m[a := r];
    SumPut(m, a, r);
  }

  lemma BalanceBound(env: Env, w: World, a: Address)
    ensures Balance(env, w, a) <= Supply(env, w)
  {
    var m := env.committedAccounts + w.accounts;
    if a in m { SumRemove(m, a); }
  }

  lemma TwoBalancesBound(env: Env, w: World, a: Address, b: Address)
    requires a != b
    ensures Balance(env, w, a) + Balance(env, w, b) <= Supply(env, w)
  {
    var m := env.committedAccounts + w.accounts;
    if a in m && b in m {
      SumRemove(m, a);
      SumRemove(m - {a}, b);
    } else {
      BalanceBound(env, w, a);
      BalanceBound(env, w, b);
    }
  }

  /** Every record carries the hash of its code, so none is ever dropped. */
  ghost predicate Hashed(env: Env, w: World)
  {
    && (forall a | a in env.committedAccounts ::
          env.committedAccounts[a].codeHash == Keccak(env.committedAccounts[a].code))
    && (forall a | a in w.accounts :: w.accounts[a].codeHash == Keccak(w.accounts[a].code))
  }

  lemma HashedAccount(env: Env, w: World, a: Address)
    requires Hashed(env, w)
    ensures AccountOf(env, w, a).codeHash == Keccak(AccountOf(env, w, a).code)
  {
  }

  lemma PutHashed(env: Env, w: World, a: Address, r: Account)
    requires Hashed(env, w) && r.codeHash == Keccak(r.code)
    ensures Hashed(env, PutAccount(w, a, r)) && !IsEmptyRecord(r)
    ensures PutAccount(w, a, r).accounts == w.accounts[a := r]
    ensures Supply(env, PutAccount(w, a, r)) == Supply(env, w) - Balance(env, w, a) + r.balance
    ensures AccountOf(env, PutAccount(w, a, r), a) == r
  {
    SupplyPut(env, w, a, r);
  }

  /** Adding to a balance within the supply bound does not wrap. */
  lemma AddSupply(env: Env, w: World, a: Address, v: Word)
    requires Hashed(env, w) && Balance(env, w, a) + v < TWO_256
    ensures Hashed(env, AddBalance(env, w, a, v))
    ensures Supply(env, AddBalance(env, w, a, v)) == Supply(env, w) + v
    ensures Balance(env, AddBalance(env, w, a, v), a) == Balance(env, w, a) + v
  {
    hide Supply, Hashed, AccountOf, PutAccount;
    var r := AccountOf(env, w, a);
    HashedAccount(env, w, a);
    PutHashed(env, w, a, r.(balance := r.balance + v));
  }

  lemma SubSupply(env: Env, w: World, a: Address, v: Word)
    requires Hashed(env, w) && v <= Balance(env, w, a)
    ensures Hashed(env, SubBalance(env, w, a, v))
    ensures Supply(env, SubBalance(env, w, a, v)) == Supply(env, w) - v
    ensures Balance(env, SubBalance(env, w, a, v), a) == Balance(env, w, a) - v
  {
    hide Supply, Hashed, AccountOf, PutAccount;
    var r := AccountOf(env, w, a);
    HashedAccount(env, w, a);
    PutHashed(env, w, a, r.(balance := r.balance - v));
  }

  /** A transfer the sender can afford moves ether without changing the supply. */
  lemma TransferSupply(env: Env, w: World, from: Address, to: Address, v: Word)
    requires Hashed(env, w) && Supply(env, w) < TWO_256 && v <= Balance(env, w, from)
    ensures Hashed(env, Transfer(env, w, from, to, v))
    ensures Supply(env, Transfer(env, w, from, to, v)) == Supply(env, w)
  {
    SubSupply(env, w, from, v);
    BalanceBound(env, SubBalance(env, w, from, v), to);
    AddSupply(env, SubBalance(env, w, from, v), to, v);
  }

  /** SELFDESTRUCT moves the whole balance; only a contract naming itself destroys ether. */
  lemma SuicideSupply(env: Env, w: World, self: Address, to: Address)
    requires Hashed(env, w) && Supply(env, w) < TWO_256
    ensures var w' := Suicide(env, AddBalance(env, w, to, Balance(env, w, self)), self);
            && Hashed(env, w') && w' == w.(accounts := w'.accounts, suicided := w.suicided + {self})
            && Supply(env, w') == Supply(env, w) - (if to == self then Balance(env, w, self) else 0)
  {
    var b := Balance(env, w, self);
    var w1 := AddBalance(env, w, to, b);
    var q := AccountOf(env, w, to);
    HashedAccount(env, w, to);
    if to != self {
      TwoBalancesBound(env, w, self, to);
      AddSupply(env, w, to, b);
    } else {
      PutHashed(env, w, to, q.(balance := Plus(q.balance, b)));
    }
    HashedAccount(env, w1, self);
    PutHashed(env, w1.(suicided := w1.suicided + {self}), self, AccountOf(env, w1, self).(balance := 0));
  }
}
