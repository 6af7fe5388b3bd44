/** The state database: cached records, a refund counter, logs, and a stack of snapshots. */
module EvmStateDB {
  import opened Basics
  import opened EvmTypes
  import opened EvmWorld

  /** A snapshot keeps copies of everything but the logs, of which it keeps the number. */
  datatype Snapshot = Snapshot(
    accounts: map<Address, Account>, storage: map<Slot, Word>,
    suicided: set<Address>, logsSize: nat, refund: nat)

  class StateDB {
    const env: Env
    var accounts: map<Address, Account>
    var storage: map<Slot, Word>
    var suicided: set<Address>
    var logs: seq<Log>
    var refund: nat
    var snapshots: seq<Snapshot>

    /** The database as a value. */
    function View(): World
      reads this
    {
      World(accounts, storage, suicided, logs, refund)
    }

    /** The world a snapshot stands for. */
    function Saved(i: nat): World
      requires i < |snapshots| && snapshots[i].logsSize <= |logs|
      reads this
    {
      var s := snapshots[i];
      World(s.accounts, s.storage, s.suicided, logs[..s.logsSize], s.refund)
    }

    constructor (env: Env)
      ensures this.env == env && View() == World(map[], map[], {}, [], 0) && snapshots == []
    {
      this.env := env;
      accounts, storage, suicided, logs, refund, snapshots := map[], map[], {}, [], 0, [];
    }

    function GetAccount(a: Address): (r: Account)
      reads this
      ensures r == AccountOf(env, View(), a)
    {
      if a in accounts then accounts[a]
      else if a in env.committedAccounts then env.committedAccounts[a]
      else FreshAccount
    }

    method PutEthAccount(a: Address, r: Account)
      modifies this`accounts
      ensures View() == PutAccount(old(View()), a, r)
    {
      if IsEmptyRecord(r) {
        accounts := accounts[a := DroppedRecord];
      } else {
        accounts := accounts[a := r];
      }
    }

    method AddBalance(a: Address, v: Word)
      modifies this`accounts
      ensures View() == EvmWorld.AddBalance(env, old(View()), a, v)
    {
      var acct := GetAccount(a);
      PutEthAccount(a, acct.(balance := Plus(acct.balance, v)));
    }

    method SubBalance(a: Address, v: Word)
      modifies this`accounts
      ensures View() == EvmWorld.SubBalance(env, old(View()), a, v)
    {
      var acct := GetAccount(a);
      PutEthAccount(a, acct.(balance := Minus(acct.balance, v)));
    }

    method SetNonce(a: Address, n: nat)
      modifies this`accounts
      ensures View() == EvmWorld.SetNonce(env, old(View()), a, n)
    {
      var acct := GetAccount(a);
      PutEthAccount(a, acct.(nonce := n));
    }

    method SetCode(a: Address, code: Bytes)
      modifies this`accounts
      ensures View() == EvmWorld.SetCode(env, old(View()), a, code)
    {
      var acct := GetAccount(a);
      PutEthAccount(a, acct.(codeHash := Keccak(code), code := code));
    }

    method SetState(s: Slot, v: Word)
      modifies this`storage
      ensures View() == EvmWorld.SetState(old(View()), s, v)
    {
      storage := storage[s := v];
    }

    method AddRefund(gas: nat)
      modifies this`refund
      ensures refund == old(refund) + gas
    {
      refund := refund + gas;
    }

    /** Fails, as the source panics, when the counter would go below zero. */
    method SubRefund(gas: nat) returns (ok: bool)
      modifies this`refund
      ensures ok <==> gas <= old(refund)
      ensures refund == if ok then old(refund) - gas else old(refund)
    {
      ok := gas <= refund;
      if ok { refund := refund - gas; }
    }

    method AddLog(log: Log)
      modifies this`logs
      ensures logs == old(logs) + [log]
    {
      logs := logs + [log];
    }

    method Suicide(a: Address) returns (done: bool)
      modifies this`accounts, this`suicided
      ensures View() == EvmWorld.Suicide(env, old(View()), a)
      ensures done <==> !IsEmptyRecord(AccountOf(env, old(View()), a))
    {
      var acct := GetAccount(a);
      done := !IsEmptyRecord(acct);
      if done {
        suicided := suicided + {a};
        PutEthAccount(a, acct.(balance := 0));
      }
    }

    /** Remembers the current state and returns its index on the stack. */
    method TakeSnapshot() returns (idx: nat)
      modifies this`snapshots
      ensures idx == |old(snapshots)|
      ensures snapshots == old(snapshots) + [Snapshot(accounts, storage, suicided, |logs|, refund)]
      ensures Saved(idx) == old(View())
    {
      snapshots := snapshots + [Snapshot(accounts, storage, suicided, |logs|, refund)];
      idx := |snapshots| - 1;
      assert logs[..|logs|] == logs;
    }

    /** Returns to a snapshot and forgets it and all later ones; fails, as the source panics, on a bad index. */
    method RevertToSnapshot(idx: nat) returns (ok: bool)
      requires idx < |snapshots| ==> snapshots[idx].logsSize <= |logs|
      modifies this
      ensures ok <==> idx < |old(snapshots)|
      ensures ok ==> View() == old(Saved(idx)) && snapshots == old(snapshots)[..idx]
      ensures !ok ==> View() == old(View()) && snapshots == old(snapshots)
    {
      ok := idx + 1 <= |snapshots|;
      if ok {
        var sn := snapshots[idx];
        snapshots := snapshots[..idx];
        accounts, storage := sn.accounts, sn.storage;
        suicided := sn.suicided;
        refund := sn.refund;
        logs := logs[..sn.logsSize];
      }
    }
  }
}
