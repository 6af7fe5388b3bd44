/** The state database seen as a value: the reference for what each operation does. */
module EvmWorld {
  import opened Basics
  import opened EvmTypes

  /** The cached, not yet committed part of the state. */
  datatype World = World(
    accounts: map<Address, Account>,
    storage: map<Slot, Word>,
    suicided: set<Address>,
    logs: seq<Log>,
    refund: nat)

  const FreshAccount: Account := Account(0, 0, [], EmptyCodeHash)

  function AccountOf(env: Env, w: World, a: Address): Account
  {
    if a in w.accounts then w.accounts[a]
    else if a in env.committedAccounts then env.committedAccounts[a]
    else FreshAccount
  }

  predicate IsEmptyRecord(r: Account) { r.nonce == 0 && r.codeHash == NoHash }

  /** What reading back a dropped record gives. */
  const DroppedRecord: Account := Account(0, 0, [], NoHash)

  /** A record with nonce zero and no code hash is stored as the empty value, balance and all. */
  function PutAccount(w: World, a: Address, r: Account): World
  {
    w.(accounts := w.accounts[a := if IsEmptyRecord(r) then DroppedRecord else r])
  }

  function Balance(env: Env, w: World, a: Address): Word { AccountOf(env, w, a).balance }

  /** 256-bit addition and subtraction wrap around. */
  function Plus(x: Word, y: Word): Word { if x + y < TWO_256 then x + y else x + y - TWO_256 }

  function Minus(x: Word, y: Word): Word { if y <= x then x - y else x + TWO_256 - y }

  function AddBalance(env: Env, w: World, a: Address, v: Word): World
  {
    var r := AccountOf(env, w, a);
    PutAccount(w, a, r.(balance := Plus(r.balance, v)))
  }

  function SubBalance(env: Env, w: World, a: Address, v: Word): World
  {
    var r := AccountOf(env, w, a);
    PutAccount(w, a, r.(balance := Minus(r.balance, v)))
  }

  function Transfer(env: Env, w: World, from: Address, to: Address, v: Word): World
  {
    AddBalance(env, SubBalance(env, w, from, v), to, v)
  }

  function SetNonce(env: Env, w: World, a: Address, n: nat): World
  {
    PutAccount(w, a, AccountOf(env, w, a).(nonce := n))
  }

  function SetCode(env: Env, w: World, a: Address, code: Bytes): World
  {
    PutAccount(w, a, AccountOf(env, w, a).(code := code, codeHash := Keccak(code)))
  }

  function Committed(env: Env, s: Slot): Word
  {
    if s in env.committedStorage then env.committedStorage[s] else 0
  }

  function State(env: Env, w: World, s: Slot): Word
  {
    if s in w.storage then w.storage[s] else Committed(env, s)
  }

  function SetState(w: World, s: Slot, v: Word): World
  {
    w.(storage := w.storage[s := v])
  }

  predicate Exist(env: Env, w: World, a: Address)
  {
    a in w.suicided || !IsEmptyRecord(AccountOf(env, w, a)) || Balance(env, w, a) > 0
  }

  predicate Empty(env: Env, w: World, a: Address)
  {
    IsEmptyRecord(AccountOf(env, w, a)) && Balance(env, w, a) == 0
  }

  function Suicide(env: Env, w: World, a: Address): World
  {
    if IsEmptyRecord(AccountOf(env, w, a)) then w
    else PutAccount(w.(suicided := w.suicided + {a}), a, AccountOf(env, w, a).(balance := 0))
  }
}
