/** Where balances go: the sum of wallet balances, and what changes it. */
module Supply {
  import opened Bytes
  import opened Types
  import opened Ledger

  function BalanceOf(a: Account): nat {
    match a
    case WalletAccount(balance, _) => balance
    case ContractAccount(_, _, _) => 0
  }

  function BalanceAt(accounts: Accounts, key: PublicKey): nat {
    if key in accounts then BalanceOf(accounts[key]) else 0
  }

  // The sum of all wallet balances.
  ghost function Total(accounts: Accounts): nat
    decreases |accounts|
  {
    if accounts == map[] then 0
    else
      var key :| key in accounts;
      BalanceOf(accounts[key]) + Total(accounts - {key})
  }

  // Any account can be taken out of the sum first.
  lemma {:induction false} TotalSplit(accounts: Accounts, key: PublicKey)
    ensures Total(accounts) == BalanceAt(accounts, key) + Total(accounts - {key})
    decreases |accounts|
  {
    if key !in accounts {
      assert accounts - {key} == accounts;
    } else {
      var first :| first in accounts && Total(accounts) == BalanceOf(accounts[first]) + Total(accounts - {first});
      if first != key {
        var rest := accounts - {first};
        TotalSplit(rest, key);
        TotalSplit(accounts - {key}, first);
        assert rest - {key} == (accounts - {key}) - {first};
      }
    }
  }

  lemma TotalPut(accounts: Accounts, key: PublicKey, account: Account)
    ensures Total(accounts[key := account]) + BalanceAt(accounts, key) == Total(accounts) + BalanceOf(account)
  {
    TotalSplit(accounts, key);
    TotalSplit(accounts[key := account], key);
    assert accounts[key := account] - {key} == accounts - {key};
  }

  lemma PairWithinTotal(accounts: Accounts, p: PublicKey, q: PublicKey)
    requires p != q
    ensures BalanceAt(accounts, p) + BalanceAt(accounts, q) <= Total(accounts)
  {
    TotalSplit(accounts, p);
    TotalSplit(accounts - {p}, q);
  }

  // The balance a transaction destroys: what a deploying sender holds when its account is
  // replaced by a contract account.
  function Dropped(accounts: Accounts, t: Transaction): nat {
    if t.payload.ContractDeploy? then BalanceAt(accounts, t.sender) else 0
  }

  ghost function DroppedAll(env: Env, accounts: Accounts, ts: seq<Transaction>): nat {
    if ts == [] then 0
    else
      match ApplyAll(env, accounts, ts[..|ts| - 1])
      case Failed(_, _) => 0
      case Done(before) => DroppedAll(env, accounts, ts[..|ts| - 1]) + Dropped(before, ts[|ts| - 1])
  }

  // A credit cannot overflow: build and total decide it.
  predicate Funded(env: Env, total: nat) {
    env.overflowChecks || total < U64_LIMIT
  }

  // Crediting an account other than by its sum leaves all else alone.
  lemma CreditGrows(accounts: Accounts, key: PublicKey, amount: u64, balance: u64)
    requires key in accounts && accounts[key].WalletAccount? && balance == accounts[key].balance + amount
    ensures Total(accounts[key := accounts[key].(balance := balance)]) == Total(accounts) + amount
  {
    TotalPut(accounts, key, accounts[key].(balance := balance));
  }

  lemma DebitShrinks(accounts: Accounts, key: PublicKey, amount: u64)
    requires key in accounts && accounts[key].WalletAccount? && amount <= accounts[key].balance
    ensures Total(accounts[key := accounts[key].(balance := accounts[key].balance - amount)]) == Total(accounts) - amount
  {
    TotalPut(accounts, key, accounts[key].(balance := accounts[key].balance - amount));
  }

  // The second half of a payment, after the debit.
  lemma CreditConserves(env: Env, debited: Accounts, key: PublicKey, amount: u64)
    requires key in debited && debited[key].WalletAccount?
    requires Funded(env, Total(debited) + amount)
    ensures var sum := Add(env, debited[key].balance, amount, Credit);
      && (Total(debited) + amount < U64_LIMIT ==> sum.Ok?)
      && (sum.Ok? ==> Total(debited[key := debited[key].(balance := sum.value)]) == Total(debited) + amount)
  {
    TotalSplit(debited, key);
    if debited[key].balance + amount < U64_LIMIT {
      CreditGrows(debited, key, amount, debited[key].balance + amount);
    }
  }

  lemma PayConserves(env: Env, accounts: Accounts, from: PublicKey, to: Address, amount: u64)
    requires from in accounts && Funded(env, Total(accounts))
    ensures
      match Pay(env, accounts, from, to, amount)
      case Err(e) => Total(accounts) < U64_LIMIT ==> e != Panic(Credit)
      case Ok(after) => Total(after) == Total(accounts)
  {
    hide Total;
    var sender := accounts[from];
    if sender.WalletAccount? && amount <= sender.balance && to.Wallet? {
      var debited := accounts[from := sender.(balance := sender.balance - amount)];
      DebitShrinks(accounts, from, amount);
      if to.key !in debited {
        TotalPut(debited, to.key, WalletAccount(amount, 0));
      } else if debited[to.key].WalletAccount? {
        CreditConserves(env, debited, to.key, amount);
      }
    }
  }

  lemma TransactionConserves(env: Env, accounts: Accounts, t: Transaction)
    requires Funded(env, Total(accounts))
    ensures
      match ApplyTransaction(env, accounts, t)
      case Err(e) => Total(accounts) < U64_LIMIT ==> e != Panic(Credit)
      case Ok(after) => Total(after) + Dropped(accounts, t) == Total(accounts)
  {
    hide Total;
    if t.sender in accounts && Add(env, accounts[t.sender].nonce, 1, NextNonce) == Ok(t.nonce) {
      var bumped := accounts[t.sender := accounts[t.sender].(nonce := t.nonce)];
      TotalPut(accounts, t.sender, bumped[t.sender]);
      match t.payload
      case Transfer(amount) => PayConserves(env, bumped, t.sender, t.recipient, amount);
      case ContractDeploy(wasm) =>
        TotalPut(bumped, t.sender, ContractAccount(CodeId(env, t.sender, wasm), ZERO_HASH, t.nonce));
      case ContractCall(_, _) =>
      case Data(_) =>
    }
  }

  // Over any list of transactions the sum changes only by what deployments drop; and when the
  // starting sum fits 64 bits, no credit overflows in any build.
  lemma {:induction false} SupplyAccounting(env: Env, accounts: Accounts, ts: seq<Transaction>)
    requires Funded(env, Total(accounts))
    ensures
      match ApplyAll(env, accounts, ts)
      case Done(final) => Total(final) + DroppedAll(env, accounts, ts) == Total(accounts)
      case Failed(e, _) => Total(accounts) < U64_LIMIT ==> e != Panic(Credit)
  {
    if ts != [] {
      var front, t := ts[..|ts| - 1], ts[|ts| - 1];
      SupplyAccounting(env, accounts, front);
      var before := ApplyAll(env, accounts, front);
      if before.Done? {
        TransactionConserves(env, before.accounts, t);
      }
    }
  }
}
