/** Exactly when reading accounts from storage alone gives what sequential processing gives.
    The source stages a block's writes but reads every account from storage, so a second
    transaction on an account works with its old value. */
module Staleness {
  import opened Bytes
  import opened Types
  import opened Ledger
  import opened Overlay
  import Nonces
  import Supply

  predicate Receives(t: Transaction, key: PublicKey) {
    t.payload.Transfer? && t.recipient == Wallet(key)
  }

  predicate Deploys(t: Transaction, key: PublicKey) {
    t.sender == key && t.payload.ContractDeploy?
  }

  predicate TouchedFrom(ts: seq<Transaction>, k: nat, key: PublicKey) {
    exists j | k <= j < |ts| :: key in Touched(ts[j])
  }

  predicate DeploysFrom(ts: seq<Transaction>, k: nat, key: PublicKey) {
    exists j | k <= j < |ts| :: Deploys(ts[j], key)
  }

  // What may happen to an account before another transaction of the block touches it: nothing
  // but credits, and these are of zero, or forgotten because the account deploys a contract
  // later on.
  predicate Forgettable(ts: seq<Transaction>, i: nat, key: PublicKey)
    requires i < |ts|
  {
    && ts[i].sender != key
    && (Receives(ts[i], key) ==> ts[i].payload.amount == 0 || DeploysFrom(ts, i + 1, key))
  }

  // No transfer is to its own sender, and an account touched again later has only forgettable
  // things happen to it. This looks at the transactions alone.
  predicate Settled(ts: seq<Transaction>) {
    && (forall t | t in ts :: !SelfTransfer(t))
    && (forall i, key | 0 <= i < |ts| && key in Touched(ts[i]) && TouchedFrom(ts, i + 1, key) ::
          Forgettable(ts, i, key))
  }

  // ---------- one account at a time ----------

  function Get(accounts: Accounts, key: PublicKey): Option<Account> {
    if key in accounts then Some(accounts[key]) else None
  }

  // What a successful transaction, not a transfer to its own sender, does to one account.
  predicate Moves(env: Env, t: Transaction, key: PublicKey, before: Option<Account>, after: Option<Account>) {
    if key == t.sender then
      && before.Some?
      && Add(env, before.value.nonce, 1, NextNonce) == Ok(t.nonce)
      && match t.payload {
           case Transfer(amount) =>
             && before.value.WalletAccount?
             && amount <= before.value.balance
             && after == Some(WalletAccount(before.value.balance - amount, t.nonce))
           case ContractDeploy(wasm) =>
             after == Some(ContractAccount(CodeId(env, key, wasm), ZERO_HASH, t.nonce))
           case ContractCall(_, _) => after == Some(before.value.(nonce := t.nonce))
           case Data(_) => after == Some(before.value.(nonce := t.nonce))
         }
    else if Receives(t, key) then
      match before {
        case None => after == Some(WalletAccount(t.payload.amount, 0))
        case Some(a) =>
          && a.WalletAccount?
          && Add(env, a.balance, t.payload.amount, Credit).Ok?
          && after == Some(WalletAccount(Add(env, a.balance, t.payload.amount, Credit).value, a.nonce))
      }
    else
      after == before
  }

  lemma SequentialMoves(env: Env, accounts: Accounts, t: Transaction, key: PublicKey)
    requires ApplyTransaction(env, accounts, t).Ok? && !SelfTransfer(t)
    ensures Moves(env, t, key, Get(accounts, key), Get(ApplyTransaction(env, accounts, t).value, key))
  {
  }

  lemma StagedMoves(env: Env, stored: Accounts, overlay: Accounts, t: Transaction, key: PublicKey)
    requires StageTransaction(env, StorageOnly, stored, overlay, t).Ok?
    ensures var after := StageTransaction(env, StorageOnly, stored, overlay, t).value;
      if key !in Touched(t) then Get(stored + after, key) == Get(stored + overlay, key)
      else if SelfTransfer(t) then Nonces.NonceAt(stored + after, key) == Nonces.NonceAt(stored, key)
      else Moves(env, t, key, Get(stored, key), Get(stored + after, key))
    ensures t.sender in stored && Add(env, stored[t.sender].nonce, 1, NextNonce) == Ok(t.nonce)
  {
  }

  // ---------- the states along a block ----------

  ghost function SequentialAt(env: Env, stored: Accounts, ts: seq<Transaction>, k: nat): Accounts
    requires k <= |ts| && ApplyAll(env, stored, ts).Done?
    ensures ApplyAll(env, stored, ts[..k]) == Done(SequentialAt(env, stored, ts, k))
  {
    assert ApplyAll(env, stored, ts[..k]).Done? by {
      if ApplyAll(env, stored, ts[..k]).Failed? {
        ApplyFailureStays(env, stored, ts, k);
      }
    }
    ApplyAll(env, stored, ts[..k]).accounts
  }

  ghost function StagedAt(env: Env, stored: Accounts, ts: seq<Transaction>, k: nat): Accounts
    requires k <= |ts| && StageAll(env, StorageOnly, stored, ts).Done?
    ensures StageAll(env, StorageOnly, stored, ts[..k]) == Done(StagedAt(env, stored, ts, k))
  {
    assert StageAll(env, StorageOnly, stored, ts[..k]).Done? by {
      if StageAll(env, StorageOnly, stored, ts[..k]).Failed? {
        StageFailureStays(env, StorageOnly, stored, ts, k);
      }
    }
    StageAll(env, StorageOnly, stored, ts[..k]).accounts
  }

  lemma SequentialStep(env: Env, stored: Accounts, ts: seq<Transaction>, k: nat)
    requires k < |ts| && ApplyAll(env, stored, ts).Done?
    ensures ApplyTransaction(env, SequentialAt(env, stored, ts, k), ts[k]) == Ok(SequentialAt(env, stored, ts, k + 1))
  {
    assert ts[..k + 1][..k] == ts[..k];
    var _ := SequentialAt(env, stored, ts, k);
    var _ := SequentialAt(env, stored, ts, k + 1);
  }

  lemma StagedStep(env: Env, stored: Accounts, ts: seq<Transaction>, k: nat)
    requires k < |ts| && StageAll(env, StorageOnly, stored, ts).Done?
    ensures StageTransaction(env, StorageOnly, stored, StagedAt(env, stored, ts, k), ts[k])
         == Ok(StagedAt(env, stored, ts, k + 1))
  {
    assert ts[..k + 1][..k] == ts[..k];
    var _ := StagedAt(env, stored, ts, k);
    var _ := StagedAt(env, stored, ts, k + 1);
  }

  lemma StagedNonce(env: Env, stored: Accounts, ts: seq<Transaction>, i: nat)
    requires i < |ts| && StageAll(env, StorageOnly, stored, ts).Done?
    ensures ts[i].sender in stored
    ensures Add(env, stored[ts[i].sender].nonce, 1, NextNonce) == Ok(ts[i].nonce)
  {
    StagedStep(env, stored, ts, i);
    StagedMoves(env, stored, StagedAt(env, stored, ts, i), ts[i], ts[i].sender);
  }

  // ---------- settled blocks are processed sequentially ----------

  // After k transactions the two processings agree on an account that is not touched again;
  // on one that is, the sequential state has moved in forgettable ways only.
  predicate InStepAt(stored: Accounts, ts: seq<Transaction>, k: nat, key: PublicKey,
                     sequential: Option<Account>, staged: Option<Account>)
  {
    if !TouchedFrom(ts, k, key) then sequential == staged
    else if key !in stored then sequential == None || sequential == Some(WalletAccount(0, 0))
    else
      && sequential.Some?
      && sequential.value.nonce == stored[key].nonce
      && sequential.value.WalletAccount? == stored[key].WalletAccount?
      && (!DeploysFrom(ts, k, key) ==> sequential.value == stored[key])
  }

  ghost predicate InStep(stored: Accounts, ts: seq<Transaction>, k: nat, sequential: Accounts, staged: Accounts) {
    forall key: PublicKey :: InStepAt(stored, ts, k, key, Get(sequential, key), Get(staged, key))
  }

  lemma CreditFits(accounts: Accounts, from: PublicKey, key: PublicKey, amount: u64)
    requires Supply.Total(accounts) < U64_LIMIT && from != key
    requires amount <= Supply.BalanceAt(accounts, from)
    ensures Supply.BalanceAt(accounts, key) + amount < U64_LIMIT
  {
    Supply.PairWithinTotal(accounts, from, key);
  }

  lemma FromNext(ts: seq<Transaction>, k: nat, key: PublicKey)
    requires k < |ts|
    ensures TouchedFrom(ts, k, key) <==> key in Touched(ts[k]) || TouchedFrom(ts, k + 1, key)
    ensures DeploysFrom(ts, k, key) <==> Deploys(ts[k], key) || DeploysFrom(ts, k + 1, key)
    ensures DeploysFrom(ts, k + 1, key) ==> TouchedFrom(ts, k + 1, key)
  {
    if j :| k + 1 <= j < |ts| && Deploys(ts[j], key) {
      assert key in Touched(ts[j]);
    }
  }

  lemma SettledStepSucceeds(env: Env, stored: Accounts, ts: seq<Transaction>, k: nat, before: Accounts, overlay: Accounts)
    requires k < |ts| && Settled(ts)
    requires Supply.Total(before) < U64_LIMIT
    requires forall key | key in Touched(ts[k]) :: InStepAt(stored, ts, k, key, Get(before, key), Get(stored + overlay, key))
    requires StageTransaction(env, StorageOnly, stored, overlay, ts[k]).Ok?
    ensures ApplyTransaction(env, before, ts[k]).Ok?
  {
    var t := ts[k];
    assert t in ts;
    assert t.sender in Touched(t);
    FromNext(ts, k, t.sender);
    if t.payload.Transfer? {
      var key := t.recipient.key;
      assert key in Touched(t);
      FromNext(ts, k, key);
      CreditFits(before, t.sender, key, t.payload.amount);
    }
  }

  lemma SettledStepAgrees(env: Env, stored: Accounts, ts: seq<Transaction>, k: nat, before: Accounts, overlay: Accounts,
                          key: PublicKey)
    requires k < |ts| && Settled(ts)
    requires Supply.Total(before) < U64_LIMIT
    requires InStepAt(stored, ts, k, key, Get(before, key), Get(stored + overlay, key))
    requires StageTransaction(env, StorageOnly, stored, overlay, ts[k]).Ok?
    requires ApplyTransaction(env, before, ts[k]).Ok?
    requires DeploysFrom(ts, k + 1, key) ==> key in stored
    ensures InStepAt(stored, ts, k + 1, key,
                     Get(ApplyTransaction(env, before, ts[k]).value, key),
                     Get(stored + StageTransaction(env, StorageOnly, stored, overlay, ts[k]).value, key))
  {
    var t := ts[k];
    assert t in ts;
    FromNext(ts, k, key);
    SequentialMoves(env, before, t, key);
    StagedMoves(env, stored, overlay, t, key);
    if Receives(t, key) {
      assert Supply.BalanceAt(before, key) + t.payload.amount < U64_LIMIT by {
        SequentialMoves(env, before, t, t.sender);
        CreditFits(before, t.sender, key, t.payload.amount);
      }
    }
    StepAgrees(env, stored, ts, k, key, Get(before, key), Get(stored + overlay, key),
               Get(ApplyTransaction(env, before, ts[k]).value, key),
               Get(stored + StageTransaction(env, StorageOnly, stored, overlay, ts[k]).value, key));
  }

  lemma StepAgrees(env: Env, stored: Accounts, ts: seq<Transaction>, k: nat, key: PublicKey,
                   before: Option<Account>, stagedBefore: Option<Account>, after: Option<Account>, stagedAfter: Option<Account>)
    requires k < |ts| && Settled(ts)
    requires InStepAt(stored, ts, k, key, before, stagedBefore)
    requires DeploysFrom(ts, k + 1, key) ==> key in stored
    requires Moves(env, ts[k], key, before, after)
    requires if key in Touched(ts[k]) then Moves(env, ts[k], key, Get(stored, key), stagedAfter)
             else stagedAfter == stagedBefore
    requires Receives(ts[k], key) && before.Some? ==> Supply.BalanceOf(before.value) + ts[k].payload.amount < U64_LIMIT
    ensures InStepAt(stored, ts, k + 1, key, after, stagedAfter)
  {
    FromNext(ts, k, key);
    if key in Touched(ts[k]) && TouchedFrom(ts, k + 1, key) {
      assert Forgettable(ts, k, key);
    }
  }

  // Both processings have accepted the first k transactions and are in step.
  ghost predicate BothInStep(env: Env, stored: Accounts, ts: seq<Transaction>, k: nat)
    requires k <= |ts|
  {
    var staged, applied := StageAll(env, StorageOnly, stored, ts[..k]), ApplyAll(env, stored, ts[..k]);
    staged.Done? && applied.Done? && InStep(stored, ts, k, applied.accounts, stored + staged.accounts)
  }

  predicate SendersStored(stored: Accounts, ts: seq<Transaction>) {
    forall t | t in ts :: t.sender in stored
  }

  lemma NextInStep(env: Env, stored: Accounts, ts: seq<Transaction>, k: nat)
    requires k < |ts| && Settled(ts) && SendersStored(stored, ts)
    requires Supply.Total(stored) < U64_LIMIT
    requires BothInStep(env, stored, ts, k)
    requires StageAll(env, StorageOnly, stored, ts[..k + 1]).Done? && ApplyAll(env, stored, ts[..k + 1]).Done?
    ensures BothInStep(env, stored, ts, k + 1)
  {
    assert ts[..k + 1][..k] == ts[..k];
    var before, overlay := ApplyAll(env, stored, ts[..k]).accounts, StageAll(env, StorageOnly, stored, ts[..k]).accounts;
    Supply.SupplyAccounting(env, stored, ts[..k]);
    var after := ApplyAll(env, stored, ts[..k + 1]).accounts;
    var staged := stored + StageAll(env, StorageOnly, stored, ts[..k + 1]).accounts;
    hide StageTransaction, ApplyTransaction, StageAll, ApplyAll, Settled, Supply.Total;
    forall key: PublicKey ensures InStepAt(stored, ts, k + 1, key, Get(after, key), Get(staged, key)) {
      if j :| k + 1 <= j < |ts| && Deploys(ts[j], key) {
        assert ts[j] in ts;
      }
      SettledStepAgrees(env, stored, ts, k, before, overlay, key);
    }
  }

  // What the sequential processing accepts of a settled block, the source stages.
  lemma SettledStepStages(env: Env, stored: Accounts, ts: seq<Transaction>, k: nat, before: Accounts, overlay: Accounts)
    requires k < |ts| && Settled(ts) && SendersStored(stored, ts)
    requires Supply.Total(stored) < U64_LIMIT
    requires forall key | key in Touched(ts[k]) :: InStepAt(stored, ts, k, key, Get(before, key), Get(stored + overlay, key))
    requires ApplyTransaction(env, before, ts[k]).Ok?
    ensures StageTransaction(env, StorageOnly, stored, overlay, ts[k]).Ok?
  {
    var t := ts[k];
    assert t in ts;
    assert t.sender in Touched(t);
    FromNext(ts, k, t.sender);
    SequentialMoves(env, before, t, t.sender);
    if t.payload.Transfer? {
      var key := t.recipient.key;
      assert key in Touched(t);
      FromNext(ts, k, key);
      SequentialMoves(env, before, t, key);
      CreditFits(stored, t.sender, key, t.payload.amount);
    }
  }

  lemma {:induction false} SettledIsSequential(env: Env, stored: Accounts, ts: seq<Transaction>, k: nat)
    requires k <= |ts| && Settled(ts) && SendersStored(stored, ts)
    requires StageAll(env, StorageOnly, stored, ts).Done? || ApplyAll(env, stored, ts).Done?
    requires Supply.Total(stored) < U64_LIMIT
    ensures BothInStep(env, stored, ts, k)
  {
    if k == 0 {
      assert stored + map[] == stored;
    } else {
      SettledIsSequential(env, stored, ts, k - 1);
      assert ts[..k][..k - 1] == ts[..k - 1];
      var before := ApplyAll(env, stored, ts[..k - 1]).accounts;
      var overlay := StageAll(env, StorageOnly, stored, ts[..k - 1]).accounts;
      Supply.SupplyAccounting(env, stored, ts[..k - 1]);
      if StageAll(env, StorageOnly, stored, ts).Done? {
        var _ := StagedAt(env, stored, ts, k);
        SettledStepSucceeds(env, stored, ts, k - 1, before, overlay);
      } else {
        var _ := SequentialAt(env, stored, ts, k);
        SettledStepStages(env, stored, ts, k - 1, before, overlay);
      }
      NextInStep(env, stored, ts, k - 1);
    }
  }

  // ---------- blocks processed sequentially are settled ----------

  lemma {:induction false} SecondSend(ts: seq<Transaction>, key: PublicKey) returns (j: nat)
    requires Nonces.Count(ts, key) >= 2
    ensures j < |ts| && ts[j].sender == key && Nonces.Count(ts[..j + 1], key) == 2
  {
    var front := ts[..|ts| - 1];
    if Nonces.Count(front, key) >= 2 {
      j := SecondSend(front, key);
      assert front[..j + 1] == ts[..j + 1];
    } else {
      j := |ts| - 1;
      assert ts[..j + 1] == ts;
    }
  }

  lemma SendsOnce(env: Env, stored: Accounts, ts: seq<Transaction>, key: PublicKey)
    requires StageAll(env, StorageOnly, stored, ts).Done? && ApplyAll(env, stored, ts).Done?
    ensures Nonces.Count(ts, key) <= 1
  {
    if Nonces.Count(ts, key) >= 2 {
      var j := SecondSend(ts, key);
      StagedNonce(env, stored, ts, j);
      Nonces.ShiftedDiffer(Nonces.NonceAt(stored, key) + 1, 1);
      Nonces.NoncesConsecutive(env, stored, ts, j);
    }
  }

  // An account last touched as a recipient carries its stored nonce in the overlay.
  lemma {:induction false} StaleNonce(env: Env, stored: Accounts, ts: seq<Transaction>, key: PublicKey, j: nat, k: nat)
    requires j < k <= |ts| && StageAll(env, StorageOnly, stored, ts).Done?
    requires Receives(ts[j], key)
    requires forall i | j < i < k :: ts[i].sender != key
    ensures Nonces.NonceAt(stored + StagedAt(env, stored, ts, k), key) == Nonces.NonceAt(stored, key)
  {
    hide StageAll, StageTransaction;
    var t, overlay := ts[k - 1], StagedAt(env, stored, ts, k - 1);
    StagedStep(env, stored, ts, k - 1);
    if Receives(t, key) {
      ReceivedNonce(env, stored, overlay, t, key);
    } else {
      StagedMoves(env, stored, overlay, t, key);
      StaleNonce(env, stored, ts, key, j, k - 1);
    }
  }

  lemma ReceivedNonce(env: Env, stored: Accounts, overlay: Accounts, t: Transaction, key: PublicKey)
    requires StageTransaction(env, StorageOnly, stored, overlay, t).Ok? && Receives(t, key)
    ensures Nonces.NonceAt(stored + StageTransaction(env, StorageOnly, stored, overlay, t).value, key)
         == Nonces.NonceAt(stored, key)
  {
    StagedMoves(env, stored, overlay, t, key);
  }

  lemma CountPositive(ts: seq<Transaction>, key: PublicKey, i: nat)
    requires i < |ts| && ts[i].sender == key
    ensures Nonces.Count(ts, key) >= 1
  {
    hide Nonces.Count;
    Nonces.CountGrows(ts, key, 0, i + 1);
    assert ts[..|ts|] == ts;
    if i + 1 < |ts| {
      Nonces.CountGrows(ts, key, i + 1, |ts|);
    }
  }

  lemma CountTwo(ts: seq<Transaction>, key: PublicKey, i: nat, j: nat)
    requires i < j < |ts| && ts[i].sender == key && ts[j].sender == key
    ensures Nonces.Count(ts, key) >= 2
  {
    hide Nonces.Count;
    Nonces.CountGrows(ts, key, 0, i + 1);
    Nonces.CountGrows(ts, key, i + 1, j + 1);
    assert ts[..|ts|] == ts;
    if j + 1 < |ts| {
      Nonces.CountGrows(ts, key, j + 1, |ts|);
    }
  }

  // A sender that receives in the same transaction or later ends with different nonces.
  lemma SenderThatReceives(env: Env, stored: Accounts, ts: seq<Transaction>, i: nat, j: nat)
    requires StageAll(env, StorageOnly, stored, ts).Done? && ApplyAll(env, stored, ts).Done?
    requires i <= j < |ts| && Receives(ts[j], ts[i].sender)
    ensures stored + StageAll(env, StorageOnly, stored, ts).accounts != ApplyAll(env, stored, ts).accounts
  {
    hide StageAll, ApplyAll, Nonces.Count;
    var key := ts[i].sender;
    SendsOnce(env, stored, ts, key);
    CountPositive(ts, key, i);
    forall k | j < k < |ts| ensures ts[k].sender != key {
      if ts[k].sender == key {
        CountTwo(ts, key, i, k);
      }
    }
    StaleNonce(env, stored, ts, key, j, |ts|);
    assert ts[..|ts|] == ts;
    var _ := StagedAt(env, stored, ts, |ts|);
    Nonces.NoncesCount(env, stored, ts, key);
    Nonces.ShiftedDiffer(Nonces.NonceAt(stored, key), 1);
    StagedNonce(env, stored, ts, i);
  }

  // An account that does not send only gains.
  lemma {:induction false} NoSendGrows(env: Env, stored: Accounts, ts: seq<Transaction>, key: PublicKey, m: nat, n: nat)
    requires m <= n <= |ts| && ApplyAll(env, stored, ts).Done?
    requires Supply.Total(stored) < U64_LIMIT
    requires forall t | t in ts :: !SelfTransfer(t)
    requires forall i | m <= i < n :: ts[i].sender != key
    ensures var before, after := SequentialAt(env, stored, ts, m), SequentialAt(env, stored, ts, n);
      && Supply.BalanceAt(before, key) <= Supply.BalanceAt(after, key)
      && (key in before ==> key in after && (before[key].WalletAccount? ==> after[key].WalletAccount?))
  {
    if m < n {
      NoSendGrows(env, stored, ts, key, m, n - 1);
      ExactStep(env, stored, ts, key, n - 1);
    }
  }

  // Along a funded block no credit wraps around.
  lemma ExactStep(env: Env, stored: Accounts, ts: seq<Transaction>, key: PublicKey, k: nat)
    requires k < |ts| && ApplyAll(env, stored, ts).Done?
    requires Supply.Total(stored) < U64_LIMIT
    requires forall t | t in ts :: !SelfTransfer(t)
    ensures var before, after := SequentialAt(env, stored, ts, k), SequentialAt(env, stored, ts, k + 1);
      && Moves(env, ts[k], key, Get(before, key), Get(after, key))
      && (Receives(ts[k], key) ==>
            && key in after && after[key].WalletAccount?
            && Supply.BalanceAt(after, key) == Supply.BalanceAt(before, key) + ts[k].payload.amount)
  {
    var before := SequentialAt(env, stored, ts, k);
    assert ts[k] in ts;
    SequentialStep(env, stored, ts, k);
    SequentialMoves(env, before, ts[k], key);
    SequentialMoves(env, before, ts[k], ts[k].sender);
    Supply.SupplyAccounting(env, stored, ts[..k]);
    if Receives(ts[k], key) {
      CreditFits(before, ts[k].sender, key, ts[k].payload.amount);
    }
  }

  lemma {:induction false} LastTouch(ts: seq<Transaction>, key: PublicKey, j: nat) returns (last: nat)
    requires j < |ts| && key in Touched(ts[j])
    ensures j <= last < |ts| && key in Touched(ts[last]) && !TouchedFrom(ts, last + 1, key)
    decreases |ts| - j
  {
    if TouchedFrom(ts, j + 1, key) {
      var next :| j + 1 <= next < |ts| && key in Touched(ts[next]);
      last := LastTouch(ts, key, next);
    } else {
      last := j;
    }
  }

  lemma UntouchedStep(env: Env, stored: Accounts, ts: seq<Transaction>, key: PublicKey, k: nat)
    requires k < |ts| && key !in Touched(ts[k]) && !SelfTransfer(ts[k])
    requires StageAll(env, StorageOnly, stored, ts).Done? && ApplyAll(env, stored, ts).Done?
    ensures Get(SequentialAt(env, stored, ts, k), key) == Get(SequentialAt(env, stored, ts, k + 1), key)
    ensures Get(stored + StagedAt(env, stored, ts, k), key) == Get(stored + StagedAt(env, stored, ts, k + 1), key)
  {
    SequentialStep(env, stored, ts, k);
    StagedStep(env, stored, ts, k);
    var sequential, overlay := SequentialAt(env, stored, ts, k), StagedAt(env, stored, ts, k);
    SequentialMoves(env, sequential, ts[k], key);
    StagedMoves(env, stored, overlay, ts[k], key);
    hide StageAll, ApplyAll, StageTransaction, ApplyTransaction;
  }

  lemma {:induction false} UntouchedAfter(env: Env, stored: Accounts, ts: seq<Transaction>, key: PublicKey, m: nat, n: nat)
    requires m <= n <= |ts| && !TouchedFrom(ts, m, key)
    requires StageAll(env, StorageOnly, stored, ts).Done? && ApplyAll(env, stored, ts).Done?
    requires forall t | t in ts :: !SelfTransfer(t)
    ensures Get(SequentialAt(env, stored, ts, m), key) == Get(SequentialAt(env, stored, ts, n), key)
    ensures Get(stored + StagedAt(env, stored, ts, m), key) == Get(stored + StagedAt(env, stored, ts, n), key)
  {
    hide StageAll, ApplyAll;
    if m < n {
      UntouchedAfter(env, stored, ts, key, m, n - 1);
      assert ts[n - 1] in ts && key !in Touched(ts[n - 1]);
      UntouchedStep(env, stored, ts, key, n - 1);
    }
  }

  // One transaction on a wallet that holds more than its stored balance tells the two apart,
  // unless it is a deployment.
  lemma StaleDiffers(env: Env, t: Transaction, key: PublicKey, current: Account, stale: Option<Account>,
                     after: Option<Account>, staleAfter: Option<Account>)
    requires key in Touched(t) && !Deploys(t, key)
    requires Moves(env, t, key, Some(current), after) && Moves(env, t, key, stale, staleAfter)
    requires current.WalletAccount? && current.balance > if stale.Some? then Supply.BalanceOf(stale.value) else 0
    requires Receives(t, key) ==> current.balance + t.payload.amount < U64_LIMIT
    ensures after != staleAfter
  {
  }

  // A positive credit that a later transaction does not see is missing in the end.
  lemma LostCredit(env: Env, stored: Accounts, ts: seq<Transaction>, key: PublicKey, i: nat, last: nat)
    requires StageAll(env, StorageOnly, stored, ts).Done? && ApplyAll(env, stored, ts).Done?
    requires Supply.Total(stored) < U64_LIMIT
    requires forall t | t in ts :: !SelfTransfer(t)
    requires i < last < |ts| && Receives(ts[i], key) && ts[i].payload.amount > 0
    requires key in Touched(ts[last]) && !TouchedFrom(ts, last + 1, key) && !Deploys(ts[last], key)
    requires forall k | 0 <= k < last :: ts[k].sender != key
    ensures stored + StageAll(env, StorageOnly, stored, ts).accounts != ApplyAll(env, stored, ts).accounts
  {
    var current := SequentialAt(env, stored, ts, last);
    assert key in current && current[key].WalletAccount? && current[key].balance > Supply.BalanceAt(stored, key) by {
      var _ := SequentialAt(env, stored, ts, 0);
      NoSendGrows(env, stored, ts, key, 0, i);
      ExactStep(env, stored, ts, key, i);
      NoSendGrows(env, stored, ts, key, i + 1, last);
    }
    ExactStep(env, stored, ts, key, last);
    StagedStep(env, stored, ts, last);
    StagedMoves(env, stored, StagedAt(env, stored, ts, last), ts[last], key);
    assert ts[last] in ts;
    StaleDiffers(env, ts[last], key, current[key], Get(stored, key),
                 Get(SequentialAt(env, stored, ts, last + 1), key), Get(stored + StagedAt(env, stored, ts, last + 1), key));
    UntouchedAfter(env, stored, ts, key, last + 1, |ts|);
    assert ts[..|ts|] == ts;
  }

  // Nothing touches an account after it has sent, or receives in the sending itself.
  lemma SendersAreLast(env: Env, stored: Accounts, ts: seq<Transaction>, i: nat, j: nat)
    requires StageAll(env, StorageOnly, stored, ts).Done?
    requires ApplyAll(env, stored, ts) == Done(stored + StageAll(env, StorageOnly, stored, ts).accounts)
    requires i <= j < |ts|
    ensures !Receives(ts[j], ts[i].sender)
    ensures i < j ==> ts[i].sender !in Touched(ts[j])
  {
    hide StageAll, ApplyAll;
    if Receives(ts[j], ts[i].sender) {
      SenderThatReceives(env, stored, ts, i, j);
    } else if i < j && ts[j].sender == ts[i].sender {
      CountTwo(ts, ts[i].sender, i, j);
      SendsOnce(env, stored, ts, ts[i].sender);
    }
  }

  lemma CreditsAreForgettable(env: Env, stored: Accounts, ts: seq<Transaction>, i: nat, key: PublicKey)
    requires StageAll(env, StorageOnly, stored, ts).Done?
    requires ApplyAll(env, stored, ts) == Done(stored + StageAll(env, StorageOnly, stored, ts).accounts)
    requires Supply.Total(stored) < U64_LIMIT
    requires forall t | t in ts :: !SelfTransfer(t)
    requires i < |ts| && Receives(ts[i], key) && TouchedFrom(ts, i + 1, key)
    ensures ts[i].payload.amount == 0 || DeploysFrom(ts, i + 1, key)
  {
    hide StageAll, ApplyAll;
    var j :| i + 1 <= j < |ts| && key in Touched(ts[j]);
    var last := LastTouch(ts, key, j);
    if ts[i].payload.amount > 0 && !DeploysFrom(ts, i + 1, key) {
      forall k | 0 <= k < last ensures ts[k].sender != key {
        SendersAreLast(env, stored, ts, k, last);
      }
      LostCredit(env, stored, ts, key, i, last);
    }
  }

  lemma SequentialIsSettled(env: Env, stored: Accounts, ts: seq<Transaction>)
    requires StageAll(env, StorageOnly, stored, ts).Done?
    requires ApplyAll(env, stored, ts) == Done(stored + StageAll(env, StorageOnly, stored, ts).accounts)
    requires Supply.Total(stored) < U64_LIMIT
    ensures Settled(ts)
  {
    hide StageAll, ApplyAll;
    forall t | t in ts ensures !SelfTransfer(t) {
      var i :| 0 <= i < |ts| && ts[i] == t;
      SendersAreLast(env, stored, ts, i, i);
    }
    forall i, key | 0 <= i < |ts| && key in Touched(ts[i]) && TouchedFrom(ts, i + 1, key)
      ensures Forgettable(ts, i, key)
    {
      var j :| i + 1 <= j < |ts| && key in Touched(ts[j]);
      SendersAreLast(env, stored, ts, i, j);
      if Receives(ts[i], key) {
        CreditsAreForgettable(env, stored, ts, i, key);
      }
    }
  }

  // The source accepts a block and commits what sequential processing gives.
  ghost predicate CommitsSequentially(env: Env, stored: Accounts, ts: seq<Transaction>) {
    var staged := StageAll(env, StorageOnly, stored, ts);
    staged.Done? && ApplyAll(env, stored, ts) == Done(stored + staged.accounts)
  }

  lemma SettledCommits(env: Env, stored: Accounts, ts: seq<Transaction>)
    requires Settled(ts) && SendersStored(stored, ts)
    requires StageAll(env, StorageOnly, stored, ts).Done? || ApplyAll(env, stored, ts).Done?
    requires Supply.Total(stored) < U64_LIMIT
    ensures CommitsSequentially(env, stored, ts)
  {
    hide Settled, SendersStored, StageAll, ApplyAll;
    SettledIsSequential(env, stored, ts, |ts|);
    assert ts[..|ts|] == ts;
    var final, staged := ApplyAll(env, stored, ts).accounts, stored + StageAll(env, StorageOnly, stored, ts).accounts;
    forall key: PublicKey ensures Get(final, key) == Get(staged, key) {
      assert !TouchedFrom(ts, |ts|, key);
      assert InStepAt(stored, ts, |ts|, key, Get(final, key), Get(staged, key));
    }
    SameAccounts(final, staged);
  }

  lemma AcceptedSendersStored(env: Env, stored: Accounts, ts: seq<Transaction>)
    requires StageAll(env, StorageOnly, stored, ts).Done?
    ensures SendersStored(stored, ts)
  {
    forall t | t in ts ensures t.sender in stored {
      var i :| 0 <= i < |ts| && ts[i] == t;
      StagedNonce(env, stored, ts, i);
    }
  }

  // For every block the source accepts, on balances whose sum fits 64 bits: it commits what
  // sequential processing gives if and only if the block is settled.
  lemma StorageOnlyExact(env: Env, stored: Accounts, ts: seq<Transaction>)
    requires StageAll(env, StorageOnly, stored, ts).Done?
    requires Supply.Total(stored) < U64_LIMIT
    ensures ApplyAll(env, stored, ts) == Done(stored + StageAll(env, StorageOnly, stored, ts).accounts) <==> Settled(ts)
  {
    hide StageAll, ApplyAll, Settled, SendersStored;
    AcceptedSendersStored(env, stored, ts);
    if Settled(ts) {
      SettledCommits(env, stored, ts);
    }
    if ApplyAll(env, stored, ts) == Done(stored + StageAll(env, StorageOnly, stored, ts).accounts) {
      SequentialIsSettled(env, stored, ts);
    }
  }

  // For every block that sequential processing accepts, on such balances: the source accepts it
  // with the same result if and only if it is settled and its senders are stored.
  lemma SequentialBlockAccepted(env: Env, stored: Accounts, ts: seq<Transaction>)
    requires ApplyAll(env, stored, ts).Done?
    requires Supply.Total(stored) < U64_LIMIT
    ensures CommitsSequentially(env, stored, ts) <==> Settled(ts) && SendersStored(stored, ts)
  {
    hide StageAll, ApplyAll, Settled, SendersStored;
    if Settled(ts) && SendersStored(stored, ts) {
      SettledCommits(env, stored, ts);
    }
    if CommitsSequentially(env, stored, ts) {
      SequentialIsSettled(env, stored, ts);
      AcceptedSendersStored(env, stored, ts);
    }
  }

  lemma SameAccounts(a: Accounts, b: Accounts)
    requires forall key: PublicKey :: Get(a, key) == Get(b, key)
    ensures a == b
  {
    forall key: PublicKey ensures key in a <==> key in b {
      assert Get(a, key) == Get(b, key);
    }
    forall key | key in a ensures a[key] == b[key] {
      assert Get(a, key) == Get(b, key);
    }
  }
}
