/** What one transaction, and what validation, does in each case: every error with its exact
    condition, and every account after a success. */
module Transitions {
  import opened Bytes
  import opened Types
  import opened Hashing
  import opened Ledger
  import opened Overlay
  import opened Staleness

  // The 64-bit sum: exact when the build checks overflow, and otherwise wrapped around.
  predicate SumIs(env: Env, a: u64, b: u64, sum: u64) {
    sum == (a + b) % U64_LIMIT && (env.overflowChecks ==> a + b < U64_LIMIT)
  }

  lemma AddExact(env: Env, a: u64, b: u64, what: Sum, sum: u64)
    ensures Add(env, a, b, what) == Ok(sum) <==> SumIs(env, a, b, sum)
    ensures Add(env, a, b, what).Err? <==> env.overflowChecks && a + b >= U64_LIMIT
    ensures Add(env, a, b, what).Err? ==> Add(env, a, b, what) == Err(Panic(what))
  {
  }

  // ---------- refusals ----------

  predicate Next(env: Env, sender: Option<Account>, t: Transaction) {
    sender.Some? && SumIs(env, sender.value.nonce, 1, t.nonce)
  }

  // A transfer that passes all checks on its sender.
  predicate Payable(env: Env, sender: Option<Account>, t: Transaction) {
    && Next(env, sender, t)
    && t.payload.Transfer?
    && sender.value.WalletAccount?
    && t.payload.amount <= sender.value.balance
  }

  // When a transaction is refused, and with which error, given the account read for its sender
  // and the one read for its recipient.
  predicate Refuses(env: Env, sender: Option<Account>, recipient: Option<Account>, t: Transaction, e: LedgerError) {
    match e
    case AccountNotFound(key) => key == t.sender && sender.None?
    case Panic(NextNonce) => sender.Some? && env.overflowChecks && sender.value.nonce + 1 >= U64_LIMIT
    case InvalidNonce(key, expected, got) =>
      key == t.sender && sender.Some? && SumIs(env, sender.value.nonce, 1, expected) && got == t.nonce && got != expected
    case StateTransition(SenderNotWallet) => Next(env, sender, t) && t.payload.Transfer? && sender.value.ContractAccount?
    case InsufficientBalance(key) =>
      && key == t.sender && Next(env, sender, t)
      && t.payload.Transfer? && sender.value.WalletAccount? && sender.value.balance < t.payload.amount
    case StateTransition(TransferToContract) => Payable(env, sender, t) && t.recipient.Contract?
    case StateTransition(RecipientNotWallet) =>
      Payable(env, sender, t) && t.recipient.Wallet? && recipient.Some? && recipient.value.ContractAccount?
    case Panic(Credit) =>
      && Payable(env, sender, t) && t.recipient.Wallet? && recipient.Some? && recipient.value.WalletAccount?
      && env.overflowChecks && recipient.value.balance + t.payload.amount >= U64_LIMIT
    case InvalidTransactionPayload => Next(env, sender, t) && t.payload.ContractCall? && t.recipient.Wallet?
    case _ => false
  }

  // The account a credit finds: the debited sender itself, when reads see the debit.
  function Found(accounts: Accounts, t: Transaction, seesDebit: bool): Option<Account> {
    if !t.recipient.Wallet? then None
    else if seesDebit && t.recipient.key == t.sender && t.sender in accounts
            && accounts[t.sender].WalletAccount? && t.payload.Transfer? && t.payload.amount <= accounts[t.sender].balance
    then Some(WalletAccount(accounts[t.sender].balance - t.payload.amount, t.nonce))
    else Get(accounts, t.recipient.key)
  }

  lemma SequentialTransferRefusal(env: Env, accounts: Accounts, t: Transaction, e: LedgerError)
    requires t.payload.Transfer?
    ensures ApplyTransaction(env, accounts, t) == Err(e)
       <==> Refuses(env, Get(accounts, t.sender), Found(accounts, t, true), t, e)
  {
  }

  // For every state and transaction: sequential processing refuses it with exactly these errors.
  lemma SequentialRefusal(env: Env, accounts: Accounts, t: Transaction, e: LedgerError)
    ensures ApplyTransaction(env, accounts, t) == Err(e)
       <==> Refuses(env, Get(accounts, t.sender), Found(accounts, t, true), t, e)
  {
    if t.payload.Transfer? {
      SequentialTransferRefusal(env, accounts, t, e);
    }
  }

  lemma StagedTransferRefusal(env: Env, stored: Accounts, overlay: Accounts, t: Transaction, e: LedgerError)
    requires t.payload.Transfer?
    ensures StageTransaction(env, StorageOnly, stored, overlay, t) == Err(e)
       <==> Refuses(env, Get(stored, t.sender), Found(stored, t, false), t, e)
  {
  }

  // So does the source, on the stored accounts.
  lemma StagedRefusal(env: Env, stored: Accounts, overlay: Accounts, t: Transaction, e: LedgerError)
    ensures StageTransaction(env, StorageOnly, stored, overlay, t) == Err(e)
       <==> Refuses(env, Get(stored, t.sender), Found(stored, t, false), t, e)
  {
    if t.payload.Transfer? {
      StagedTransferRefusal(env, stored, overlay, t, e);
    }
  }

  // ---------- effects ----------

  // What an accepted transaction, not a transfer to its own sender, makes of an account.
  predicate Becomes(env: Env, t: Transaction, key: PublicKey, before: Option<Account>, after: Option<Account>) {
    if key == t.sender then
      && Next(env, before, t)
      && match t.payload {
           case Transfer(amount) =>
             && before.value.WalletAccount?
             && amount <= before.value.balance
             && after == Some(WalletAccount(before.value.balance - amount, t.nonce))
           case ContractDeploy(wasm) => after == Some(ContractAccount(env.digest(t.sender + wasm), ZERO_HASH, t.nonce))
           case ContractCall(_, _) => t.recipient.Contract? && after == Some(before.value.(nonce := t.nonce))
           case Data(_) => after == Some(before.value.(nonce := t.nonce))
         }
    else if t.payload.Transfer? && t.recipient == Wallet(key) then
      match (before, after) {
        case (None, Some(a)) => a == WalletAccount(t.payload.amount, 0)
        case (Some(b), Some(a)) =>
          && b.WalletAccount? && a.WalletAccount? && a.nonce == b.nonce
          && SumIs(env, b.balance, t.payload.amount, a.balance)
        case _ => false
      }
    else
      after == before
  }

  // A transfer to oneself: sequentially it only takes a nonce; under the source's reads it is
  // credited to the stored account, and takes none.
  predicate PaysItself(env: Env, t: Transaction, before: Option<Account>, after: Option<Account>, seesDebit: bool) {
    && Payable(env, before, t)
    && after.Some? && after.value.WalletAccount?
    && if seesDebit then after.value == WalletAccount(before.value.balance, t.nonce)
       else after.value.nonce == before.value.nonce && SumIs(env, before.value.balance, t.payload.amount, after.value.balance)
  }

  lemma SequentialEffect(env: Env, accounts: Accounts, t: Transaction, key: PublicKey)
    requires ApplyTransaction(env, accounts, t).Ok?
    ensures var after := ApplyTransaction(env, accounts, t).value;
      if SelfTransfer(t) && key == t.sender then PaysItself(env, t, Get(accounts, key), Get(after, key), true)
      else Becomes(env, t, key, Get(accounts, key), Get(after, key))
  {
  }

  // Under the source's reads a touched account is what the transaction makes of the stored one,
  // and any other stays as it was staged.
  lemma StagedEffect(env: Env, stored: Accounts, overlay: Accounts, t: Transaction, key: PublicKey)
    requires StageTransaction(env, StorageOnly, stored, overlay, t).Ok?
    ensures var after := stored + StageTransaction(env, StorageOnly, stored, overlay, t).value;
      if key !in Touched(t) then Get(after, key) == Get(stored + overlay, key)
      else if SelfTransfer(t) then PaysItself(env, t, Get(stored, key), Get(after, key), false)
      else Becomes(env, t, key, Get(stored, key), Get(after, key))
  {
  }

  // ---------- lists of transactions ----------

  // The states along a list that is accepted, one for each prefix.
  ghost predicate Steps(env: Env, states: seq<Accounts>, ts: seq<Transaction>) {
    && |states| == |ts| + 1
    && forall i | 0 <= i < |ts| :: ApplyTransaction(env, states[i], ts[i]) == Ok(states[i + 1])
  }

  // Sequential processing ends in a state exactly when each transaction leads on to it.
  lemma {:induction false} SequentialSteps(env: Env, accounts: Accounts, ts: seq<Transaction>, final: Accounts)
    ensures ApplyAll(env, accounts, ts) == Done(final)
       <==> exists states :: Steps(env, states, ts) && states[0] == accounts && states[|ts|] == final
  {
    hide ApplyTransaction;
    if ts == [] {
      if ApplyAll(env, accounts, ts) == Done(final) {
        assert Steps(env, [accounts], ts);
      }
    } else {
      var last := |ts| - 1;
      if ApplyAll(env, accounts, ts) == Done(final) {
        var before := ApplyAll(env, accounts, ts[..last]).accounts;
        SequentialSteps(env, accounts, ts[..last], before);
        var states :| Steps(env, states, ts[..last]) && states[0] == accounts && states[last] == before;
        StepsOn(env, states, ts, final);
      }
      if states :| Steps(env, states, ts) && states[0] == accounts && states[|ts|] == final {
        SequentialSteps(env, accounts, ts[..last], states[last]);
        StepsBack(env, states, ts);
      }
    }
  }

  lemma StepsOn(env: Env, states: seq<Accounts>, ts: seq<Transaction>, final: Accounts)
    requires ts != [] && Steps(env, states, ts[..|ts| - 1])
    requires ApplyTransaction(env, states[|ts| - 1], ts[|ts| - 1]) == Ok(final)
    ensures Steps(env, states + [final], ts)
  {
    hide ApplyTransaction;
  }

  lemma StepsBack(env: Env, states: seq<Accounts>, ts: seq<Transaction>)
    requires ts != [] && Steps(env, states, ts)
    ensures Steps(env, states[..|ts|], ts[..|ts| - 1]) && states[..|ts|][|ts| - 1] == states[|ts| - 1]
  {
    hide ApplyTransaction;
  }

  // The source's staging ends in an overlay exactly when each transaction is staged on the ones
  // before it, from nothing.
  ghost predicate Stages(env: Env, mode: Reads, stored: Accounts, overlays: seq<Accounts>, ts: seq<Transaction>) {
    && |overlays| == |ts| + 1
    && overlays[0] == map[]
    && forall i | 0 <= i < |ts| :: StageTransaction(env, mode, stored, overlays[i], ts[i]) == Ok(overlays[i + 1])
  }

  lemma {:induction false} StagedSteps(env: Env, mode: Reads, stored: Accounts, ts: seq<Transaction>, final: Accounts)
    ensures StageAll(env, mode, stored, ts) == Done(final)
       <==> exists overlays :: Stages(env, mode, stored, overlays, ts) && overlays[|ts|] == final
  {
    hide StageTransaction;
    if ts == [] {
      if StageAll(env, mode, stored, ts) == Done(final) {
        assert Stages(env, mode, stored, [map[]], ts);
      }
    } else {
      var last := |ts| - 1;
      if StageAll(env, mode, stored, ts) == Done(final) {
        var before := StageAll(env, mode, stored, ts[..last]).accounts;
        StagedSteps(env, mode, stored, ts[..last], before);
        var overlays :| Stages(env, mode, stored, overlays, ts[..last]) && overlays[last] == before;
        StagesOn(env, mode, stored, overlays, ts, final);
      }
      if overlays :| Stages(env, mode, stored, overlays, ts) && overlays[|ts|] == final {
        StagesBack(env, mode, stored, overlays, ts);
        StagedSteps(env, mode, stored, ts[..last], overlays[last]);
      }
    }
  }

  lemma StagesOn(env: Env, mode: Reads, stored: Accounts, overlays: seq<Accounts>, ts: seq<Transaction>, final: Accounts)
    requires ts != [] && Stages(env, mode, stored, overlays, ts[..|ts| - 1])
    requires StageTransaction(env, mode, stored, overlays[|ts| - 1], ts[|ts| - 1]) == Ok(final)
    ensures Stages(env, mode, stored, overlays + [final], ts)
  {
    hide StageTransaction;
  }

  lemma StagesBack(env: Env, mode: Reads, stored: Accounts, overlays: seq<Accounts>, ts: seq<Transaction>)
    requires ts != [] && Stages(env, mode, stored, overlays, ts)
    ensures Stages(env, mode, stored, overlays[..|ts|], ts[..|ts| - 1])
    ensures overlays[..|ts|][|ts| - 1] == overlays[|ts| - 1]
  {
    hide StageTransaction;
  }

  // ---------- validation ----------

  // When a block is refused, and with which fault: the first check that fails, in this order.
  predicate Invalid(env: Env, blocks: map<Hash, Block>, b: Block, state: ChainState, e: LedgerError) {
    var numbered := SumIs(env, state.latestIndex, 1, b.index);
    var linked := numbered && b.prevHash == state.latestHash;
    var hashed := linked && b.hash == env.digest(BlockPreimage(b));
    var later := hashed && (b.index == 0 || (b.prevHash in blocks && blocks[b.prevHash].timestamp < b.timestamp));
    match e
    case Panic(NextIndex) => env.overflowChecks && state.latestIndex + 1 >= U64_LIMIT
    case BlockValidation(WrongIndex(expected, got)) =>
      SumIs(env, state.latestIndex, 1, expected) && got == b.index && got != expected
    case BlockValidation(WrongPrevHash) => numbered && b.prevHash != state.latestHash
    case BlockValidation(WrongHash) => linked && b.hash != env.digest(BlockPreimage(b))
    case NotFound => hashed && b.index > 0 && b.prevHash !in blocks
    case BlockValidation(StaleTimestamp) =>
      hashed && b.index > 0 && b.prevHash in blocks && b.timestamp <= blocks[b.prevHash].timestamp
    case BlockValidation(BadSignature(hash)) => later && FirstUnsigned(env, b.transactions, hash)
    case _ => false
  }

  // The hash of the first transaction that its sender has not signed.
  predicate FirstUnsigned(env: Env, ts: seq<Transaction>, hash: Hash) {
    exists i | 0 <= i < |ts| ::
      && !VerifySignature(env, ts[i])
      && ts[i].hash == hash
      && forall j | 0 <= j < i :: VerifySignature(env, ts[j])
  }

  lemma {:induction false} SignatureFault(env: Env, ts: seq<Transaction>, e: LedgerError)
    ensures CheckSignatures(env, ts) == Err(e)
       <==> e.BlockValidation? && e.fault.BadSignature? && FirstUnsigned(env, ts, e.fault.hash)
  {
    hide VerifySignature;
    if ts != [] {
      var last := |ts| - 1;
      SignatureFault(env, ts[..last], e);
      SignaturesChecked(env, ts[..last]);
      if e.BlockValidation? && e.fault.BadSignature? {
        FirstUnsignedOn(env, ts, e.fault.hash);
      }
    }
  }

  lemma FirstUnsignedOn(env: Env, ts: seq<Transaction>, hash: Hash)
    requires ts != []
    ensures var last := |ts| - 1;
      FirstUnsigned(env, ts, hash)
      <==> || FirstUnsigned(env, ts[..last], hash)
           || (&& (forall t | t in ts[..last] :: VerifySignature(env, t))
               && !VerifySignature(env, ts[last]) && ts[last].hash == hash)
  {
    hide VerifySignature;
    var last := |ts| - 1;
    var front := ts[..last];
    if i :| 0 <= i < |ts| && !VerifySignature(env, ts[i]) && ts[i].hash == hash
            && forall j | 0 <= j < i :: VerifySignature(env, ts[j]) {
      if i < last {
        assert !VerifySignature(env, front[i]) && forall j | 0 <= j < i :: VerifySignature(env, front[j]);
      }
    }
    if i :| 0 <= i < last && !VerifySignature(env, front[i]) && front[i].hash == hash
            && forall j | 0 <= j < i :: VerifySignature(env, front[j]) {
      assert !VerifySignature(env, ts[i]) && forall j | 0 <= j < i :: VerifySignature(env, ts[j]);
    }
    if (forall t | t in front :: VerifySignature(env, t)) && !VerifySignature(env, ts[last]) && ts[last].hash == hash {
      assert forall j | 0 <= j < last :: VerifySignature(env, ts[j]) by {
        forall j | 0 <= j < last ensures VerifySignature(env, ts[j]) {
          assert front[j] in front;
        }
      }
    }
  }

  // For every block: validation fails with exactly these errors.
  lemma ValidationExact(env: Env, blocks: map<Hash, Block>, b: Block, state: ChainState, e: LedgerError)
    ensures ValidateBlock(env, blocks, b, state) == Err(e) <==> Invalid(env, blocks, b, state, e)
  {
    hide CheckSignatures, VerifySignature, BlockPreimage, FirstUnsigned;
    SignatureFault(env, b.transactions, e);
  }
}
