/** Staging a block in an overlay against applying its transactions one by one. */
module Overlay {
  import opened Bytes
  import opened Types
  import opened Ledger

  // The staged writes, committed over the stored accounts, are what sequential processing
  // gives; or both stop at the same transaction with the same error.
  ghost predicate Agrees(stored: Accounts, staged: Outcome, applied: Outcome) {
    match staged
    case Failed(_, _) => applied == staged
    case Done(overlay) => applied == Done(stored + overlay)
  }

  lemma CommitPut(stored: Accounts, overlay: Accounts, key: PublicKey, account: Account)
    ensures stored + overlay[key := account] == (stored + overlay)[key := account]
  {
  }

  lemma ReadThroughCredit(env: Env, stored: Accounts, overlay: Accounts, key: PublicKey, amount: u64)
    ensures
      match StageCredit(env, ReadThrough, stored, overlay, key, amount)
      case Err(e) => Credited(env, stored + overlay, key, amount) == Err(e)
      case Ok(after) => Credited(env, stored + overlay, key, amount) == Ok(stored + after)
  {
    var all := stored + overlay;
    if key !in all {
      CommitPut(stored, overlay, key, WalletAccount(amount, 0));
    } else if all[key].WalletAccount? {
      match Add(env, all[key].balance, amount, Credit)
      case Err(_) =>
      case Ok(balance) => CommitPut(stored, overlay, key, all[key].(balance := balance));
    }
  }

  lemma ReadThroughPay(env: Env, stored: Accounts, overlay: Accounts, t: Transaction, sender: Account)
    requires t.payload.Transfer? && sender.WalletAccount? && t.payload.amount <= sender.balance && t.recipient.Wallet?
    ensures
      var amount := t.payload.amount;
      var debited := overlay[t.sender := sender.(balance := sender.balance - amount)];
      match StageCredit(env, ReadThrough, stored, debited, t.recipient.key, amount)
      case Err(e) => Pay(env, (stored + overlay)[t.sender := sender], t.sender, t.recipient, amount) == Err(e)
      case Ok(after) => Pay(env, (stored + overlay)[t.sender := sender], t.sender, t.recipient, amount) == Ok(stored + after)
  {
    var amount := t.payload.amount;
    var all: Accounts := stored + overlay;
    var paid := sender.(balance := sender.balance - amount);
    CommitPut(stored, overlay, t.sender, paid);
    assert all[t.sender := sender][t.sender := paid] == all[t.sender := paid];
    ReadThroughCredit(env, stored, overlay[t.sender := paid], t.recipient.key, amount);
  }

  lemma ReadThroughStep(env: Env, stored: Accounts, overlay: Accounts, t: Transaction)
    ensures
      match StageTransaction(env, ReadThrough, stored, overlay, t)
      case Err(e) => ApplyTransaction(env, stored + overlay, t) == Err(e)
      case Ok(after) => ApplyTransaction(env, stored + overlay, t) == Ok(stored + after)
  {
    var all := stored + overlay;
    if t.sender in all && Add(env, all[t.sender].nonce, 1, NextNonce) == Ok(t.nonce) {
      var sender := all[t.sender].(nonce := t.nonce);
      CommitPut(stored, overlay, t.sender, sender);
      match t.payload
      case Transfer(amount) =>
        if sender.WalletAccount? && amount <= sender.balance && t.recipient.Wallet? {
          hide StageCredit, Pay;
          ReadThroughPay(env, stored, overlay, t, sender);
        }
      case ContractDeploy(wasm) =>
        var contract := ContractAccount(CodeId(env, t.sender, wasm), ZERO_HASH, t.nonce);
        CommitPut(stored, overlay, t.sender, contract);
        assert all[t.sender := sender][t.sender := contract] == all[t.sender := contract];
      case ContractCall(_, _) =>
      case Data(_) =>
    }
  }

  // Reading through the overlay is sequential processing, for every block.
  lemma {:induction false} ReadThroughIsSequential(env: Env, stored: Accounts, ts: seq<Transaction>)
    ensures Agrees(stored, StageAll(env, ReadThrough, stored, ts), ApplyAll(env, stored, ts))
  {
    if ts == [] {
      assert stored + map[] == stored;
    } else {
      var front := ts[..|ts| - 1];
      ReadThroughIsSequential(env, stored, front);
      var staged := StageAll(env, ReadThrough, stored, front);
      if staged.Done? {
        ReadThroughStep(env, stored, staged.accounts, ts[|ts| - 1]);
      }
    }
  }

  // ---------- the source's reads, which go to storage alone ----------

  // The accounts a transaction reads or writes.
  function Touched(t: Transaction): set<PublicKey> {
    {t.sender} + if t.payload.Transfer? && t.recipient.Wallet? then {t.recipient.key} else {}
  }

  predicate SelfTransfer(t: Transaction) {
    t.payload.Transfer? && t.recipient == Wallet(t.sender)
  }

  // No account is touched by two transactions, and no transfer is to its own sender.
  predicate Disjoint(ts: seq<Transaction>) {
    && (forall t | t in ts :: !SelfTransfer(t))
    && (forall i, j | 0 <= i < j < |ts| :: Touched(ts[i]) !! Touched(ts[j]))
  }

  lemma StageWrites(env: Env, mode: Reads, stored: Accounts, overlay: Accounts, t: Transaction)
    requires StageTransaction(env, mode, stored, overlay, t).Ok?
    ensures StageTransaction(env, mode, stored, overlay, t).value.Keys == overlay.Keys + Touched(t)
  {
  }

  lemma {:induction false} OverlayKeys(env: Env, mode: Reads, stored: Accounts, ts: seq<Transaction>, key: PublicKey)
    requires StageAll(env, mode, stored, ts).Done?
    ensures key in StageAll(env, mode, stored, ts).accounts <==> exists i :: 0 <= i < |ts| && key in Touched(ts[i])
  {
    if ts != [] {
      var last := |ts| - 1;
      OverlayKeys(env, mode, stored, ts[..last], key);
      StageWrites(env, mode, stored, StageAll(env, mode, stored, ts[..last]).accounts, ts[last]);
      if i :| 0 <= i < |ts| && key in Touched(ts[i]) {
        assert i < last ==> key in Touched(ts[..last][i]);
      }
      if i :| 0 <= i < last && key in Touched(ts[..last][i]) {
        assert key in Touched(ts[i]);
      }
    }
  }

  lemma FreshReadsAgree(env: Env, stored: Accounts, overlay: Accounts, t: Transaction)
    requires overlay.Keys !! Touched(t) && !SelfTransfer(t)
    ensures StageTransaction(env, StorageOnly, stored, overlay, t) == StageTransaction(env, ReadThrough, stored, overlay, t)
  {
    assert t.sender in Touched(t);
    if t.payload.Transfer? && t.recipient.Wallet? {
      assert t.recipient.key in Touched(t);
    }
  }

  lemma {:induction false} DisjointStaging(env: Env, stored: Accounts, ts: seq<Transaction>)
    requires Disjoint(ts)
    ensures StageAll(env, StorageOnly, stored, ts) == StageAll(env, ReadThrough, stored, ts)
  {
    if ts != [] {
      var last := |ts| - 1;
      DisjointStaging(env, stored, ts[..last]);
      var staged := StageAll(env, ReadThrough, stored, ts[..last]);
      if staged.Done? {
        forall key | key in staged.accounts ensures key !in Touched(ts[last]) {
          OverlayKeys(env, ReadThrough, stored, ts[..last], key);
          var i :| 0 <= i < last && key in Touched(ts[..last][i]);
          assert key in Touched(ts[i]);
        }
        FreshReadsAgree(env, stored, staged.accounts, ts[last]);
      }
    }
  }

  // On disjoint blocks the source, too, is sequential processing.
  lemma DisjointIsSequential(env: Env, stored: Accounts, ts: seq<Transaction>)
    requires Disjoint(ts)
    ensures Agrees(stored, StageAll(env, StorageOnly, stored, ts), ApplyAll(env, stored, ts))
  {
    DisjointStaging(env, stored, ts);
    ReadThroughIsSequential(env, stored, ts);
  }

  // The blocks on which a way of reading is known to be sequential.
  predicate Faithful(mode: Reads, ts: seq<Transaction>) {
    mode.ReadThrough? || Disjoint(ts)
  }

  lemma FaithfulIsSequential(env: Env, mode: Reads, stored: Accounts, ts: seq<Transaction>)
    requires Faithful(mode, ts)
    ensures Agrees(stored, StageAll(env, mode, stored, ts), ApplyAll(env, stored, ts))
  {
    if mode.ReadThrough? {
      ReadThroughIsSequential(env, stored, ts);
    } else {
      DisjointIsSequential(env, stored, ts);
    }
  }
}
