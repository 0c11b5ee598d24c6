/** What the source's own reads, which go to storage alone, do to nonces and to the supply,
    and exactly when that is right. Each account ends as its last touch in the block left it. */
module CodeReads {
  import opened Bytes
  import opened Types
  import opened Ledger
  import opened Overlay
  import opened Staleness
  import Nonces
  import Supply

  // The accounts after the source has accepted and committed a block.
  function Committed(env: Env, stored: Accounts, ts: seq<Transaction>): Accounts
    requires StageAll(env, StorageOnly, stored, ts).Done?
  {
    stored + StageAll(env, StorageOnly, stored, ts).accounts
  }

  // ---------- nonces ----------

  // The sends of an account that its final nonce counts: one when the last transaction that
  // touches it is one it sent, not to itself, and none otherwise.
  function Kept(ts: seq<Transaction>, key: PublicKey): nat {
    if ts == [] then 0
    else
      var t := ts[|ts| - 1];
      if key !in Touched(t) then Kept(ts[..|ts| - 1], key)
      else if t.sender == key && !SelfTransfer(t) then 1
      else 0
  }

  // Every sender sends once, not to itself, and is not touched afterwards. This looks at the transactions alone.
  predicate NoncesKept(ts: seq<Transaction>) {
    forall t | t in ts :: Nonces.Count(ts, t.sender) == Kept(ts, t.sender)
  }

  lemma {:induction false} KeptReached(env: Env, stored: Accounts, ts: seq<Transaction>, key: PublicKey)
    requires StageAll(env, StorageOnly, stored, ts).Done?
    ensures Nonces.Reached(env, Nonces.NonceAt(Committed(env, stored, ts), key), Nonces.NonceAt(stored, key), Kept(ts, key))
  {
    if ts == [] {
      assert stored + map[] == stored;
    } else {
      var front, t := ts[..|ts| - 1], ts[|ts| - 1];
      KeptReached(env, stored, front, key);
      var overlay := StageAll(env, StorageOnly, stored, front).accounts;
      TouchedNonce(env, stored, overlay, t, key);
    }
  }

  lemma TouchedNonce(env: Env, stored: Accounts, overlay: Accounts, t: Transaction, key: PublicKey)
    requires StageTransaction(env, StorageOnly, stored, overlay, t).Ok?
    ensures var after := stored + StageTransaction(env, StorageOnly, stored, overlay, t).value;
      var nonce := Nonces.NonceAt(after, key);
      if key !in Touched(t) then nonce == Nonces.NonceAt(stored + overlay, key)
      else Nonces.Reached(env, nonce, Nonces.NonceAt(stored, key), if t.sender == key && !SelfTransfer(t) then 1 else 0)
  {
    StagedMoves(env, stored, overlay, t, key);
    hide StageTransaction;
  }

  // For every block the source accepts: it leaves an account's nonce advanced by the number of
  // transactions the account sent if and only if that number is the one it keeps.
  lemma NonceExact(env: Env, stored: Accounts, ts: seq<Transaction>, key: PublicKey)
    requires StageAll(env, StorageOnly, stored, ts).Done? && |ts| < U64_LIMIT
    ensures Nonces.Reached(env, Nonces.NonceAt(Committed(env, stored, ts), key), Nonces.NonceAt(stored, key),
                           Nonces.Count(ts, key))
       <==> Nonces.Count(ts, key) == Kept(ts, key)
  {
    KeptReached(env, stored, ts, key);
    Nonces.CountBound(ts, key);
    hide StageAll, Kept, Nonces.Count;
    var after, before := Nonces.NonceAt(Committed(env, stored, ts), key), Nonces.NonceAt(stored, key);
    if Nonces.Reached(env, after, before, Nonces.Count(ts, key)) {
      KeptAtMostOne(ts, key);
      Nonces.ReachedUnique(env, after, before, Nonces.Count(ts, key), Kept(ts, key));
    }
  }

  lemma {:induction false} KeptAtMostOne(ts: seq<Transaction>, key: PublicKey)
    ensures Kept(ts, key) <= 1
  {
    if ts != [] {
      KeptAtMostOne(ts[..|ts| - 1], key);
    }
  }

  lemma {:induction false} NotASender(ts: seq<Transaction>, key: PublicKey)
    requires forall t | t in ts :: t.sender != key
    ensures Nonces.Count(ts, key) == 0 && Kept(ts, key) == 0
  {
    if ts != [] {
      NotASender(ts[..|ts| - 1], key);
    }
  }

  lemma KeptForAll(ts: seq<Transaction>, key: PublicKey)
    requires NoncesKept(ts)
    ensures Nonces.Count(ts, key) == Kept(ts, key)
  {
    if t :| t in ts && t.sender == key {
    } else {
      NotASender(ts, key);
    }
  }

  // The same for all accounts of a block at once.
  lemma BlockNoncesExact(env: Env, stored: Accounts, ts: seq<Transaction>)
    requires StageAll(env, StorageOnly, stored, ts).Done? && |ts| < U64_LIMIT
    ensures (forall key: PublicKey ::
               Nonces.Reached(env, Nonces.NonceAt(Committed(env, stored, ts), key), Nonces.NonceAt(stored, key),
                              Nonces.Count(ts, key)))
       <==> NoncesKept(ts)
  {
    hide StageAll, Committed, Kept, Nonces.Count, Nonces.Reached;
    forall key: PublicKey
      ensures Nonces.Reached(env, Nonces.NonceAt(Committed(env, stored, ts), key), Nonces.NonceAt(stored, key),
                             Nonces.Count(ts, key))
         <==> Nonces.Count(ts, key) == Kept(ts, key)
    {
      NonceExact(env, stored, ts, key);
    }
    if NoncesKept(ts) {
      forall key: PublicKey ensures Nonces.Count(ts, key) == Kept(ts, key) {
        KeptForAll(ts, key);
      }
    }
  }

  // The nonces inside such a block are consecutive: each sender's one transaction carries the
  // next nonce.
  lemma KeptConsecutive(env: Env, stored: Accounts, ts: seq<Transaction>, i: nat)
    requires StageAll(env, StorageOnly, stored, ts).Done? && NoncesKept(ts) && i < |ts|
    ensures Nonces.Reached(env, ts[i].nonce, Nonces.NonceAt(stored, ts[i].sender), Nonces.Count(ts[..i + 1], ts[i].sender))
  {
    hide Nonces.Count, Kept, StageAll;
    var key := ts[i].sender;
    StagedNonce(env, stored, ts, i);
    KeptForAll(ts, key);
    KeptAtMostOne(ts, key);
    CountPositive(ts[..i + 1], key, i);
    if i + 1 < |ts| {
      Nonces.CountGrows(ts, key, i + 1, |ts|);
    }
    assert ts[..|ts|] == ts;
  }

  lemma {:induction false} LastSend(ts: seq<Transaction>, key: PublicKey, i: nat)
    requires i < |ts| && ts[i].sender == key && !SelfTransfer(ts[i])
    requires forall j | 0 <= j < i :: ts[j].sender != key
    requires forall j | i < j < |ts| :: key !in Touched(ts[j])
    ensures Nonces.Count(ts, key) == 1 && Kept(ts, key) == 1
  {
    var last := |ts| - 1;
    if i < last {
      assert key !in Touched(ts[last]);
      LastSend(ts[..last], key, i);
    } else {
      NotASender(ts[..last], key);
    }
  }

  // Blocks processed sequentially keep nonces, and they are not the only ones.
  lemma SettledKeepsNonces(ts: seq<Transaction>)
    requires Settled(ts)
    ensures NoncesKept(ts)
  {
    forall t | t in ts ensures Nonces.Count(ts, t.sender) == Kept(ts, t.sender) {
      var key := t.sender;
      var i :| 0 <= i < |ts| && ts[i] == t;
      forall j | i < j < |ts| ensures key !in Touched(ts[j]) {
        assert key in Touched(ts[i]);
        assert key in Touched(ts[j]) ==> TouchedFrom(ts, i + 1, key) && Forgettable(ts, i, key);
      }
      forall j | 0 <= j < i ensures ts[j].sender != key {
        assert key in Touched(ts[i]) && TouchedFrom(ts, j + 1, key);
        assert key in Touched(ts[j]) ==> Forgettable(ts, j, key);
      }
      LastSend(ts, key, i);
    }
  }

  // Two payments to one recipient leave all nonces right, although the block is not settled.
  lemma SharedRecipient(t: Transaction, u: Transaction, key: PublicKey)
    requires Receives(t, key) && Receives(u, key)
    requires t.sender != u.sender && t.sender != key && u.sender != key && t.payload.amount > 0
    ensures NoncesKept([t, u]) && !Settled([t, u])
  {
    var ts := [t, u];
    assert ts[..1] == [t] && [t][..0] == [];
    assert Kept([t], t.sender) == 1 && Nonces.Count([t], t.sender) == 1;
    NotASender([t], u.sender);
    assert key in Touched(ts[0]) && key in Touched(ts[1]);
    assert TouchedFrom(ts, 1, key);
    assert !DeploysFrom(ts, 1, key);
    assert !Forgettable(ts, 0, key);
  }

  // ---------- supply ----------

  // The amount transactions move, each account counted once, at its last touch: what is paid
  // out counts against, what is received counts for. This looks at the transactions alone.
  function Moved(ts: seq<Transaction>, seen: set<PublicKey>): int {
    if ts == [] then 0
    else
      var t := ts[|ts| - 1];
      Moved(ts[..|ts| - 1], seen + Touched(t))
        + (if t.sender !in seen then MovedBy(t, t.sender) else 0)
        + (if OtherRecipient(t) && t.recipient.key !in seen then MovedBy(t, t.recipient.key) else 0)
  }

  predicate OtherRecipient(t: Transaction) {
    t.payload.Transfer? && t.recipient.Wallet? && t.recipient.key != t.sender
  }

  function MovedBy(t: Transaction, key: PublicKey): int {
    var amount: int := if t.payload.Transfer? then t.payload.amount else 0;
    if Receives(t, key) then amount else if t.sender == key then -amount else 0
  }

  // The stored balances of the accounts whose last touch is their own deployment.
  function Burnt(stored: Accounts, ts: seq<Transaction>, seen: set<PublicKey>): nat {
    if ts == [] then 0
    else
      var t := ts[|ts| - 1];
      Burnt(stored, ts[..|ts| - 1], seen + Touched(t))
        + if t.sender !in seen && t.payload.ContractDeploy? then Supply.BalanceAt(stored, t.sender) else 0
  }

  // Transfers to oneself stay within 64 bits.
  predicate SelfCreditsFit(stored: Accounts, ts: seq<Transaction>) {
    forall t | t in ts && SelfTransfer(t) :: Supply.BalanceAt(stored, t.sender) + t.payload.amount < U64_LIMIT
  }

  // Accepted credits are exact: overflow is checked, or the balances leave room.
  ghost predicate CreditsExact(env: Env, stored: Accounts, ts: seq<Transaction>) {
    env.overflowChecks || (Supply.Total(stored) < U64_LIMIT && SelfCreditsFit(stored, ts))
  }

  lemma StageFrame(env: Env, stored: Accounts, overlay: Accounts, t: Transaction)
    requires StageTransaction(env, StorageOnly, stored, overlay, t).Ok?
    ensures var after := StageTransaction(env, StorageOnly, stored, overlay, t).value;
      && after.Keys == overlay.Keys + Touched(t)
      && forall key | key in overlay && key !in Touched(t) :: after[key] == overlay[key]
  {
  }

  // One staged account against its stored balance.
  lemma StagedBalance(env: Env, stored: Accounts, overlay: Accounts, t: Transaction, key: PublicKey)
    requires StageTransaction(env, StorageOnly, stored, overlay, t).Ok?
    requires key in Touched(t)
    requires CreditsExact(env, stored, [t])
    ensures var after := StageTransaction(env, StorageOnly, stored, overlay, t).value;
      && key in after
      && Supply.BalanceOf(after[key])
           == if Deploys(t, key) then 0 else Supply.BalanceAt(stored, key) + MovedBy(t, key)
  {
    hide Supply.Total;
    assert t in [t];
    StageWrites(env, StorageOnly, stored, overlay, t);
    if OtherRecipient(t) {
      assert t.payload.amount <= Supply.BalanceAt(stored, t.sender);
      if Supply.Total(stored) < U64_LIMIT {
        CreditFits(stored, t.sender, t.recipient.key, t.payload.amount);
      }
    }
  }

  lemma OneIfExact(env: Env, stored: Accounts, ts: seq<Transaction>, t: Transaction)
    requires CreditsExact(env, stored, ts) && t in ts
    ensures CreditsExact(env, stored, [t]) && CreditsExact(env, stored, ts[..|ts| - 1])
  {
  }

  lemma {:induction false} MovedExact(env: Env, stored: Accounts, ts: seq<Transaction>, seen: set<PublicKey>)
    requires StageAll(env, StorageOnly, stored, ts).Done? && CreditsExact(env, stored, ts)
    ensures Supply.Total(stored + (StageAll(env, StorageOnly, stored, ts).accounts - seen)) + Burnt(stored, ts, seen)
         == Supply.Total(stored) + Moved(ts, seen)
  {
    if ts == [] {
      assert stored + (map[] - seen) == stored;
    } else {
      var front, t := ts[..|ts| - 1], ts[|ts| - 1];
      OneIfExact(env, stored, ts, t);
      MovedExact(env, stored, front, seen + Touched(t));
      var overlay := StageAll(env, StorageOnly, stored, front).accounts;
      MovedStep(env, stored, overlay, t, seen);
    }
  }

  function PutUnseen(accounts: Accounts, key: PublicKey, account: Account, seen: set<PublicKey>): Accounts {
    if key in seen then accounts else accounts[key := account]
  }

  lemma PutUnseenTotal(accounts: Accounts, key: PublicKey, account: Account, seen: set<PublicKey>)
    ensures Supply.Total(PutUnseen(accounts, key, account, seen))
         == Supply.Total(accounts) + if key in seen then 0 else Supply.BalanceOf(account) - Supply.BalanceAt(accounts, key)
  {
    Supply.TotalPut(accounts, key, account);
  }

  lemma UnseenWrites(stored: Accounts, overlay: Accounts, after: Accounts, p: PublicKey, q: PublicKey, seen: set<PublicKey>)
    requires after.Keys == overlay.Keys + {p, q}
    requires forall key | key in overlay && key !in {p, q} :: after[key] == overlay[key]
    ensures stored + (after - seen)
         == PutUnseen(PutUnseen(stored + (overlay - (seen + {p, q})), p, after[p], seen), q, after[q], seen)
  {
  }

  // The last transaction of a block decides the accounts it touches.
  lemma MovedStep(env: Env, stored: Accounts, overlay: Accounts, t: Transaction, seen: set<PublicKey>)
    requires StageTransaction(env, StorageOnly, stored, overlay, t).Ok? && CreditsExact(env, stored, [t])
    ensures var after := StageTransaction(env, StorageOnly, stored, overlay, t).value;
      Supply.Total(stored + (after - seen)) + (if t.sender !in seen && t.payload.ContractDeploy? then Supply.BalanceAt(stored, t.sender) else 0)
        == Supply.Total(stored + (overlay - (seen + Touched(t))))
             + (if t.sender !in seen then MovedBy(t, t.sender) else 0)
             + (if OtherRecipient(t) && t.recipient.key !in seen then MovedBy(t, t.recipient.key) else 0)
  {
    var after := StageTransaction(env, StorageOnly, stored, overlay, t).value;
    var base := stored + (overlay - (seen + Touched(t)));
    var p, q := t.sender, if OtherRecipient(t) then t.recipient.key else t.sender;
    assert Touched(t) == {p, q};
    StageFrame(env, stored, overlay, t);
    StagedBalance(env, stored, overlay, t, p);
    StagedBalance(env, stored, overlay, t, q);
    hide StageTransaction, Supply.Total, CreditsExact;
    UnseenWrites(stored, overlay, after, p, q, seen);
    var sent := PutUnseen(base, p, after[p], seen);
    PutUnseenTotal(base, p, after[p], seen);
    PutUnseenTotal(sent, q, after[q], seen);
  }

  // For every block the source accepts, with credits that are exact: the supply changes by what
  // the transactions move, and by what deployments burn. So, deployments apart, it is conserved
  // if and only if the transactions move nothing.
  lemma SupplyExact(env: Env, stored: Accounts, ts: seq<Transaction>)
    requires StageAll(env, StorageOnly, stored, ts).Done? && CreditsExact(env, stored, ts)
    ensures Supply.Total(Committed(env, stored, ts)) + Burnt(stored, ts, {}) == Supply.Total(stored) + Moved(ts, {})
    ensures Supply.Total(Committed(env, stored, ts)) + Burnt(stored, ts, {}) == Supply.Total(stored) <==> Moved(ts, {}) == 0
  {
    MovedExact(env, stored, ts, {});
    var overlay := StageAll(env, StorageOnly, stored, ts).accounts;
    assert overlay - {} == overlay;
  }

  // Transactions that share no account, and pay no contract, move nothing.
  lemma {:induction false} DisjointMovesNothing(ts: seq<Transaction>, seen: set<PublicKey>)
    requires Disjoint(ts)
    requires forall t | t in ts :: t.payload.Transfer? ==> t.recipient.Wallet?
    requires forall t | t in ts :: Touched(t) !! seen
    ensures Moved(ts, seen) == 0
  {
    if ts != [] {
      var last := |ts| - 1;
      var front, t := ts[..last], ts[last];
      assert t in ts;
      forall u | u in front ensures u in ts && Touched(u) !! seen + Touched(t) {
        var i :| 0 <= i < last && front[i] == u;
        assert Touched(ts[i]) !! Touched(ts[last]);
      }
      DisjointMovesNothing(front, seen + Touched(t));
      assert t.sender in Touched(t);
    }
  }

  // Two payments to one recipient lose the first one.
  lemma SharedRecipientLoses(t: Transaction, u: Transaction, key: PublicKey)
    requires Receives(t, key) && Receives(u, key)
    requires t.sender != u.sender && t.sender != key && u.sender != key
    ensures Moved([t, u], {}) == 0 - t.payload.amount as int
  {
    assert [t, u][..1] == [t] && [t][..0] == [];
    var seen := {} + Touched(u);
    assert Moved([], seen + Touched(t)) == 0;
    assert Moved([t], seen) == MovedBy(t, t.sender);
    assert Moved([t, u], {}) == Moved([t], seen) + MovedBy(u, u.sender) + MovedBy(u, key);
  }

  // ---------- credits ----------

  // A transfer to oneself that reaches its credit, which then leaves the 64-bit range.
  predicate CreditPanics(env: Env, stored: Accounts, t: Transaction) {
    && env.overflowChecks
    && SelfTransfer(t)
    && t.sender in stored
    && Add(env, stored[t.sender].nonce, 1, NextNonce) == Ok(t.nonce)
    && stored[t.sender].WalletAccount?
    && t.payload.amount <= stored[t.sender].balance
    && stored[t.sender].balance + t.payload.amount >= U64_LIMIT
  }

  lemma CreditPanicStep(env: Env, stored: Accounts, overlay: Accounts, t: Transaction)
    requires Supply.Total(stored) < U64_LIMIT
    ensures StageTransaction(env, StorageOnly, stored, overlay, t) == Err(Panic(Credit)) <==> CreditPanics(env, stored, t)
  {
    hide Supply.Total;
    if OtherRecipient(t) && t.payload.amount <= Supply.BalanceAt(stored, t.sender) {
      CreditFits(stored, t.sender, t.recipient.key, t.payload.amount);
    }
  }

  predicate FailsOnCredit(env: Env, mode: Reads, stored: Accounts, ts: seq<Transaction>) {
    var staged := StageAll(env, mode, stored, ts);
    staged.Failed? && staged.error == Panic(Credit)
  }

  // For every block, on balances whose sum fits 64 bits: it fails on a credit if and only if
  // everything before such a transfer is staged.
  lemma CreditPanicExact(env: Env, stored: Accounts, ts: seq<Transaction>)
    requires Supply.Total(stored) < U64_LIMIT
    ensures FailsOnCredit(env, StorageOnly, stored, ts)
       <==> exists k | 0 <= k < |ts| :: StageAll(env, StorageOnly, stored, ts[..k]).Done? && CreditPanics(env, stored, ts[k])
  {
    hide StageTransaction, Supply.Total, CreditPanics;
    if FailsOnCredit(env, StorageOnly, stored, ts) {
      FailurePoint(env, StorageOnly, stored, ts);
      var k := StageAll(env, StorageOnly, stored, ts).position;
      CreditPanicStep(env, stored, StageAll(env, StorageOnly, stored, ts[..k]).accounts, ts[k]);
    }
    if k :| 0 <= k < |ts| && StageAll(env, StorageOnly, stored, ts[..k]).Done? && CreditPanics(env, stored, ts[k]) {
      assert ts[..k + 1][..k] == ts[..k];
      CreditPanicStep(env, stored, StageAll(env, StorageOnly, stored, ts[..k]).accounts, ts[k]);
      StageFailureStays(env, StorageOnly, stored, ts, k + 1);
    }
  }

  // So it never does, in any build, when its transfers to oneself fit.
  lemma CreditsFit(env: Env, stored: Accounts, ts: seq<Transaction>)
    requires Supply.Total(stored) < U64_LIMIT && SelfCreditsFit(stored, ts)
    ensures !FailsOnCredit(env, StorageOnly, stored, ts)
  {
    CreditPanicExact(env, stored, ts);
    hide StageAll, Supply.Total, FailsOnCredit;
    forall k | 0 <= k < |ts| ensures !CreditPanics(env, stored, ts[k]) {
      assert ts[k] in ts;
    }
  }

  // ---------- one transaction by itself ----------

  // A transfer to oneself that the source accepts leaves the nonce as it was, and adds its
  // amount to the supply exactly when it does not wrap around.
  lemma SelfTransferMints(env: Env, stored: Accounts, t: Transaction)
    requires SelfTransfer(t) && StageAll(env, StorageOnly, stored, [t]).Done?
    ensures var after := Committed(env, stored, [t]);
      && t.sender in stored && t.sender in after && after[t.sender].nonce == stored[t.sender].nonce
      && (Supply.Total(after) == Supply.Total(stored) + t.payload.amount
          <==> Supply.BalanceAt(stored, t.sender) + t.payload.amount < U64_LIMIT)
  {
    AloneStaged(env, StorageOnly, stored, t);
    var account, after := stored[t.sender], Committed(env, stored, [t]);
    var balance := Add(env, account.balance, t.payload.amount, Credit).value;
    assert after == stored[t.sender := account.(balance := balance)];
    Supply.TotalPut(stored, t.sender, account.(balance := balance));
  }

  // A payment that the accounts allow; other transactions need no allowance.
  predicate CanPay(env: Env, accounts: Accounts, t: Transaction) {
    t.payload.Transfer? && t.recipient.Wallet? ==>
      && t.sender in accounts && accounts[t.sender].WalletAccount?
      && t.payload.amount <= accounts[t.sender].balance
      && match Get(accounts, t.recipient.key) {
           case None => true
           case Some(a) => a.WalletAccount? && Add(env, a.balance, t.payload.amount, Credit).Ok?
         }
  }

  lemma StagedAlone(env: Env, stored: Accounts, t: Transaction)
    ensures StageAll(env, StorageOnly, stored, [t]).Done?
       <==> && t.sender in stored
            && Add(env, stored[t.sender].nonce, 1, NextNonce) == Ok(t.nonce)
            && CanPay(env, stored, t)
            && (t.payload.Transfer? ==> t.recipient.Wallet?)
            && (t.payload.ContractCall? ==> t.recipient.Contract?)
  {
    AloneStaged(env, StorageOnly, stored, t);
  }

  lemma StagedForm(env: Env, stored: Accounts, overlay: Accounts, t: Transaction)
    requires StageTransaction(env, StorageOnly, stored, overlay, t).Ok?
    ensures t.payload.Transfer? ==> t.recipient.Wallet?
    ensures t.payload.ContractCall? ==> t.recipient.Contract?
  {
  }

  // For every block the source accepts and every transaction in it: alone in the next block it is
  // accepted a second time if and only if the first block keeps none of its sender's sends, and
  // it can be paid.
  lemma ReplayedExact(env: Env, stored: Accounts, ts: seq<Transaction>, i: nat)
    requires StageAll(env, StorageOnly, stored, ts).Done? && i < |ts|
    ensures StageAll(env, StorageOnly, Committed(env, stored, ts), [ts[i]]).Done?
       <==> Kept(ts, ts[i].sender) == 0 && CanPay(env, Committed(env, stored, ts), ts[i])
  {
    hide StageAll, StageTransaction, Kept, CanPay;
    var t, after := ts[i], Committed(env, stored, ts);
    StagedNonce(env, stored, ts, i);
    StagedStep(env, stored, ts, i);
    StagedForm(env, stored, StagedAt(env, stored, ts, i), t);
    KeptReached(env, stored, ts, t.sender);
    KeptAtMostOne(ts, t.sender);
    StagedAlone(env, after, t);
  }

  // A block that also pays a transaction's sender, later on, keeps none of its sends.
  lemma PaidSenderNotKept(t: Transaction, u: Transaction)
    requires Receives(u, t.sender)
    ensures Kept([t, u], t.sender) == 0 && !NoncesKept([t, u])
  {
    var ts := [t, u];
    CountPositive(ts, t.sender, 0);
    hide Nonces.Count;
    assert ts[|ts| - 1] == u && t in ts;
  }

  // A transaction accepted in a block of its own is accepted again if and only if it is a
  // transfer to its own sender, and the sender can pay and be credited once more.
  lemma ReplayExact(env: Env, stored: Accounts, t: Transaction)
    requires StageAll(env, StorageOnly, stored, [t]).Done?
    ensures var after := Committed(env, stored, [t]);
      StageAll(env, StorageOnly, after, [t]).Done?
      <==> && SelfTransfer(t)
           && t.payload.amount <= Supply.BalanceAt(after, t.sender)
           && Add(env, Supply.BalanceAt(after, t.sender), t.payload.amount, Credit).Ok?
  {
  }
}
