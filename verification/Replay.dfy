/** Replay over runs: with the source's own reads, exactly when two committed transactions of one
    sender carry the same nonce, and exactly when none do. */
module Replay {
  import opened Bytes
  import opened Types
  import opened Hashing
  import opened Ledger
  import opened Chain
  import opened Consensus
  import CodeReads
  import Nonces
  import Staleness

  // ---------- what a run keeps of a sender's transactions ----------

  // The sends of an account that its nonce counts after the blocks, at most one for each.
  function KeptSum(bs: seq<Block>, key: PublicKey): nat {
    if bs == [] then 0
    else KeptSum(bs[..|bs| - 1], key) + CodeReads.Kept(bs[|bs| - 1].transactions, key)
  }

  predicate KeepsNone(bs: seq<Block>, key: PublicKey, k: nat, l: nat)
    requires l <= |bs|
  {
    forall m | k <= m < l :: CodeReads.Kept(bs[m].transactions, key) == 0
  }

  lemma {:induction false} KeptSumGrows(bs: seq<Block>, key: PublicKey, k: nat, l: nat)
    requires k <= l <= |bs|
    ensures KeptSum(bs[..k], key) <= KeptSum(bs[..l], key) <= KeptSum(bs[..k], key) + (l - k)
    ensures KeptSum(bs[..k], key) == KeptSum(bs[..l], key) <==> KeepsNone(bs, key, k, l)
  {
    if k < l {
      assert bs[..l][..l - 1] == bs[..l - 1];
      KeptSumGrows(bs, key, k, l - 1);
      CodeReads.KeptAtMostOne(bs[l - 1].transactions, key);
    }
  }

  lemma NothingCommitted(env: Env, accounts: Accounts, key: PublicKey)
    ensures RunAll(env, StorageOnly, accounts, []).applied == [] && Nonces.Count(Flatten([]), key) == 0
  {
    hide BlockHash;
  }

  lemma KeptSumBound(bs: seq<Block>, key: PublicKey, k: nat)
    requires k <= |bs|
    ensures KeptSum(bs[..k], key) <= k
  {
    KeptSumGrows(bs, key, 0, k);
    assert bs[..0] == [];
  }

  lemma SumsDecide(env: Env, start: nat, a: u64, b: u64, m: nat, n: nat)
    requires Nonces.Reached(env, a, start, m) && Nonces.Reached(env, b, start, n)
    requires env.overflowChecks || (m < U64_LIMIT && n < U64_LIMIT)
    ensures a == b <==> m == n
  {
    if a == b {
      Nonces.ReachedUnique(env, a, start, m, n);
    }
  }

  lemma {:induction false} RunKept(env: Env, accounts: Accounts, attempts: seq<Block>, key: PublicKey)
    ensures var r := RunAll(env, StorageOnly, accounts, attempts);
      Nonces.Reached(env, Nonces.NonceAt(r.store.accounts, key), Nonces.NonceAt(accounts, key), KeptSum(r.applied, key))
  {
    hide Attempt, Flatten, StageAll, CodeReads.Kept, Nonces.Reached;
    if attempts == [] {
      StartNonce(env, StorageOnly, accounts, key);
      NothingCommitted(env, accounts, key);
    } else {
      var last := |attempts| - 1;
      var before, after := RunAll(env, StorageOnly, accounts, attempts[..last]), RunAll(env, StorageOnly, accounts, attempts);
      var b := attempts[last];
      RunKept(env, accounts, attempts[..last], key);
      AttemptAccounts(env, StorageOnly, before, b);
      if after.applied != before.applied {
        assert after.applied[..|after.applied| - 1] == before.applied;
        CodeReads.KeptReached(env, before.store.accounts, b.transactions, key);
        Nonces.ReachedSum(env, Nonces.NonceAt(before.store.accounts, key), Nonces.NonceAt(after.store.accounts, key),
                          Nonces.NonceAt(accounts, key), KeptSum(before.applied, key), CodeReads.Kept(b.transactions, key));
      }
    }
  }

  predicate IsSend(bs: seq<Block>, k: nat, p: nat) {
    k < |bs| && p < |bs[k].transactions|
  }

  function SendAt(bs: seq<Block>, k: nat, p: nat): Transaction
    requires IsSend(bs, k, p)
  {
    bs[k].transactions[p]
  }

  // Every committed transaction carries the nonce after what the blocks before its own keep of
  // its sender's transactions.
  lemma {:induction false} SendNonce(env: Env, accounts: Accounts, attempts: seq<Block>, k: nat, p: nat)
    requires IsSend(RunAll(env, StorageOnly, accounts, attempts).applied, k, p)
    ensures var bs := RunAll(env, StorageOnly, accounts, attempts).applied;
      var t := SendAt(bs, k, p);
      Nonces.Reached(env, t.nonce, Nonces.NonceAt(accounts, t.sender), KeptSum(bs[..k], t.sender) + 1)
  {
    hide Attempt, Flatten, StageAll, CodeReads.Kept, Nonces.Reached, KeptSum;
    if attempts != [] {
      var last := |attempts| - 1;
      var before, after := RunAll(env, StorageOnly, accounts, attempts[..last]), RunAll(env, StorageOnly, accounts, attempts);
      var b := attempts[last];
      AttemptAccounts(env, StorageOnly, before, b);
      hide RunAll;
      if k < |before.applied| {
        assert after.applied[..k] == before.applied[..k] && after.applied[k] == before.applied[k];
        SendNonce(env, accounts, attempts[..last], k, p);
      } else {
        assert after.applied[..k] == before.applied;
        var t := b.transactions[p];
        RunKept(env, accounts, attempts[..last], t.sender);
        Staleness.StagedNonce(env, before.store.accounts, b.transactions, p);
        Nonces.ReachedNext(env, Nonces.NonceAt(before.store.accounts, t.sender), Nonces.NonceAt(accounts, t.sender),
                           KeptSum(before.applied, t.sender));
      }
    }
  }

  // ---------- two transactions with one nonce ----------

  // Two different committed transactions of one sender, the first one not in a later block.
  predicate SameSender(bs: seq<Block>, k: nat, p: nat, l: nat, q: nat) {
    && IsSend(bs, k, p) && IsSend(bs, l, q)
    && (k < l || (k == l && p != q))
    && SendAt(bs, k, p).sender == SendAt(bs, l, q).sender
  }

  lemma SumsShared(env: Env, bs: seq<Block>, start: nat, k: nat, p: nat, l: nat, q: nat)
    requires SameSender(bs, k, p, l, q)
    requires env.overflowChecks || |bs| + 1 < U64_LIMIT
    requires var t, u := SendAt(bs, k, p), SendAt(bs, l, q);
      && Nonces.Reached(env, t.nonce, start, KeptSum(bs[..k], t.sender) + 1)
      && Nonces.Reached(env, u.nonce, start, KeptSum(bs[..l], t.sender) + 1)
    ensures SendAt(bs, k, p).nonce == SendAt(bs, l, q).nonce <==> KeepsNone(bs, SendAt(bs, k, p).sender, k, l)
  {
    hide Nonces.Reached, KeepsNone, KeptSum;
    var t, u := SendAt(bs, k, p), SendAt(bs, l, q);
    KeptSumGrows(bs, t.sender, k, l);
    KeptSumBound(bs, t.sender, k);
    KeptSumBound(bs, t.sender, l);
    SumsDecide(env, start, t.nonce, u.nonce, KeptSum(bs[..k], t.sender) + 1, KeptSum(bs[..l], t.sender) + 1);
  }

  // For every run of the code's own reads: two committed transactions of a sender carry the same
  // nonce if and only if the blocks from the first one's up to the second one's keep none of
  // that sender's.
  lemma SharedNonceExact(env: Env, accounts: Accounts, attempts: seq<Block>, k: nat, p: nat, l: nat, q: nat)
    requires SameSender(RunAll(env, StorageOnly, accounts, attempts).applied, k, p, l, q)
    requires env.overflowChecks || |RunAll(env, StorageOnly, accounts, attempts).applied| + 1 < U64_LIMIT
    ensures var bs := RunAll(env, StorageOnly, accounts, attempts).applied;
      SendAt(bs, k, p).nonce == SendAt(bs, l, q).nonce <==> KeepsNone(bs, SendAt(bs, k, p).sender, k, l)
  {
    hide RunAll, Nonces.Reached, KeepsNone, Nonces.NonceAt, KeptSum;
    var bs := RunAll(env, StorageOnly, accounts, attempts).applied;
    SendNonce(env, accounts, attempts, k, p);
    SendNonce(env, accounts, attempts, l, q);
    SumsShared(env, bs, Nonces.NonceAt(accounts, SendAt(bs, k, p).sender), k, p, l, q);
  }

  // A sender that sends again has sent in an earlier block only, and that block keeps the send.
  ghost predicate Unrepeated(bs: seq<Block>) {
    forall k: nat, p: nat, l: nat, q: nat | SameSender(bs, k, p, l, q) ::
      k < l && CodeReads.Kept(bs[k].transactions, SendAt(bs, k, p).sender) == 1
  }

  lemma NoSends(bs: seq<Block>, key: PublicKey, k: nat)
    requires k < |bs| && forall p: nat | IsSend(bs, k, p) :: SendAt(bs, k, p).sender != key
    ensures Nonces.Count(bs[k].transactions, key) == 0 && CodeReads.Kept(bs[k].transactions, key) == 0
  {
    forall t | t in bs[k].transactions ensures t.sender != key {
      var p :| 0 <= p < |bs[k].transactions| && bs[k].transactions[p] == t;
      assert IsSend(bs, k, p) && SendAt(bs, k, p) == t;
    }
    CodeReads.NotASender(bs[k].transactions, key);
  }

  // The next block in which a sender sends again.
  lemma NextSend(bs: seq<Block>, key: PublicKey, k: nat, l: nat, q: nat) returns (m: nat, r: nat)
    requires k < l && IsSend(bs, l, q) && SendAt(bs, l, q).sender == key
    ensures k < m <= l && IsSend(bs, m, r) && SendAt(bs, m, r).sender == key
    ensures KeepsNone(bs, key, k + 1, m)
    decreases l - k
  {
    m := k + 1;
    if p: nat :| IsSend(bs, m, p) && SendAt(bs, m, p).sender == key {
      r := p;
    } else {
      NoSends(bs, key, m);
      m, r := NextSend(bs, key, k + 1, l, q);
    }
  }

  // Repetition is a matter of the kept sums alone.
  lemma UnrepeatedSums(bs: seq<Block>)
    ensures Unrepeated(bs)
       <==> forall k: nat, p: nat, l: nat, q: nat | SameSender(bs, k, p, l, q) ::
              KeptSum(bs[..k], SendAt(bs, k, p).sender) != KeptSum(bs[..l], SendAt(bs, k, p).sender)
  {
    hide KeptSum, CodeReads.Kept;
    if Unrepeated(bs) {
      forall k: nat, p: nat, l: nat, q: nat | SameSender(bs, k, p, l, q)
        ensures KeptSum(bs[..k], SendAt(bs, k, p).sender) != KeptSum(bs[..l], SendAt(bs, k, p).sender)
      {
        KeptSumGrows(bs, SendAt(bs, k, p).sender, k, l);
      }
    }
    if forall k: nat, p: nat, l: nat, q: nat | SameSender(bs, k, p, l, q) ::
         KeptSum(bs[..k], SendAt(bs, k, p).sender) != KeptSum(bs[..l], SendAt(bs, k, p).sender)
    {
      forall k: nat, p: nat, l: nat, q: nat | SameSender(bs, k, p, l, q)
        ensures k < l && CodeReads.Kept(bs[k].transactions, SendAt(bs, k, p).sender) == 1
      {
        var key := SendAt(bs, k, p).sender;
        CodeReads.KeptAtMostOne(bs[k].transactions, key);
        if CodeReads.Kept(bs[k].transactions, key) == 0 {
          var m, r := NextSend(bs, key, k, l, q);
          assert SameSender(bs, k, p, m, r);
          KeptSumGrows(bs, key, k, m);
        }
      }
    }
  }

  // For every run of the code's own reads: no two committed transactions of a sender carry the
  // same nonce if and only if every sender that sends again does so in a later block than the
  // one before, and that one keeps its send.
  lemma RunNoReplayExact(env: Env, accounts: Accounts, attempts: seq<Block>)
    requires env.overflowChecks || |RunAll(env, StorageOnly, accounts, attempts).applied| + 1 < U64_LIMIT
    ensures var bs := RunAll(env, StorageOnly, accounts, attempts).applied;
      (forall k: nat, p: nat, l: nat, q: nat | SameSender(bs, k, p, l, q) ::
         SendAt(bs, k, p).nonce != SendAt(bs, l, q).nonce)
      <==> Unrepeated(bs)
  {
    hide RunAll, Unrepeated, KeptSum;
    var bs := RunAll(env, StorageOnly, accounts, attempts).applied;
    UnrepeatedSums(bs);
    forall k: nat, p: nat, l: nat, q: nat | SameSender(bs, k, p, l, q)
      ensures SendAt(bs, k, p).nonce == SendAt(bs, l, q).nonce
         <==> KeptSum(bs[..k], SendAt(bs, k, p).sender) == KeptSum(bs[..l], SendAt(bs, k, p).sender)
    {
      SharedNonceExact(env, accounts, attempts, k, p, l, q);
      KeptSumGrows(bs, SendAt(bs, k, p).sender, k, l);
    }
  }

  // ---------- consecutive nonces ----------

  // The transactions of a run up to one of them.
  function UpTo(bs: seq<Block>, k: nat, p: nat): seq<Transaction>
    requires IsSend(bs, k, p)
  {
    Flatten(bs[..k]) + bs[k].transactions[..p + 1]
  }

  lemma {:induction false} Locate(bs: seq<Block>, i: nat) returns (k: nat, p: nat)
    requires i < |Flatten(bs)|
    ensures IsSend(bs, k, p) && SendAt(bs, k, p) == Flatten(bs)[i] && UpTo(bs, k, p) == Flatten(bs)[..i + 1]
  {
    var last := |bs| - 1;
    var past, ts := Flatten(bs[..last]), bs[last].transactions;
    if i < |past| {
      k, p := Locate(bs[..last], i);
      assert bs[..last][..k] == bs[..k];
    } else {
      k, p := last, i - |past|;
      assert (past + ts)[..i + 1] == past + ts[..p + 1];
    }
  }

  lemma {:induction false} Position(bs: seq<Block>, k: nat, p: nat) returns (i: nat)
    requires IsSend(bs, k, p)
    ensures i == |UpTo(bs, k, p)| - 1 && i < |Flatten(bs)|
    ensures Flatten(bs)[i] == SendAt(bs, k, p) && Flatten(bs)[..i + 1] == UpTo(bs, k, p)
  {
    var last := |bs| - 1;
    var past, ts := Flatten(bs[..last]), bs[last].transactions;
    if k < last {
      i := Position(bs[..last], k, p);
      assert bs[..last][..k] == bs[..k];
    } else {
      i := |past| + p;
      assert (past + ts)[..i + 1] == past + ts[..p + 1];
    }
  }

  lemma {:induction false} FlattenGrows(bs: seq<Block>, k: nat, l: nat)
    requires k <= l <= |bs|
    ensures |Flatten(bs[..k])| <= |Flatten(bs[..l])|
  {
    if k < l {
      assert bs[..l][..l - 1] == bs[..l - 1];
      FlattenGrows(bs, k, l - 1);
    }
  }

  lemma EarlierPosition(bs: seq<Block>, k: nat, p: nat, l: nat, q: nat)
    requires IsSend(bs, k, p) && IsSend(bs, l, q) && (k < l || (k == l && p < q))
    ensures |UpTo(bs, k, p)| < |UpTo(bs, l, q)|
  {
    if k < l {
      FlattenGrows(bs, k + 1, l);
      assert bs[..k + 1][..k] == bs[..k];
    }
  }

  lemma TwoSends(ts: seq<Transaction>, key: PublicKey) returns (i: nat, j: nat)
    requires Nonces.Count(ts, key) >= 2
    ensures i < j < |ts| && ts[i].sender == key && ts[j].sender == key
  {
    j := Staleness.SecondSend(ts, key);
    var front := ts[..j];
    assert ts[..j + 1][..j] == front;
    if t :| t in front && t.sender == key {
      i :| 0 <= i < |front| && front[i] == t;
    } else {
      CodeReads.NotASender(front, key);
    }
  }

  lemma TwoSendsRepeat(bs: seq<Block>, key: PublicKey, k: nat)
    requires k < |bs| && Nonces.Count(bs[k].transactions, key) >= 2
    ensures !Unrepeated(bs)
  {
    var i, j := TwoSends(bs[k].transactions, key);
    assert SameSender(bs, k, i, k, j);
  }

  // In an unrepeated run a block before another send of an account keeps all it sent.
  lemma BlockCountIsKept(bs: seq<Block>, key: PublicKey, m: nat, l: nat, q: nat)
    requires Unrepeated(bs) && m < l && IsSend(bs, l, q) && SendAt(bs, l, q).sender == key
    ensures Nonces.Count(bs[m].transactions, key) == CodeReads.Kept(bs[m].transactions, key)
  {
    hide CodeReads.Kept, Nonces.Count;
    var ts := bs[m].transactions;
    if p: nat :| IsSend(bs, m, p) && SendAt(bs, m, p).sender == key {
      assert SameSender(bs, m, p, l, q);
      Staleness.CountPositive(ts, key, p);
      if Nonces.Count(ts, key) >= 2 {
        TwoSendsRepeat(bs, key, m);
      }
    } else {
      NoSends(bs, key, m);
    }
  }

  lemma {:induction false} CountsAreKept(bs: seq<Block>, key: PublicKey, n: nat, l: nat, q: nat)
    requires Unrepeated(bs) && n <= l && IsSend(bs, l, q) && SendAt(bs, l, q).sender == key
    ensures Nonces.Count(Flatten(bs[..n]), key) == KeptSum(bs[..n], key)
  {
    hide Unrepeated, CodeReads.Kept;
    if n > 0 {
      assert bs[..n][..n - 1] == bs[..n - 1];
      CountsAreKept(bs, key, n - 1, l, q);
      BlockCountIsKept(bs, key, n - 1, l, q);
      Nonces.CountConcat(Flatten(bs[..n - 1]), bs[n - 1].transactions, key);
    }
  }

  lemma CountUpTo(bs: seq<Block>, k: nat, p: nat)
    requires Unrepeated(bs) && IsSend(bs, k, p)
    ensures var key := SendAt(bs, k, p).sender;
      Nonces.Count(UpTo(bs, k, p), key) == KeptSum(bs[..k], key) + 1
  {
    hide CodeReads.Kept, KeptSum, Nonces.Count, Flatten;
    var key, ts := SendAt(bs, k, p).sender, bs[k].transactions[..p + 1];
    CountsAreKept(bs, key, k, k, p);
    Nonces.CountConcat(Flatten(bs[..k]), ts, key);
    Staleness.CountPositive(ts, key, p);
    var all := bs[k].transactions;
    assert all[..|all|] == all;
    if p + 1 < |all| {
      Nonces.CountGrows(all, key, p + 1, |all|);
    }
    if Nonces.Count(all, key) >= 2 {
      TwoSendsRepeat(bs, key, k);
    }
  }

  // The i-th transaction carries its sender's initial nonce plus the number of its transactions
  // so far.
  ghost predicate Consecutive(env: Env, accounts: Accounts, ts: seq<Transaction>, i: nat)
    requires i < |ts|
  {
    Nonces.Reached(env, ts[i].nonce, Nonces.NonceAt(accounts, ts[i].sender), Nonces.Count(ts[..i + 1], ts[i].sender))
  }

  ghost predicate AllConsecutive(env: Env, accounts: Accounts, ts: seq<Transaction>) {
    forall i | 0 <= i < |ts| :: Consecutive(env, accounts, ts, i)
  }

  // The committed transactions of each sender carry consecutive nonces.
  lemma RunConsecutive(env: Env, mode: Reads, accounts: Accounts, attempts: seq<Block>, i: nat)
    requires mode.ReadThrough? || Unrepeated(RunAll(env, mode, accounts, attempts).applied)
    requires i < |Flatten(RunAll(env, mode, accounts, attempts).applied)|
    ensures Consecutive(env, accounts, Flatten(RunAll(env, mode, accounts, attempts).applied), i)
  {
    hide RunAll, Unrepeated;
    var bs := RunAll(env, mode, accounts, attempts).applied;
    if mode.ReadThrough? {
      RunIsLedger(env, mode, accounts, attempts);
      Nonces.NoncesConsecutive(env, accounts, Flatten(bs), i);
    } else {
      var k, p := Locate(bs, i);
      SendNonce(env, accounts, attempts, k, p);
      CountUpTo(bs, k, p);
    }
  }

  // No replay: no two committed transactions of a sender carry the same nonce.
  lemma RunNoReplay(env: Env, mode: Reads, accounts: Accounts, attempts: seq<Block>, i: nat, j: nat)
    requires mode.ReadThrough? || Unrepeated(RunAll(env, mode, accounts, attempts).applied)
    requires var ts := Flatten(RunAll(env, mode, accounts, attempts).applied);
      i < j < |ts| && ts[i].sender == ts[j].sender
    requires env.overflowChecks || j - i < U64_LIMIT
    ensures var ts := Flatten(RunAll(env, mode, accounts, attempts).applied);
      ts[i].nonce != ts[j].nonce && Consecutive(env, accounts, ts, i)
  {
    var ts := Flatten(RunAll(env, mode, accounts, attempts).applied);
    hide RunAll, Unrepeated, Flatten;
    RunConsecutive(env, mode, accounts, attempts, i);
    RunConsecutive(env, mode, accounts, attempts, j);
    Nonces.ConsecutiveDiffer(env, ts, Nonces.NonceAt(accounts, ts[i].sender), i, j);
  }

  // With consecutive nonces the kept sums count the transactions.
  lemma ConsecutiveSums(env: Env, accounts: Accounts, attempts: seq<Block>, k: nat, p: nat)
    requires IsSend(RunAll(env, StorageOnly, accounts, attempts).applied, k, p)
    requires env.overflowChecks || |Flatten(RunAll(env, StorageOnly, accounts, attempts).applied)| < U64_LIMIT
    requires env.overflowChecks || |RunAll(env, StorageOnly, accounts, attempts).applied| + 1 < U64_LIMIT
    requires AllConsecutive(env, accounts, Flatten(RunAll(env, StorageOnly, accounts, attempts).applied))
    ensures var bs := RunAll(env, StorageOnly, accounts, attempts).applied;
      var key := SendAt(bs, k, p).sender;
      Nonces.Count(UpTo(bs, k, p), key) == KeptSum(bs[..k], key) + 1
  {
    hide RunAll, Flatten, KeptSum, Nonces.Count, UpTo, Nonces.Reached, Nonces.NonceAt;
    var bs := RunAll(env, StorageOnly, accounts, attempts).applied;
    var t := SendAt(bs, k, p);
    var i := Position(bs, k, p);
    assert Consecutive(env, accounts, Flatten(bs), i);
    SendNonce(env, accounts, attempts, k, p);
    Nonces.CountBound(UpTo(bs, k, p), t.sender);
    KeptSumBound(bs, t.sender, k);
    Nonces.ReachedUnique(env, t.nonce, Nonces.NonceAt(accounts, t.sender), Nonces.Count(UpTo(bs, k, p), t.sender),
                         KeptSum(bs[..k], t.sender) + 1);
  }

  lemma CountsDiffer(bs: seq<Block>, k: nat, p: nat, l: nat, q: nat)
    requires SameSender(bs, k, p, l, q)
    ensures var key := SendAt(bs, k, p).sender;
      Nonces.Count(UpTo(bs, k, p), key) != Nonces.Count(UpTo(bs, l, q), key)
  {
    hide Nonces.Count, UpTo, Flatten;
    var key := SendAt(bs, k, p).sender;
    var i := Position(bs, k, p);
    var j := Position(bs, l, q);
    var ts := Flatten(bs);
    if k < l || p < q {
      EarlierPosition(bs, k, p, l, q);
      Nonces.CountGrows(ts, key, i + 1, j + 1);
    } else {
      EarlierPosition(bs, l, q, k, p);
      Nonces.CountGrows(ts, key, j + 1, i + 1);
    }
  }

  lemma ConsecutiveUnrepeated(env: Env, accounts: Accounts, attempts: seq<Block>)
    requires env.overflowChecks || |Flatten(RunAll(env, StorageOnly, accounts, attempts).applied)| < U64_LIMIT
    requires env.overflowChecks || |RunAll(env, StorageOnly, accounts, attempts).applied| + 1 < U64_LIMIT
    requires AllConsecutive(env, accounts, Flatten(RunAll(env, StorageOnly, accounts, attempts).applied))
    ensures Unrepeated(RunAll(env, StorageOnly, accounts, attempts).applied)
  {
    hide RunAll, Unrepeated, Flatten, KeptSum, Nonces.Count, AllConsecutive, UpTo;
    var bs := RunAll(env, StorageOnly, accounts, attempts).applied;
    forall k: nat, p: nat, l: nat, q: nat | SameSender(bs, k, p, l, q)
      ensures KeptSum(bs[..k], SendAt(bs, k, p).sender) != KeptSum(bs[..l], SendAt(bs, k, p).sender)
    {
      ConsecutiveSums(env, accounts, attempts, k, p);
      ConsecutiveSums(env, accounts, attempts, l, q);
      CountsDiffer(bs, k, p, l, q);
    }
    UnrepeatedSums(bs);
  }

  // For every run of the code's own reads: the nonces are consecutive on exactly the runs without
  // replay.
  lemma RunConsecutiveExact(env: Env, accounts: Accounts, attempts: seq<Block>)
    requires env.overflowChecks || |Flatten(RunAll(env, StorageOnly, accounts, attempts).applied)| < U64_LIMIT
    requires env.overflowChecks || |RunAll(env, StorageOnly, accounts, attempts).applied| + 1 < U64_LIMIT
    ensures var bs := RunAll(env, StorageOnly, accounts, attempts).applied;
      AllConsecutive(env, accounts, Flatten(bs)) <==> Unrepeated(bs)
  {
    hide RunAll, Unrepeated, Flatten, Consecutive;
    var bs := RunAll(env, StorageOnly, accounts, attempts).applied;
    if Unrepeated(bs) {
      forall i | 0 <= i < |Flatten(bs)| ensures Consecutive(env, accounts, Flatten(bs), i) {
        RunConsecutive(env, StorageOnly, accounts, attempts, i);
      }
    }
    if AllConsecutive(env, accounts, Flatten(bs)) {
      ConsecutiveUnrepeated(env, accounts, attempts);
    }
  }

  // Blocks that keep all nonces make such a run, and they are not the only ones.
  lemma KeptIsUnrepeated(bs: seq<Block>)
    requires forall b | b in bs :: CodeReads.NoncesKept(b.transactions)
    ensures Unrepeated(bs)
  {
    hide CodeReads.Kept, Nonces.Count;
    forall k: nat, p: nat, l: nat, q: nat | SameSender(bs, k, p, l, q)
      ensures k < l && CodeReads.Kept(bs[k].transactions, SendAt(bs, k, p).sender) == 1
    {
      var ts, key := bs[k].transactions, SendAt(bs, k, p).sender;
      assert bs[k] in bs && SendAt(bs, k, p) in ts;
      CodeReads.KeptAtMostOne(ts, key);
      Staleness.CountPositive(ts, key, p);
      if k == l {
        Staleness.CountTwo(ts, key, if p < q then p else q, if p < q then q else p);
      }
    }
  }

  // ---------- one signed transaction, committed twice ----------

  // On a head that can be followed a pool that verifies and can be staged is committed as a block.
  lemma Produce(env: Env, mode: Reads, r: Run, pool: seq<Transaction>) returns (b: Block)
    requires Invariant(env, r) && |r.applied| + 1 < U64_LIMIT
    requires r.store.blocks[r.state.latestHash].timestamp + 1 < U64_LIMIT
    requires pool != [] && forall t | t in pool :: VerifySignature(env, t)
    requires StageAll(env, mode, r.store.accounts, pool).Done?
    ensures var next := Attempt(env, mode, r, b);
      && b.transactions == pool
      && next.applied == r.applied + [b]
      && next.store.accounts == r.store.accounts + StageAll(env, mode, r.store.accounts, pool).accounts
      && Invariant(env, next)
      && next.store.blocks[next.state.latestHash].timestamp == r.store.blocks[r.state.latestHash].timestamp + 1
  {
    hide ValidateBlock, Linked, VerifySignature, BlockHash, Genesis, Indexed, Hashed, Chain.Verified, StageAll, CodeAfter;
    HeadIndex(env, r);
    GeneratedValidates(env, r, pool);
    b := GenerateBlock(env, pool, r.store.blocks[r.state.latestHash]).value;
    AttemptKeepsInvariant(env, mode, r, b);
  }

  // Two blocks: a pays b while c pays a, and then the same payment of a once more. After the
  // first block a has its old nonce, so with the code's reads one signed transaction is committed
  // twice; b ends with two coins out of the two there were, and a with one.
  lemma CommittedTwice(env: Env, a: PublicKey, b: PublicKey, c: PublicKey, n: u64, m: u64, t: Transaction, u: Transaction)
    returns (first: Block, second: Block)
    requires a != b && b != c && c != a && n + 1 < U64_LIMIT && m + 1 < U64_LIMIT
    requires t.sender == a && t.recipient == Wallet(b) && t.payload == Transfer(1) && t.nonce == n + 1
    requires u.sender == c && u.recipient == Wallet(a) && u.payload == Transfer(1) && u.nonce == m + 1
    requires VerifySignature(env, t) && VerifySignature(env, u)
    ensures var accounts := map[a := WalletAccount(1, n), c := WalletAccount(1, m)];
      var r := RunAll(env, StorageOnly, accounts, [first, second]);
      && r.applied == [first, second] && first.transactions == [t, u] && second.transactions == [t]
      && r.store.accounts == map[a := WalletAccount(1, n + 1), b := WalletAccount(2, 0), c := WalletAccount(0, m + 1)]
  {
    hide VerifySignature, Attempt, BlockHash, Invariant;
    var accounts: Accounts := map[a := WalletAccount(1, n), c := WalletAccount(1, m)];
    var start := Start(env, accounts);
    StartInvariant(env, accounts);
    StagedTwice(env, a, b, c, n, m, t, u);
    assert start.store.accounts == accounts && start.applied == [] && start.store.blocks[start.state.latestHash].timestamp == 0;
    hide Start, StageAll, StageTransaction;
    first := Produce(env, StorageOnly, start, [t, u]);
    var next := Attempt(env, StorageOnly, start, first);
    second := Produce(env, StorageOnly, next, [t]);
    assert [first, second][..1] == [first] && [first][..0] == [];
    assert RunAll(env, StorageOnly, accounts, []) == start;
    assert RunAll(env, StorageOnly, accounts, [first]) == next;
  }

  lemma StagedTwice(env: Env, a: PublicKey, b: PublicKey, c: PublicKey, n: u64, m: u64, t: Transaction, u: Transaction)
    requires a != b && b != c && c != a && n + 1 < U64_LIMIT && m + 1 < U64_LIMIT
    requires t.sender == a && t.recipient == Wallet(b) && t.payload == Transfer(1) && t.nonce == n + 1
    requires u.sender == c && u.recipient == Wallet(a) && u.payload == Transfer(1) && u.nonce == m + 1
    ensures var accounts := map[a := WalletAccount(1, n), c := WalletAccount(1, m)];
      var once := StageAll(env, StorageOnly, accounts, [t, u]);
      && once.Done?
      && var after := accounts + once.accounts;
         var twice := StageAll(env, StorageOnly, after, [t]);
         && twice.Done?
         && after + twice.accounts
              == map[a := WalletAccount(1, n + 1), b := WalletAccount(2, 0), c := WalletAccount(0, m + 1)]
  {
    var accounts: Accounts := map[a := WalletAccount(1, n), c := WalletAccount(1, m)];
    AloneStaged(env, StorageOnly, accounts, t);
    assert [t, u][..1] == [t];
    var after: Accounts := map[a := WalletAccount(2, n), b := WalletAccount(1, 0), c := WalletAccount(0, m + 1)];
    assert accounts + StageAll(env, StorageOnly, accounts, [t, u]).accounts == after;
    AloneStaged(env, StorageOnly, after, t);
  }
}
