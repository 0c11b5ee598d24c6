/** Sender nonces: consecutive from the initial one, so no transaction is applied twice. */
module Nonces {
  import opened Bytes
  import opened Types
  import opened Ledger

  function NonceAt(accounts: Accounts, key: PublicKey): nat {
    if key in accounts then accounts[key].nonce else 0
  }

  // How many of the transactions were sent by key.
  function Count(ts: seq<Transaction>, key: PublicKey): nat {
    if ts == [] then 0
    else Count(ts[..|ts| - 1], key) + if ts[|ts| - 1].sender == key then 1 else 0
  }

  // The nonce reached after n sends from a start: wrapped around, or the plain sum in a build
  // that checks overflow.
  ghost predicate Reached(env: Env, nonce: nat, start: nat, n: nat) {
    && nonce == (start + n) % U64_LIMIT
    && (env.overflowChecks ==> nonce == start + n)
  }

  lemma TransactionNonces(env: Env, accounts: Accounts, t: Transaction, key: PublicKey)
    requires ApplyTransaction(env, accounts, t).Ok?
    ensures Add(env, NonceAt(accounts, t.sender), 1, NextNonce) == Ok(t.nonce)
    ensures NonceAt(ApplyTransaction(env, accounts, t).value, key)
         == if key == t.sender then t.nonce else NonceAt(accounts, key)
  {
  }

  lemma ReachedNext(env: Env, nonce: u64, start: nat, n: nat)
    requires Reached(env, nonce, start, n) && Add(env, nonce, 1, NextNonce).Ok?
    ensures Reached(env, Add(env, nonce, 1, NextNonce).value, start, n + 1)
  {
  }

  // After a list of transactions every account's nonce has advanced by the number it sent.
  lemma {:induction false} NoncesCount(env: Env, accounts: Accounts, ts: seq<Transaction>, key: PublicKey)
    requires ApplyAll(env, accounts, ts).Done?
    ensures Reached(env, NonceAt(ApplyAll(env, accounts, ts).accounts, key), NonceAt(accounts, key), Count(ts, key))
  {
    if ts != [] {
      var front, t := ts[..|ts| - 1], ts[|ts| - 1];
      NoncesCount(env, accounts, front, key);
      var before := ApplyAll(env, accounts, front).accounts;
      TransactionNonces(env, before, t, key);
      if key == t.sender {
        ReachedNext(env, NonceAt(before, key), NonceAt(accounts, key), Count(front, key));
      }
    }
  }

  // The n-th transaction of a sender carries its initial nonce plus n.
  lemma {:induction false} NoncesConsecutive(env: Env, accounts: Accounts, ts: seq<Transaction>, i: nat)
    requires ApplyAll(env, accounts, ts).Done? && i < |ts|
    ensures Reached(env, ts[i].nonce, NonceAt(accounts, ts[i].sender), Count(ts[..i + 1], ts[i].sender))
  {
    var prefix := ts[..i + 1];
    assert prefix[..i] == ts[..i] && prefix[i] == ts[i];
    if ApplyAll(env, accounts, prefix).Failed? {
      ApplyFailureStays(env, accounts, ts, i + 1);
    } else {
      NoncesCount(env, accounts, prefix, ts[i].sender);
      TransactionNonces(env, ApplyAll(env, accounts, ts[..i]).accounts, ts[i], ts[i].sender);
    }
  }

  lemma {:induction false} CountGrows(ts: seq<Transaction>, key: PublicKey, i: nat, j: nat)
    requires i < j <= |ts|
    ensures Count(ts[..i], key) <= Count(ts[..j], key) <= Count(ts[..i], key) + (j - i)
    ensures ts[j - 1].sender == key ==> Count(ts[..i], key) < Count(ts[..j], key)
  {
    assert ts[..j][..j - 1] == ts[..j - 1];
    if i < j - 1 {
      CountGrows(ts, key, i, j - 1);
    }
  }

  // Consecutive nonces of one sender differ; without overflow checks this needs them to be less
  // than 2^64 positions apart.
  lemma ConsecutiveDiffer(env: Env, ts: seq<Transaction>, start: nat, i: nat, j: nat)
    requires i < j < |ts| && ts[i].sender == ts[j].sender
    requires env.overflowChecks || j - i < U64_LIMIT
    requires Reached(env, ts[i].nonce, start, Count(ts[..i + 1], ts[i].sender))
    requires Reached(env, ts[j].nonce, start, Count(ts[..j + 1], ts[i].sender))
    ensures ts[i].nonce != ts[j].nonce
  {
    CountGrows(ts, ts[i].sender, i + 1, j + 1);
    hide Count;
    var m, n := Count(ts[..i + 1], ts[i].sender), Count(ts[..j + 1], ts[i].sender);
    if !env.overflowChecks {
      ShiftedDiffer(start + m, n - m);
    }
  }

  // No transaction is applied twice.
  lemma NoReplay(env: Env, accounts: Accounts, ts: seq<Transaction>, i: nat, j: nat)
    requires ApplyAll(env, accounts, ts).Done?
    requires i < j < |ts| && ts[i].sender == ts[j].sender
    requires env.overflowChecks || j - i < U64_LIMIT
    ensures ts[i].nonce != ts[j].nonce
  {
    NoncesConsecutive(env, accounts, ts, i);
    NoncesConsecutive(env, accounts, ts, j);
    ConsecutiveDiffer(env, ts, NonceAt(accounts, ts[i].sender), i, j);
  }

  lemma {:induction false} CountConcat(xs: seq<Transaction>, ys: seq<Transaction>, key: PublicKey)
    ensures Count(xs + ys, key) == Count(xs, key) + Count(ys, key)
  {
    if ys == [] {
      assert xs + ys == xs;
    } else {
      assert (xs + ys)[..|xs + ys| - 1] == xs + ys[..|ys| - 1];
      CountConcat(xs, ys[..|ys| - 1], key);
    }
  }

  lemma {:induction false} CountBound(ts: seq<Transaction>, key: PublicKey)
    ensures Count(ts, key) <= |ts|
  {
    if ts != [] {
      CountBound(ts[..|ts| - 1], key);
    }
  }

  // Advancing twice is advancing by the sum, and only by it.
  lemma ReachedSum(env: Env, first: u64, second: u64, start: nat, m: nat, n: nat)
    requires Reached(env, first, start, m)
    ensures Reached(env, second, first, n) <==> Reached(env, second, start, m + n)
  {
    var q := (start + m) / U64_LIMIT;
    assert start + m == q * U64_LIMIT + first;
    SameRemainder(first + n, q);
    assert start + (m + n) == (first + n) + q * U64_LIMIT;
  }

  lemma SameRemainder(a: nat, q: nat)
    ensures (a + q * U64_LIMIT) % U64_LIMIT == a % U64_LIMIT
  {
    var r, p := a % U64_LIMIT, a / U64_LIMIT;
    assert a + q * U64_LIMIT == (p + q) * U64_LIMIT + r;
  }

  // A nonce tells the number of sends, below 2^64 or in a build that checks overflow.
  lemma ReachedUnique(env: Env, nonce: nat, start: nat, m: nat, n: nat)
    requires env.overflowChecks || (m < U64_LIMIT && n < U64_LIMIT)
    requires Reached(env, nonce, start, m) && Reached(env, nonce, start, n)
    ensures m == n
  {
    if env.overflowChecks {
    } else if m < n {
      ShiftedDiffer(start + m, n - m);
    } else if n < m {
      ShiftedDiffer(start + n, m - n);
    }
  }

  lemma ShiftedDiffer(a: nat, d: nat)
    requires 0 < d < U64_LIMIT
    ensures a % U64_LIMIT != (a + d) % U64_LIMIT
  {
    var q, r := a / U64_LIMIT, a % U64_LIMIT;
    assert a == q * U64_LIMIT + r;
    if r + d < U64_LIMIT {
      assert (a + d) % U64_LIMIT == r + d;
    } else {
      assert a + d == (q + 1) * U64_LIMIT + (r + d - U64_LIMIT);
      assert (a + d) % U64_LIMIT == r + d - U64_LIMIT;
    }
  }
}
