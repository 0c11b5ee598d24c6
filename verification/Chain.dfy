/** Runs of the chain from genesis: blocks are attempted one after the other, and each is
    committed or rejected. */
module Chain {
  import opened Bytes
  import opened Types
  import opened Hashing
  import opened Ledger
  import Overlay
  import Staleness
  import Supply
  import Nonces
  import CodeReads

  // The stored state, the chain state held in memory, and the blocks committed so far.
  datatype Run = Run(store: Store, state: ChainState, applied: seq<Block>)

  function Start(env: Env, accounts: Accounts): Run {
    Run(InitializeChain(env, Store(accounts, map[], map[], map[], None, {})), InitialChainState(env), [])
  }

  // Validate, apply, and store the block: the next validation looks it up by its hash.
  function Attempt(env: Env, mode: Reads, r: Run, b: Block): Run {
    if ValidateBlock(env, r.store.blocks, b, r.state).Err? then r
    else
      var (result, store, state) := ApplyBlock(env, mode, r.store, b, r.state);
      if result.Err? then Run(store, state, r.applied)
      else Run(PutBlock(store, b), state, r.applied + [b])
  }

  function RunAll(env: Env, mode: Reads, accounts: Accounts, attempts: seq<Block>): Run {
    if attempts == [] then Start(env, accounts)
    else
      var last := |attempts| - 1;
      Attempt(env, mode, RunAll(env, mode, accounts, attempts[..last]), attempts[last])
  }

  lemma ValidatesWhen(env: Env, blocks: map<Hash, Block>, b: Block, state: ChainState)
    requires state.latestIndex + 1 < U64_LIMIT
    ensures ValidateBlock(env, blocks, b, state).Ok?
       <==> && b.index == state.latestIndex + 1
            && b.prevHash == state.latestHash
            && b.hash == BlockHash(env, b)
            && b.prevHash in blocks
            && blocks[b.prevHash].timestamp < b.timestamp
            && forall t | t in b.transactions :: VerifySignature(env, t)
  {
    SignaturesChecked(env, b.transactions);
  }

  // ---------- the chain invariant ----------

  // Blocks from genesis on, each at its height, linked by hash, with increasing timestamps.
  ghost predicate Linked(env: Env, chain: seq<Block>) {
    && chain != []
    && chain[0] == Genesis(env)
    && (forall i | 0 <= i < |chain| :: chain[i].index == i && chain[i].hash == BlockHash(env, chain[i]))
    && (forall i | 0 < i < |chain| ::
          chain[i].prevHash == chain[i - 1].hash && chain[i - 1].timestamp < chain[i].timestamp)
  }

  ghost predicate Indexed(chain: seq<Block>, heights: map<u64, Block>) {
    forall h: u64 :: (h in heights <==> h < |chain|) && (h in heights ==> heights[h] == chain[h])
  }

  ghost predicate Hashed(chain: seq<Block>, blocks: map<Hash, Block>) {
    && (forall h | h in blocks :: blocks[h] in chain && blocks[h].hash == h)
    && (forall b | b in chain :: b.hash in blocks)
  }

  // The chain state names the last block, which is found under its hash.
  ghost predicate HeadNamed(chain: seq<Block>, store: Store, state: ChainState)
    requires chain != []
  {
    var head := chain[|chain| - 1];
    && store.chainState == Some(state)
    && state.latestHash == head.hash
    && state.latestIndex == head.index
    && head.hash in store.blocks
    && store.blocks[head.hash] == head
  }

  ghost predicate Verified(env: Env, applied: seq<Block>) {
    forall b | b in applied :: forall t | t in b.transactions :: VerifySignature(env, t)
  }

  function ChainOf(env: Env, r: Run): (chain: seq<Block>)
    ensures |chain| == |r.applied| + 1
  {
    [Genesis(env)] + r.applied
  }

  ghost predicate Invariant(env: Env, r: Run) {
    && Linked(env, ChainOf(env, r))
    && Indexed(ChainOf(env, r), r.store.heights)
    && Hashed(ChainOf(env, r), r.store.blocks)
    && HeadNamed(ChainOf(env, r), r.store, r.state)
    && Verified(env, r.applied)
  }

  lemma StartInvariant(env: Env, accounts: Accounts)
    ensures Invariant(env, Start(env, accounts))
  {
    HashIgnoresHash(env, UNHASHED_GENESIS);
    hide BlockHash;
    assert ChainOf(env, Start(env, accounts)) == [Genesis(env)];
  }

  lemma LinkedSnoc(env: Env, chain: seq<Block>, b: Block)
    requires Linked(env, chain)
    requires b.index == |chain| && b.hash == BlockHash(env, b)
    requires b.prevHash == chain[|chain| - 1].hash && chain[|chain| - 1].timestamp < b.timestamp
    ensures Linked(env, chain + [b])
  {
    hide BlockHash, Genesis;
  }

  lemma HashedSnoc(chain: seq<Block>, blocks: map<Hash, Block>, b: Block)
    requires Hashed(chain, blocks)
    ensures Hashed(chain + [b], blocks[b.hash := b])
  {
  }

  lemma IndexedSnoc(chain: seq<Block>, heights: map<u64, Block>, b: Block)
    requires Indexed(chain, heights) && b.index == |chain|
    ensures Indexed(chain + [b], heights[b.index := b])
  {
  }

  // A block with the right links extends the chain.
  lemma CommitKeepsInvariant(env: Env, r: Run, b: Block, store: Store, state: ChainState)
    requires Invariant(env, r)
    requires b.index == |r.applied| + 1 && b.hash == BlockHash(env, b)
    requires b.prevHash == r.state.latestHash && r.store.blocks[b.prevHash].timestamp < b.timestamp
    requires forall t | t in b.transactions :: VerifySignature(env, t)
    requires store.blocks == r.store.blocks && store.heights == r.store.heights
    requires store.chainState == Some(state) && state.latestHash == b.hash && state.latestIndex == b.index
    ensures Invariant(env, Run(PutBlock(store, b), state, r.applied + [b]))
  {
    hide BlockHash, Genesis, Linked, Indexed, Hashed, Verified;
    var chain, next := ChainOf(env, r), Run(PutBlock(store, b), state, r.applied + [b]);
    assert ChainOf(env, next) == chain + [b];
    LinkedSnoc(env, chain, b);
    IndexedSnoc(chain, store.heights, b);
    HashedSnoc(chain, store.blocks, b);
    VerifiedSnoc(env, r.applied, b);
  }

  lemma VerifiedSnoc(env: Env, applied: seq<Block>, b: Block)
    requires Verified(env, applied) && forall t | t in b.transactions :: VerifySignature(env, t)
    ensures Verified(env, applied + [b])
  {
    hide VerifySignature;
  }

  lemma HeadIndex(env: Env, r: Run)
    requires Invariant(env, r)
    ensures r.state.latestIndex == |r.applied|
  {
    hide BlockHash, Genesis;
  }

  lemma AttemptKeepsInvariant(env: Env, mode: Reads, r: Run, b: Block)
    requires Invariant(env, r)
    requires env.overflowChecks || |r.applied| + 1 < U64_LIMIT
    ensures Invariant(env, Attempt(env, mode, r, b))
  {
    hide BlockHash, Genesis, VerifySignature, StageAll, CodeAfter, Linked, Indexed, Hashed, Verified, CheckSignatures;
    HeadIndex(env, r);
    if ValidateBlock(env, r.store.blocks, b, r.state).Ok? {
      ValidatesWhen(env, r.store.blocks, b, r.state);
      var (result, store, state) := ApplyBlock(env, mode, r.store, b, r.state);
      if result.Ok? {
        CommitKeepsInvariant(env, r, b, store, state);
      }
    }
  }

  lemma {:induction false} AppliedBound(env: Env, mode: Reads, accounts: Accounts, attempts: seq<Block>)
    ensures |RunAll(env, mode, accounts, attempts).applied| <= |attempts|
  {
    if attempts != [] {
      AppliedBound(env, mode, accounts, attempts[..|attempts| - 1]);
    }
  }

  // Every run from genesis, whatever blocks are attempted: the stored heights are exactly 0 to
  // the latest index, the blocks are linked, and the chain state names the last one.
  lemma {:induction false} ChainInvariant(env: Env, mode: Reads, accounts: Accounts, attempts: seq<Block>)
    requires env.overflowChecks || |attempts| < U64_LIMIT
    ensures Invariant(env, RunAll(env, mode, accounts, attempts))
  {
    if attempts == [] {
      StartInvariant(env, accounts);
    } else {
      var front := attempts[..|attempts| - 1];
      ChainInvariant(env, mode, accounts, front);
      AppliedBound(env, mode, accounts, front);
      AttemptKeepsInvariant(env, mode, RunAll(env, mode, accounts, front), attempts[|attempts| - 1]);
    }
  }

  // Blocks with the same, correct hash are the same or their preimages collide.
  lemma SameHash(env: Env, a: Block, b: Block)
    requires SizedBlock(a) && SizedBlock(b)
    requires a.hash == b.hash && a.hash == BlockHash(env, a) && b.hash == BlockHash(env, b)
    ensures a == b || Collision(env, BlockPreimage(a), BlockPreimage(b))
  {
    BlockPreimageInjective(a, b);
  }

  lemma LinkedAt(env: Env, chain: seq<Block>, i: nat)
    requires Linked(env, chain) && i < |chain|
    ensures chain[i].index == i && chain[i].hash == BlockHash(env, chain[i])
    ensures i > 0 ==> chain[i].prevHash == chain[i - 1].hash
  {
    hide BlockHash, Genesis;
  }

  lemma LinkedPrefix(env: Env, chain: seq<Block>, n: nat)
    requires Linked(env, chain) && 0 < n <= |chain|
    ensures Linked(env, chain[..n])
  {
    hide BlockHash, Genesis;
  }

  // ---------- the head hash commits to the history ----------

  // Two linked chains with the same head hash are the same chain, or two of their blocks have
  // distinct preimages with the same digest, and here they are.
  lemma {:induction false} HeadCommits(env: Env, c: seq<Block>, d: seq<Block>) returns (x: Bytes, y: Bytes)
    requires Linked(env, c) && Linked(env, d)
    requires forall b | b in c || b in d :: SizedBlock(b)
    requires c[|c| - 1].hash == d[|d| - 1].hash
    ensures c == d || Collision(env, x, y)
    decreases |c|
  {
    var m: nat, n: nat := |c| - 1, |d| - 1;
    hide BlockHash, BlockPreimage, Genesis, Linked;
    LinkedAt(env, c, m);
    LinkedAt(env, d, n);
    x, y := BlockPreimage(c[m]), BlockPreimage(d[n]);
    if c[m] != d[n] {
      SameHash(env, c[m], d[n]);
    } else {
      assert c == c[..m] + [c[m]] && d == d[..m] + [d[m]];
      if m > 0 {
        LinkedPrefix(env, c, m);
        LinkedPrefix(env, d, m);
        x, y := HeadCommits(env, c[..m], d[..m]);
      }
    }
  }

  lemma GenesisSized(env: Env)
    ensures SizedBlock(Genesis(env))
  {
  }

  // The same for two runs: equal head hashes mean the same blocks were committed.
  lemma RunsCommit(env: Env, r: Run, s: Run) returns (x: Bytes, y: Bytes)
    requires Invariant(env, r) && Invariant(env, s)
    requires forall b | b in r.applied || b in s.applied :: SizedBlock(b)
    requires r.state.latestHash == s.state.latestHash
    ensures r.applied == s.applied || Collision(env, x, y)
  {
    hide BlockHash, BlockPreimage, Linked, Indexed, Hashed, Verified;
    var c, d := ChainOf(env, r), ChainOf(env, s);
    GenesisSized(env);
    assert forall b | b in c || b in d :: SizedBlock(b);
    x, y := HeadCommits(env, c, d);
    if c == d {
      assert c[1..] == r.applied && d[1..] == s.applied;
    }
  }

  // A lookup by hash finds the block of the chain that has it, or a collision.
  lemma FoundByHash(env: Env, r: Run, b: Block)
    requires Invariant(env, r) && b in r.applied
    requires forall c | c in ChainOf(env, r) :: SizedBlock(c)
    ensures b.hash in r.store.blocks
    ensures r.store.blocks[b.hash] == b || Collision(env, BlockPreimage(r.store.blocks[b.hash]), BlockPreimage(b))
  {
    assert b in ChainOf(env, r);
    var found := r.store.blocks[b.hash];
    assert found in ChainOf(env, r);
    hide BlockHash, BlockPreimage, Genesis, Indexed, Verified;
    SameHash(env, found, b);
  }

  // ---------- the accounts of a run ----------

  function Flatten(bs: seq<Block>): seq<Transaction> {
    if bs == [] then [] else Flatten(bs[..|bs| - 1]) + bs[|bs| - 1].transactions
  }

  lemma {:induction false} ApplyConcat(env: Env, accounts: Accounts, xs: seq<Transaction>, ys: seq<Transaction>)
    requires ApplyAll(env, accounts, xs).Done?
    ensures ApplyAll(env, accounts, xs + ys)
         == match ApplyAll(env, ApplyAll(env, accounts, xs).accounts, ys)
            case Done(final) => Done(final)
            case Failed(e, k) => Failed(e, |xs| + k)
  {
    if ys == [] {
      assert xs + ys == xs;
    } else {
      var front := ys[..|ys| - 1];
      assert (xs + ys)[..|xs + ys| - 1] == xs + front;
      ApplyConcat(env, accounts, xs, front);
    }
  }

  // The committed blocks are ones that this way of reading processes sequentially: all of them
  // when reads go through the overlay; otherwise disjoint ones, and settled ones if the initial
  // balances fit 64 bits together.
  ghost predicate FaithfulRun(mode: Reads, accounts: Accounts, r: Run) {
    mode.ReadThrough? || forall b | b in r.applied :: FaithfulBlock(accounts, b)
  }

  ghost predicate FaithfulBlock(accounts: Accounts, b: Block) {
    Overlay.Disjoint(b.transactions) || (Supply.Total(accounts) < U64_LIMIT && Staleness.Settled(b.transactions))
  }

  lemma FaithfulCommit(env: Env, mode: Reads, accounts: Accounts, past: seq<Transaction>, stored: Accounts, b: Block)
    requires mode.ReadThrough? || FaithfulBlock(accounts, b)
    requires ApplyAll(env, accounts, past) == Done(stored)
    requires StageAll(env, mode, stored, b.transactions).Done?
    ensures ApplyAll(env, stored, b.transactions) == Done(stored + StageAll(env, mode, stored, b.transactions).accounts)
  {
    if Overlay.Faithful(mode, b.transactions) {
      Overlay.FaithfulIsSequential(env, mode, stored, b.transactions);
    } else {
      Supply.SupplyAccounting(env, accounts, past);
      Staleness.StorageOnlyExact(env, stored, b.transactions);
    }
  }

  // The accounts of a run are the initial ones with all committed transactions applied in order.
  lemma {:induction false} RunIsLedger(env: Env, mode: Reads, accounts: Accounts, attempts: seq<Block>)
    requires FaithfulRun(mode, accounts, RunAll(env, mode, accounts, attempts))
    ensures var r := RunAll(env, mode, accounts, attempts);
      ApplyAll(env, accounts, Flatten(r.applied)) == Done(r.store.accounts)
  {
    hide FaithfulBlock, ValidateBlock;
    if attempts != [] {
      var last := |attempts| - 1;
      var before := RunAll(env, mode, accounts, attempts[..last]);
      var after := RunAll(env, mode, accounts, attempts);
      var b := attempts[last];
      assert forall c | c in before.applied :: c in after.applied;
      RunIsLedger(env, mode, accounts, attempts[..last]);
      if after.applied != before.applied {
        assert after.applied == before.applied + [b];
        assert after.applied[..|after.applied| - 1] == before.applied;
        assert b in after.applied;
        FaithfulCommit(env, mode, accounts, Flatten(before.applied), before.store.accounts, b);
        ApplyConcat(env, accounts, Flatten(before.applied), b.transactions);
      }
    }
  }

  // The accounts of a run are right: those of its committed transactions applied in order.
  ghost predicate LedgerRight(env: Env, mode: Reads, accounts: Accounts, attempts: seq<Block>) {
    var r := RunAll(env, mode, accounts, attempts);
    ApplyAll(env, accounts, Flatten(r.applied)) == Done(r.store.accounts)
  }

  // For every run of the code's own reads, on balances that fit 64 bits together: the accounts
  // are right all along if and only if every committed block is settled.
  lemma RunLedgerExact(env: Env, accounts: Accounts, attempts: seq<Block>)
    requires Supply.Total(accounts) < U64_LIMIT
    ensures (forall n: nat | n <= |attempts| :: LedgerRight(env, StorageOnly, accounts, attempts[..n]))
       <==> forall b | b in RunAll(env, StorageOnly, accounts, attempts).applied :: Staleness.Settled(b.transactions)
  {
    hide Staleness.Settled, Supply.Total;
    var r := RunAll(env, StorageOnly, accounts, attempts);
    if forall b | b in r.applied :: Staleness.Settled(b.transactions) {
      forall n: nat | n <= |attempts| ensures LedgerRight(env, StorageOnly, accounts, attempts[..n]) {
        AppliedGrows(env, StorageOnly, accounts, attempts, n);
        RunIsLedger(env, StorageOnly, accounts, attempts[..n]);
      }
    }
    if forall n: nat | n <= |attempts| :: LedgerRight(env, StorageOnly, accounts, attempts[..n]) {
      RightLedgerSettled(env, accounts, attempts);
    }
  }

  lemma {:induction false} RightLedgerSettled(env: Env, accounts: Accounts, attempts: seq<Block>)
    requires Supply.Total(accounts) < U64_LIMIT
    requires forall n: nat | n <= |attempts| :: LedgerRight(env, StorageOnly, accounts, attempts[..n])
    ensures forall b | b in RunAll(env, StorageOnly, accounts, attempts).applied :: Staleness.Settled(b.transactions)
  {
    hide Attempt, Flatten, StageAll, ApplyAll, Staleness.Settled, Supply.Total;
    if attempts == [] {
      return;
    }
    var last := |attempts| - 1;
    var front, b := attempts[..last], attempts[last];
    forall n: nat | n <= last ensures LedgerRight(env, StorageOnly, accounts, front[..n]) {
      assert front[..n] == attempts[..n];
    }
    RightLedgerSettled(env, accounts, front);
    var before := RunAll(env, StorageOnly, accounts, front);
    AttemptAccounts(env, StorageOnly, before, b);
    if RunAll(env, StorageOnly, accounts, attempts).applied != before.applied {
      assert LedgerRight(env, StorageOnly, accounts, attempts[..last]);
      assert attempts[..|attempts|] == attempts;
      assert LedgerRight(env, StorageOnly, accounts, attempts);
      RightBlockSettled(env, accounts, Flatten(before.applied), before.store.accounts, b.transactions);
    }
  }

  lemma RightBlockSettled(env: Env, accounts: Accounts, past: seq<Transaction>, stored: Accounts, ts: seq<Transaction>)
    requires Supply.Total(accounts) < U64_LIMIT
    requires ApplyAll(env, accounts, past) == Done(stored) && StageAll(env, StorageOnly, stored, ts).Done?
    requires ApplyAll(env, accounts, past + ts) == Done(stored + StageAll(env, StorageOnly, stored, ts).accounts)
    ensures Staleness.Settled(ts)
  {
    ApplyConcat(env, accounts, past, ts);
    Supply.SupplyAccounting(env, accounts, past);
    Staleness.StorageOnlyExact(env, stored, ts);
  }

  // Supply over a run that is processed sequentially: it changes only by what deploying senders
  // held.
  lemma RunSupply(env: Env, mode: Reads, accounts: Accounts, attempts: seq<Block>)
    requires FaithfulRun(mode, accounts, RunAll(env, mode, accounts, attempts))
    requires Supply.Funded(env, Supply.Total(accounts))
    ensures var r := RunAll(env, mode, accounts, attempts);
      Supply.Total(r.store.accounts) + Supply.DroppedAll(env, accounts, Flatten(r.applied)) == Supply.Total(accounts)
  {
    RunIsLedger(env, mode, accounts, attempts);
    Supply.SupplyAccounting(env, accounts, Flatten(RunAll(env, mode, accounts, attempts).applied));
  }

  // Whatever was committed and however accounts are read: no block fails on a credit, in any
  // build, when the balances fit 64 bits together and, for storage reads, its transfers to
  // oneself fit as well.
  lemma CreditsFit(env: Env, mode: Reads, store: Store, b: Block, state: ChainState)
    requires Supply.Total(store.accounts) < U64_LIMIT
    requires mode.ReadThrough? || CodeReads.SelfCreditsFit(store.accounts, b.transactions)
    ensures ApplyBlock(env, mode, store, b, state).0 != Err(Panic(Credit))
  {
    if mode.ReadThrough? {
      Overlay.ReadThroughIsSequential(env, store.accounts, b.transactions);
      Supply.SupplyAccounting(env, store.accounts, b.transactions);
    } else {
      CodeReads.CreditsFit(env, store.accounts, b.transactions);
    }
  }

  // The balances keep fitting along a faithful run.
  lemma RunCreditsFit(env: Env, mode: Reads, accounts: Accounts, attempts: seq<Block>, b: Block)
    requires FaithfulRun(mode, accounts, RunAll(env, mode, accounts, attempts)) && Supply.Total(accounts) < U64_LIMIT
    requires mode.ReadThrough?
          || CodeReads.SelfCreditsFit(RunAll(env, mode, accounts, attempts).store.accounts, b.transactions)
    ensures var r := RunAll(env, mode, accounts, attempts);
      ApplyBlock(env, mode, r.store, b, r.state).0 != Err(Panic(Credit))
  {
    var r := RunAll(env, mode, accounts, attempts);
    RunSupply(env, mode, accounts, attempts);
    CreditsFit(env, mode, r.store, b, r.state);
  }

  const HALF: u64 := 0x8000_0000_0000_0000

  // Without the condition on transfers to oneself a block of the first run can fail on a credit
  // although it is a payment that sequential processing accepts.
  lemma SelfCreditPanics(env: Env, key: PublicKey, nonce: u64, b: Block, t: Transaction)
    requires env.overflowChecks && nonce + 1 < U64_LIMIT && b.transactions == [t]
    requires t.sender == key && t.recipient == Wallet(key) && t.payload == Transfer(HALF) && t.nonce == nonce + 1
    ensures var accounts := map[key := WalletAccount(HALF, nonce)];
      var r := Start(env, accounts);
      && Supply.Total(accounts) == HALF
      && ApplyBlock(env, StorageOnly, r.store, b, r.state).0 == Err(Panic(Credit))
      && ApplyBlock(env, ReadThrough, r.store, b, r.state).0 == Ok(())
  {
    hide BlockHash, CodeAfter;
    var accounts: Accounts := map[key := WalletAccount(HALF, nonce)];
    Supply.TotalPut(map[], key, accounts[key]);
    assert map[][key := accounts[key]] == accounts;
    AloneStaged(env, StorageOnly, accounts, t);
    AloneStaged(env, ReadThrough, accounts, t);
  }

  // ---------- nonces over a run ----------

  // The committed blocks are ones that keep nonces right: all of them when reads go through the
  // overlay; otherwise those whose senders send once, not to themselves, and are not touched
  // afterwards.
  predicate NoncesRun(mode: Reads, r: Run) {
    mode.ReadThrough? || forall b | b in r.applied :: CodeReads.NoncesKept(b.transactions)
  }

  // The stored nonce of an account is its initial one plus the number of its committed
  // transactions.
  ghost predicate NonceRight(env: Env, mode: Reads, accounts: Accounts, attempts: seq<Block>, key: PublicKey) {
    var r := RunAll(env, mode, accounts, attempts);
    Nonces.Reached(env, Nonces.NonceAt(r.store.accounts, key), Nonces.NonceAt(accounts, key),
                   Nonces.Count(Flatten(r.applied), key))
  }

  // What an attempt does to the accounts: a committed block's staged writes, or nothing.
  lemma AttemptAccounts(env: Env, mode: Reads, r: Run, b: Block)
    ensures var next := Attempt(env, mode, r, b);
      || (next.applied == r.applied && next.store.accounts == r.store.accounts)
      || (&& next.applied == r.applied + [b]
          && next.applied != r.applied
          && Flatten(next.applied) == Flatten(r.applied) + b.transactions
          && StageAll(env, mode, r.store.accounts, b.transactions).Done?
          && next.store.accounts == r.store.accounts + StageAll(env, mode, r.store.accounts, b.transactions).accounts)
  {
    hide ValidateBlock, CodeAfter, StageAll;
    assert (r.applied + [b])[..|r.applied|] == r.applied;
  }

  lemma BlockNonces(env: Env, mode: Reads, stored: Accounts, ts: seq<Transaction>, key: PublicKey)
    requires mode.ReadThrough? || CodeReads.NoncesKept(ts)
    requires StageAll(env, mode, stored, ts).Done?
    ensures Nonces.Reached(env, Nonces.NonceAt(stored + StageAll(env, mode, stored, ts).accounts, key),
                           Nonces.NonceAt(stored, key), Nonces.Count(ts, key))
  {
    if mode.ReadThrough? {
      Overlay.ReadThroughIsSequential(env, stored, ts);
      Nonces.NoncesCount(env, stored, ts, key);
    } else {
      CodeReads.KeptReached(env, stored, ts, key);
      CodeReads.KeptForAll(ts, key);
    }
  }

  lemma {:induction false} RunNonces(env: Env, mode: Reads, accounts: Accounts, attempts: seq<Block>, key: PublicKey)
    requires NoncesRun(mode, RunAll(env, mode, accounts, attempts))
    ensures NonceRight(env, mode, accounts, attempts, key)
  {
    hide Attempt, Flatten, StageAll, CodeReads.NoncesKept, Nonces.Count, Nonces.Reached;
    if attempts == [] {
      StartNonce(env, mode, accounts, key);
    } else {
      var last := |attempts| - 1;
      var before := RunAll(env, mode, accounts, attempts[..last]);
      var after := RunAll(env, mode, accounts, attempts);
      var b := attempts[last];
      AttemptAccounts(env, mode, before, b);
      assert forall c | c in before.applied :: c in after.applied;
      RunNonces(env, mode, accounts, attempts[..last], key);
      if after.applied != before.applied {
        assert b in after.applied;
        BlockNonces(env, mode, before.store.accounts, b.transactions, key);
        Nonces.ReachedSum(env, Nonces.NonceAt(before.store.accounts, key), Nonces.NonceAt(after.store.accounts, key),
                          Nonces.NonceAt(accounts, key), Nonces.Count(Flatten(before.applied), key),
                          Nonces.Count(b.transactions, key));
        Nonces.CountConcat(Flatten(before.applied), b.transactions, key);
      }
    }
  }

  lemma StartNonce(env: Env, mode: Reads, accounts: Accounts, key: PublicKey)
    ensures NonceRight(env, mode, accounts, [], key)
  {
    hide BlockHash;
  }

  // For every run of the code's own reads, of blocks with fewer than 2^64 transactions: all
  // nonces are right all along if and only if the committed blocks keep them.
  lemma RunNoncesExact(env: Env, accounts: Accounts, attempts: seq<Block>)
    requires forall b | b in attempts :: |b.transactions| < U64_LIMIT
    ensures (forall n: nat, key: PublicKey | n <= |attempts| :: NonceRight(env, StorageOnly, accounts, attempts[..n], key))
       <==> NoncesRun(StorageOnly, RunAll(env, StorageOnly, accounts, attempts))
  {
    if NoncesRun(StorageOnly, RunAll(env, StorageOnly, accounts, attempts)) {
      forall n: nat, key: PublicKey | n <= |attempts| ensures NonceRight(env, StorageOnly, accounts, attempts[..n], key) {
        AppliedGrows(env, StorageOnly, accounts, attempts, n);
        RunNonces(env, StorageOnly, accounts, attempts[..n], key);
      }
    }
    if forall n: nat, key: PublicKey | n <= |attempts| :: NonceRight(env, StorageOnly, accounts, attempts[..n], key) {
      RightNoncesKept(env, accounts, attempts);
    }
  }

  lemma {:induction false} AppliedGrows(env: Env, mode: Reads, accounts: Accounts, attempts: seq<Block>, n: nat)
    requires n <= |attempts|
    ensures RunAll(env, mode, accounts, attempts[..n]).applied <= RunAll(env, mode, accounts, attempts).applied
  {
    if n == |attempts| {
      assert attempts[..n] == attempts;
    } else {
      var last := |attempts| - 1;
      assert attempts[..last][..n] == attempts[..n];
      AppliedGrows(env, mode, accounts, attempts[..last], n);
      AttemptAccounts(env, mode, RunAll(env, mode, accounts, attempts[..last]), attempts[last]);
    }
  }

  lemma {:induction false} RightNoncesKept(env: Env, accounts: Accounts, attempts: seq<Block>)
    requires forall b | b in attempts :: |b.transactions| < U64_LIMIT
    requires forall n: nat, key: PublicKey | n <= |attempts| :: NonceRight(env, StorageOnly, accounts, attempts[..n], key)
    ensures NoncesRun(StorageOnly, RunAll(env, StorageOnly, accounts, attempts))
  {
    hide Attempt, Flatten, StageAll, CodeReads.NoncesKept, Nonces.Count, Nonces.Reached, NonceRight;
    if attempts == [] {
      return;
    }
    var last := |attempts| - 1;
    var front := attempts[..last];
    forall n: nat, key: PublicKey | n <= last ensures NonceRight(env, StorageOnly, accounts, front[..n], key) {
      assert front[..n] == attempts[..n];
    }
    RightNoncesKept(env, accounts, front);
    var before := RunAll(env, StorageOnly, accounts, front);
    AttemptAccounts(env, StorageOnly, before, attempts[last]);
    if RunAll(env, StorageOnly, accounts, attempts).applied != before.applied {
      assert attempts == front + [attempts[last]];
      forall key: PublicKey ensures NonceRight(env, StorageOnly, accounts, front, key)
                                 && NonceRight(env, StorageOnly, accounts, front + [attempts[last]], key)
      {
        assert front == attempts[..last] && attempts[..|attempts|] == attempts;
      }
      CommittedKept(env, accounts, front, attempts[last]);
    }
  }

  lemma CommittedKept(env: Env, accounts: Accounts, front: seq<Block>, b: Block)
    requires |b.transactions| < U64_LIMIT
    requires RunAll(env, StorageOnly, accounts, front + [b]).applied != RunAll(env, StorageOnly, accounts, front).applied
    requires forall key: PublicKey :: NonceRight(env, StorageOnly, accounts, front, key)
    requires forall key: PublicKey :: NonceRight(env, StorageOnly, accounts, front + [b], key)
    ensures CodeReads.NoncesKept(b.transactions)
  {
    hide Attempt, Flatten, StageAll, CodeReads.NoncesKept, Nonces.Count, Nonces.Reached;
    assert (front + [b])[..|front|] == front;
    var before, after := RunAll(env, StorageOnly, accounts, front), RunAll(env, StorageOnly, accounts, front + [b]);
    AttemptAccounts(env, StorageOnly, before, b);
    forall key: PublicKey
      ensures Nonces.Reached(env, Nonces.NonceAt(CodeReads.Committed(env, before.store.accounts, b.transactions), key),
                             Nonces.NonceAt(before.store.accounts, key), Nonces.Count(b.transactions, key))
    {
      assert NonceRight(env, StorageOnly, accounts, front, key);
      assert NonceRight(env, StorageOnly, accounts, front + [b], key);
      Nonces.CountConcat(Flatten(before.applied), b.transactions, key);
      Nonces.ReachedSum(env, Nonces.NonceAt(before.store.accounts, key), Nonces.NonceAt(after.store.accounts, key),
                        Nonces.NonceAt(accounts, key), Nonces.Count(Flatten(before.applied), key),
                        Nonces.Count(b.transactions, key));
    }
    CodeReads.BlockNoncesExact(env, before.store.accounts, b.transactions);
  }

  // ---------- supply over a run of the code's own reads ----------

  function MovedAll(bs: seq<Block>): int {
    if bs == [] then 0 else MovedAll(bs[..|bs| - 1]) + CodeReads.Moved(bs[|bs| - 1].transactions, {})
  }

  ghost predicate CommittedLast(env: Env, mode: Reads, accounts: Accounts, attempts: seq<Block>)
    requires attempts != []
  {
    RunAll(env, mode, accounts, attempts).applied != RunAll(env, mode, accounts, attempts[..|attempts| - 1]).applied
  }

  // What the deployments among the committed blocks burn.
  ghost function BurntAlong(env: Env, accounts: Accounts, attempts: seq<Block>): nat {
    if attempts == [] then 0
    else
      var last := |attempts| - 1;
      BurntAlong(env, accounts, attempts[..last])
        + if CommittedLast(env, StorageOnly, accounts, attempts)
          then CodeReads.Burnt(RunAll(env, StorageOnly, accounts, attempts[..last]).store.accounts, attempts[last].transactions, {})
          else 0
  }

  // The credits of every committed block are exact; with overflow checks, those of any run are.
  ghost predicate CreditsExactAlong(env: Env, accounts: Accounts, attempts: seq<Block>) {
    attempts != [] ==>
      var last := |attempts| - 1;
      && CreditsExactAlong(env, accounts, attempts[..last])
      && (CommittedLast(env, StorageOnly, accounts, attempts) ==>
            CodeReads.CreditsExact(env, RunAll(env, StorageOnly, accounts, attempts[..last]).store.accounts,
                                   attempts[last].transactions))
  }

  // For every run of the code's own reads: the supply changes by what the committed transactions
  // move and by what deployments burn. So, deployments apart, it is conserved if and only if the
  // committed transactions together move nothing.
  lemma {:induction false} RunSupplyExact(env: Env, accounts: Accounts, attempts: seq<Block>)
    requires CreditsExactAlong(env, accounts, attempts)
    ensures var r := RunAll(env, StorageOnly, accounts, attempts);
      && Supply.Total(r.store.accounts) + BurntAlong(env, accounts, attempts) == Supply.Total(accounts) + MovedAll(r.applied)
      && (Supply.Total(r.store.accounts) + BurntAlong(env, accounts, attempts) == Supply.Total(accounts)
          <==> MovedAll(r.applied) == 0)
  {
    hide Attempt, Flatten, StageAll, CodeReads.Moved, CodeReads.Burnt, CodeReads.CreditsExact;
    if attempts != [] {
      var last := |attempts| - 1;
      var before := RunAll(env, StorageOnly, accounts, attempts[..last]);
      var b := attempts[last];
      RunSupplyExact(env, accounts, attempts[..last]);
      AttemptAccounts(env, StorageOnly, before, b);
      if CommittedLast(env, StorageOnly, accounts, attempts) {
        CodeReads.SupplyExact(env, before.store.accounts, b.transactions);
        assert (before.applied + [b])[..|before.applied|] == before.applied;
      }
    }
  }

  // Why a committed block has to be stored: applying it stores no block, and on a head that is
  // not stored every next block is rejected.
  lemma UnstoredHeadRejectsAll(env: Env, mode: Reads, store: Store, b: Block, state: ChainState, next: Block)
    requires ApplyBlock(env, mode, store, b, state).0.Ok?
    requires b.hash !in store.blocks && b.index + 1 < U64_LIMIT
    ensures var (_, after, state') := ApplyBlock(env, mode, store, b, state);
      ValidateBlock(env, after.blocks, next, state').Err?
  {
    hide StageAll, CodeAfter, CheckSignatures, BlockHash;
  }

  // ---------- failed blocks ----------

  // What is left of a block that fails: nothing but the code of deployments before the failing
  // transaction, all of which were staged.
  lemma FailureLeavesCodeOnly(env: Env, mode: Reads, store: Store, b: Block, state: ChainState)
    requires ApplyBlock(env, mode, store, b, state).0.Err?
    ensures var (result, after, state') := ApplyBlock(env, mode, store, b, state);
      && state' == state
      && after == store.(code := after.code)
      && exists k | 0 <= k < |b.transactions| ::
           && StageAll(env, mode, store.accounts, b.transactions[..k]).Done?
           && StageTransaction(env, mode, store.accounts, StageAll(env, mode, store.accounts, b.transactions[..k]).accounts,
                               b.transactions[k]) == Err(result.error)
           && forall id | id in after.code && (id in store.code ==> after.code[id] != store.code[id]) ::
                exists i | 0 <= i < k :: Deployed(env, b.transactions[i], id, after.code[id])
  {
    var ts := b.transactions;
    var outcome := StageAll(env, mode, store.accounts, ts);
    var k := outcome.position;
    FailurePoint(env, mode, store.accounts, ts);
    var code := CodeAfter(env, store.code, ts[..k]);
    forall id | id in code && (id in store.code ==> code[id] != store.code[id])
      ensures exists i | 0 <= i < k :: Deployed(env, ts[i], id, code[id])
    {
      var i := CodeOrigin(env, store.code, ts[..k], id);
      assert Deployed(env, ts[i], id, code[id]);
    }
  }

  predicate Deployed(env: Env, t: Transaction, id: ContractId, wasm: Bytes) {
    t.payload == ContractDeploy(wasm) && id == CodeId(env, t.sender, wasm)
  }

  // A code entry that is new or changed comes from a deployment.
  lemma {:induction false} CodeOrigin(env: Env, code: CodeStore, ts: seq<Transaction>, id: ContractId) returns (i: nat)
    requires id in CodeAfter(env, code, ts)
    requires id in code ==> CodeAfter(env, code, ts)[id] != code[id]
    ensures i < |ts| && Deployed(env, ts[i], id, CodeAfter(env, code, ts)[id])
  {
    i := |ts| - 1;
    if !Deployed(env, ts[i], id, CodeAfter(env, code, ts)[id]) {
      i := CodeOrigin(env, code, ts[..i], id);
    }
  }

  // Every code entry is keyed by the hash of some deployer and that code.
  ghost predicate CodeKeyed(env: Env, code: CodeStore) {
    forall id | id in code :: exists deployer: PublicKey :: id == CodeId(env, deployer, code[id])
  }

  lemma {:induction false} CodeStaysKeyed(env: Env, code: CodeStore, ts: seq<Transaction>)
    requires CodeKeyed(env, code)
    ensures CodeKeyed(env, CodeAfter(env, code, ts))
  {
    if ts != [] {
      CodeStaysKeyed(env, code, ts[..|ts| - 1]);
    }
  }

  lemma {:induction false} RunCodeKeyed(env: Env, mode: Reads, accounts: Accounts, attempts: seq<Block>)
    ensures CodeKeyed(env, RunAll(env, mode, accounts, attempts).store.code)
  {
    if attempts != [] {
      var last := |attempts| - 1;
      var before := RunAll(env, mode, accounts, attempts[..last]);
      var ts := attempts[last].transactions;
      RunCodeKeyed(env, mode, accounts, attempts[..last]);
      CodeStaysKeyed(env, before.store.code, ts);
      match StageAll(env, mode, before.store.accounts, ts)
      case Done(_) =>
      case Failed(_, k) => CodeStaysKeyed(env, before.store.code, ts[..k]);
    }
  }

  // Deployments never alter an entry that is already there, unless they exhibit a collision.
  lemma {:induction false} CodeKept(env: Env, code: CodeStore, ts: seq<Transaction>, id: ContractId)
    returns (x: Bytes, y: Bytes)
    requires CodeKeyed(env, code) && id in code
    ensures id in CodeAfter(env, code, ts)
    ensures CodeAfter(env, code, ts)[id] == code[id] || Collision(env, x, y)
  {
    x, y := [], [];
    CodeGrows(env, code, ts, id);
    if CodeAfter(env, code, ts)[id] != code[id] {
      var i := CodeOrigin(env, code, ts, id);
      var deployer: PublicKey :| id == CodeId(env, deployer, code[id]);
      x, y := deployer + code[id], ts[i].sender + ts[i].payload.wasm;
      if x == y {
        SameSplit(deployer, code[id], ts[i].sender, ts[i].payload.wasm);
      }
    }
  }

  lemma {:induction false} CodeGrows(env: Env, code: CodeStore, ts: seq<Transaction>, id: ContractId)
    requires id in code
    ensures id in CodeAfter(env, code, ts)
  {
    if ts != [] {
      CodeGrows(env, code, ts[..|ts| - 1], id);
    }
  }
}
