/** What an attempted block leaves, field by field, and what every run keeps of it. */
module Commits {
  import opened Bytes
  import opened Types
  import opened Layout
  import opened Hashing
  import opened Ledger
  import opened Overlay
  import opened Staleness
  import opened Transitions
  import opened Chain
  import opened Consensus

  // ---------- genesis and generated blocks ----------

  predicate AllZero(b: Bytes) {
    forall i | 0 <= i < |b| :: b[i] == 0
  }

  lemma {:induction false} ZeroBytes(w: nat)
    ensures AllZero(Le(0, w))
  {
    if w > 0 {
      ZeroBytes(w - 1);
    }
  }

  // Genesis is empty, at height and time zero, behind 32 zero bytes; the first chain state names
  // it, with a root of zero bytes and no supply.
  lemma GenesisFields(env: Env)
    ensures var g, s := Genesis(env), InitialChainState(env);
      && g.index == 0 && g.timestamp == 0 && AllZero(g.prevHash) && g.nonce == 0
      && g.transactions == [] && g.metadata == None && HashesBlock(env, g.hash, g)
      && s.latestHash == g.hash && s.latestIndex == 0 && AllZero(s.accountsRoot) && s.totalSupply == 0
  {
    ZeroBytes(32);
    BlockHashExact(env, Genesis(env).hash, Genesis(env));
    hide BlockHashes, HashesBlock;
  }

  // Initialization changes nothing when there is a chain state, and otherwise adds genesis, under
  // its hash and at height zero, and the first chain state.
  lemma Initialized(env: Env, store: Store)
    ensures var after, g := InitializeChain(env, store), Genesis(env);
      && (store.chainState.Some? ==> after == store)
      && (store.chainState.None? ==>
            after == Store(store.accounts, store.code, store.blocks[g.hash := g], store.heights[0 := g],
                           Some(InitialChainState(env)), store.txIndex))
  {
    hide BlockHash;
  }

  // When a block is generated, and all of its fields.
  lemma GeneratedFields(env: Env, pool: seq<Transaction>, prev: Block)
    ensures var r := GenerateBlock(env, pool, prev);
      var indexOver := env.overflowChecks && prev.index + 1 >= U64_LIMIT;
      var timeOver := env.overflowChecks && prev.timestamp + 1 >= U64_LIMIT;
      && (r == Err(NoPendingTransactions) <==> pool == [])
      && (r == Err(Overflow(NextIndex)) <==> pool != [] && indexOver)
      && (r == Err(Overflow(NextTimestamp)) <==> pool != [] && !indexOver && timeOver)
      && (r.Ok? <==> pool != [] && !indexOver && !timeOver)
      && (r.Ok? ==>
            && SumIs(env, prev.index, 1, r.value.index)
            && SumIs(env, prev.timestamp, 1, r.value.timestamp)
            && r.value.prevHash == prev.hash
            && r.value.nonce == 0
            && r.value.transactions == pool
            && r.value.metadata == None
            && HashesBlock(env, r.value.hash, r.value))
  {
    hide BlockHash, HashesBlock;
    if GenerateBlock(env, pool, prev).Ok? {
      var b := GenerateBlock(env, pool, prev).value;
      var unhashed := Block(b.index, b.timestamp, prev.hash, ZERO_HASH, 0, pool, None);
      HashIgnoresHash(env, unhashed);
      BlockHashExact(env, b.hash, b);
      assert b == unhashed.(hash := BlockHash(env, unhashed));
    }
  }

  // ---------- contract code ----------

  predicate DeploysAs(env: Env, t: Transaction, id: ContractId) {
    t.payload.ContractDeploy? && id == env.digest(t.sender + t.payload.wasm)
  }

  // A contract is its deployer and its code: one identifier for two pairs is a collision.
  lemma SameContract(env: Env, a: PublicKey, v: Bytes, b: PublicKey, w: Bytes)
    requires CodeId(env, a, v) == CodeId(env, b, w)
    ensures CodeId(env, a, v) == env.digest(a + v)
    ensures (a == b && v == w) || Collision(env, a + v, b + w)
  {
    if a + v == b + w {
      SameSplit(a, v, b, w);
    }
  }

  // The last of the transactions to deploy under an identifier.
  predicate LastToDeploy(env: Env, ts: seq<Transaction>, i: nat, id: ContractId) {
    i < |ts| && DeploysAs(env, ts[i], id) && forall j | i < j < |ts| :: !DeploysAs(env, ts[j], id)
  }

  // The code under an identifier is what the last deployment under it put there.
  lemma {:induction false} CodeLast(env: Env, code: CodeStore, ts: seq<Transaction>, i: nat, id: ContractId)
    requires LastToDeploy(env, ts, i, id)
    ensures id in CodeAfter(env, code, ts) && CodeAfter(env, code, ts)[id] == ts[i].payload.wasm
  {
    var last := |ts| - 1;
    if i < last {
      assert !DeploysAs(env, ts[last], id);
      CodeLast(env, code, ts[..last], i, id);
    }
  }

  lemma {:induction false} CodeUntouched(env: Env, code: CodeStore, ts: seq<Transaction>, id: ContractId)
    requires forall i | 0 <= i < |ts| :: !DeploysAs(env, ts[i], id)
    ensures At(CodeAfter(env, code, ts), id) == At(code, id)
  {
    if ts != [] {
      assert !DeploysAs(env, ts[|ts| - 1], id);
      CodeUntouched(env, code, ts[..|ts| - 1], id);
    }
  }

  // The last deployment under an identifier, which is the given one or collides with it.
  lemma {:induction false} LastDeployment(env: Env, ts: seq<Transaction>, i: nat) returns (k: nat)
    requires i < |ts| && ts[i].payload.ContractDeploy?
    ensures var id := env.digest(ts[i].sender + ts[i].payload.wasm);
      i <= k && LastToDeploy(env, ts, k, id)
    decreases |ts| - i
  {
    var id := env.digest(ts[i].sender + ts[i].payload.wasm);
    k := i;
    if j :| i < j < |ts| && DeploysAs(env, ts[j], id) {
      k := LastDeployment(env, ts, j);
    }
  }

  lemma {:induction false} StagedStays(env: Env, mode: Reads, stored: Accounts, ts: seq<Transaction>, key: PublicKey, n: nat)
    requires StageAll(env, mode, stored, ts).Done? && n <= |ts|
    requires forall j | n <= j < |ts| :: key !in Touched(ts[j])
    ensures StageAll(env, mode, stored, ts[..n]).Done?
    ensures Get(StageAll(env, mode, stored, ts[..n]).accounts, key) == Get(StageAll(env, mode, stored, ts).accounts, key)
  {
    if n == |ts| {
      assert ts[..n] == ts;
    } else {
      var last := |ts| - 1;
      assert ts[..last][..n] == ts[..n];
      StagedStays(env, mode, stored, ts[..last], key, n);
      UntouchedStaged(env, mode, stored, StageAll(env, mode, stored, ts[..last]).accounts, ts[last], key);
    }
  }

  lemma UntouchedStaged(env: Env, mode: Reads, stored: Accounts, overlay: Accounts, t: Transaction, key: PublicKey)
    requires StageTransaction(env, mode, stored, overlay, t).Ok? && key !in Touched(t)
    ensures Get(StageTransaction(env, mode, stored, overlay, t).value, key) == Get(overlay, key)
  {
  }

  lemma DeploymentStaged(env: Env, mode: Reads, stored: Accounts, overlay: Accounts, t: Transaction)
    requires StageTransaction(env, mode, stored, overlay, t).Ok? && t.payload.ContractDeploy?
    ensures Get(StageTransaction(env, mode, stored, overlay, t).value, t.sender)
         == Some(ContractAccount(env.digest(t.sender + t.payload.wasm), ZERO_HASH, t.nonce))
  {
  }

  lemma DeployerAfter(env: Env, mode: Reads, stored: Accounts, ts: seq<Transaction>, i: nat)
    requires StageAll(env, mode, stored, ts).Done?
    requires i < |ts| && ts[i].payload.ContractDeploy?
    requires forall j | i < j < |ts| :: ts[i].sender !in Touched(ts[j])
    ensures Get(StageAll(env, mode, stored, ts).accounts, ts[i].sender)
         == Some(ContractAccount(env.digest(ts[i].sender + ts[i].payload.wasm), ZERO_HASH, ts[i].nonce))
  {
    hide StageTransaction;
    StagedStays(env, mode, stored, ts, ts[i].sender, i + 1);
    assert ts[..i + 1][..i] == ts[..i];
    DeploymentStaged(env, mode, stored, StageAll(env, mode, stored, ts[..i]).accounts, ts[i]);
  }

  // After a committed block with a deployment whose sender it does not touch again: the sender's
  // account is a contract under the hash of sender and code, and that code is stored there,
  // unless two preimages of one digest are at hand.
  lemma DeploymentCommitted(env: Env, mode: Reads, r: Run, b: Block, i: nat) returns (x: Bytes, y: Bytes)
    requires Attempt(env, mode, r, b).applied != r.applied
    requires i < |b.transactions| && b.transactions[i].payload.ContractDeploy?
    requires forall j | i < j < |b.transactions| :: b.transactions[i].sender !in Touched(b.transactions[j])
    ensures var t, store := b.transactions[i], Attempt(env, mode, r, b).store;
      var id := env.digest(t.sender + t.payload.wasm);
      && t.sender in store.accounts
      && store.accounts[t.sender].ContractAccount?
      && store.accounts[t.sender].codeHash == id
      && AllZero(store.accounts[t.sender].storageRoot)
      && store.accounts[t.sender].nonce == t.nonce
      && id in store.code
      && (store.code[id] == t.payload.wasm || Collision(env, x, y))
  {
    var ts := b.transactions;
    var t := ts[i];
    ZeroBytes(32);
    hide StageAll, Attempt, CodeAfter, LastToDeploy, Le;
    AttemptAccounts(env, mode, r, b);
    AttemptCode(env, mode, r, b);
    DeployerAfter(env, mode, r.store.accounts, ts, i);
    var k := LastDeployment(env, ts, i);
    CodeLast(env, r.store.code, ts, k, env.digest(t.sender + t.payload.wasm));
    DeploysUnder(env, ts, k, env.digest(t.sender + t.payload.wasm));
    x, y := t.sender + t.payload.wasm, ts[k].sender + ts[k].payload.wasm;
    if x == y {
      SameSplit(t.sender, t.payload.wasm, ts[k].sender, ts[k].payload.wasm);
    }
  }

  lemma DeploysUnder(env: Env, ts: seq<Transaction>, k: nat, id: ContractId)
    requires LastToDeploy(env, ts, k, id)
    ensures ts[k].payload.ContractDeploy? && id == env.digest(ts[k].sender + ts[k].payload.wasm)
  {
  }

  lemma AttemptCode(env: Env, mode: Reads, r: Run, b: Block)
    requires Attempt(env, mode, r, b).applied != r.applied
    ensures Attempt(env, mode, r, b).store.code == CodeAfter(env, r.store.code, b.transactions)
  {
    hide ValidateBlock, StageAll, CodeAfter;
  }

  // ---------- one attempted block ----------

  // The block passes every check of validation.
  ghost predicate Valid(env: Env, r: Run, b: Block) {
    && SumIs(env, r.state.latestIndex, 1, b.index)
    && b.prevHash == r.state.latestHash
    && HashesBlock(env, b.hash, b)
    && (b.index > 0 ==> b.prevHash in r.store.blocks && r.store.blocks[b.prevHash].timestamp < b.timestamp)
    && forall t | t in b.transactions :: SenderSigned(env, t)
  }

  lemma ValidExact(env: Env, r: Run, b: Block)
    ensures ValidateBlock(env, r.store.blocks, b, r.state).Ok? <==> Valid(env, r, b)
  {
    hide HashesBlock, VerifySignature, SenderSigned, BlockHash;
    AddExact(env, r.state.latestIndex, 1, NextIndex, b.index);
    BlockHashExact(env, b.hash, b);
    SignaturesChecked(env, b.transactions);
    forall t | t in b.transactions ensures VerifySignature(env, t) <==> SenderSigned(env, t) {
      VerifiedExact(env, t);
    }
  }

  // The accounts after staging a block, if it can be staged.
  ghost predicate StagesTo(env: Env, mode: Reads, stored: Accounts, ts: seq<Transaction>, after: Accounts) {
    exists overlays :: Stages(env, mode, stored, overlays, ts) && after == stored + overlays[|ts|]
  }

  lemma StagesToExact(env: Env, mode: Reads, stored: Accounts, ts: seq<Transaction>, after: Accounts)
    ensures StagesTo(env, mode, stored, ts, after)
       <==> StageAll(env, mode, stored, ts).Done? && after == stored + StageAll(env, mode, stored, ts).accounts
  {
    hide StageTransaction;
    if overlays :| Stages(env, mode, stored, overlays, ts) && after == stored + overlays[|ts|] {
      StagedSteps(env, mode, stored, ts, overlays[|ts|]);
    }
    if StageAll(env, mode, stored, ts).Done? {
      StagedSteps(env, mode, stored, ts, StageAll(env, mode, stored, ts).accounts);
    }
  }

  // For every attempted block: it is committed exactly when it is valid and can be staged. It then
  // becomes the head, is found under its hash and at its height, its transactions are indexed
  // under it by their positions, and the other fields of the chain state are as before. Otherwise
  // nothing changes but the contract code.
  lemma AttemptExact(env: Env, mode: Reads, r: Run, b: Block)
    ensures var next := Attempt(env, mode, r, b);
      && (next.applied != r.applied <==> Valid(env, r, b) && exists after :: StagesTo(env, mode, r.store.accounts, b.transactions, after))
      && (next.applied == r.applied ==> next.state == r.state && next.store == r.store.(code := next.store.code))
      && (next.applied != r.applied ==>
            && next.applied == r.applied + [b]
            && StagesTo(env, mode, r.store.accounts, b.transactions, next.store.accounts)
            && next.state.latestHash == b.hash
            && next.state.latestIndex == b.index
            && next.state.accountsRoot == r.state.accountsRoot
            && next.state.totalSupply == r.state.totalSupply
            && next.store.chainState == Some(next.state)
            && next.store.blocks == r.store.blocks[b.hash := b]
            && next.store.heights == r.store.heights[b.index := b]
            && forall e :: e in next.store.txIndex <==> e in r.store.txIndex || Indexes(b, e))
  {
    hide ValidateBlock, StageAll, CodeAfter, Valid, StagesTo;
    ValidExact(env, r, b);
    StagesToExact(env, mode, r.store.accounts, b.transactions, Attempt(env, mode, r, b).store.accounts);
    forall after ensures StagesTo(env, mode, r.store.accounts, b.transactions, after)
                    ==> StageAll(env, mode, r.store.accounts, b.transactions).Done?
    {
      StagesToExact(env, mode, r.store.accounts, b.transactions, after);
    }
    assert (r.applied + [b]) != r.applied by {
      assert |r.applied + [b]| == |r.applied| + 1;
    }
  }

  // A block's index entries: for each position, the transaction there.
  predicate Indexes(b: Block, e: (Hash, Hash, u32)) {
    exists i | 0 <= i < |b.transactions| :: e == (b.hash, b.transactions[i].hash, i % U32_LIMIT)
  }

  // ---------- every run ----------

  // Every committed transaction is signed by its sender.
  lemma {:induction false} RunSigned(env: Env, mode: Reads, accounts: Accounts, attempts: seq<Block>)
    ensures forall b | b in RunAll(env, mode, accounts, attempts).applied ::
      forall t | t in b.transactions :: SenderSigned(env, t)
  {
    hide Attempt, Start, SenderSigned;
    if attempts == [] {
      NothingApplied(env, accounts);
    } else {
      var last := |attempts| - 1;
      var before := RunAll(env, mode, accounts, attempts[..last]);
      RunSigned(env, mode, accounts, attempts[..last]);
      AttemptExact(env, mode, before, attempts[last]);
    }
  }

  lemma NothingApplied(env: Env, accounts: Accounts)
    ensures Start(env, accounts).applied == []
  {
    hide BlockHash;
  }

  // The chain state of a run, in memory and stored, has a root of zero bytes and no supply: no
  // block ever sets them.
  lemma {:induction false} RunStateFields(env: Env, mode: Reads, accounts: Accounts, attempts: seq<Block>)
    ensures var r := RunAll(env, mode, accounts, attempts);
      AllZero(r.state.accountsRoot) && r.state.totalSupply == 0 && r.store.chainState == Some(r.state)
  {
    hide Attempt;
    if attempts == [] {
      GenesisFields(env);
      hide BlockHash;
    } else {
      hide Start;
      var last := |attempts| - 1;
      RunStateFields(env, mode, accounts, attempts[..last]);
      AttemptExact(env, mode, RunAll(env, mode, accounts, attempts[..last]), attempts[last]);
    }
  }
}
