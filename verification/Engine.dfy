/** The objects of the node: storage, ledger and runtime, and what their methods change. Three
    repairs are built in. The storage keeps each kind of data in a map of its own and a batch goes
    to the maps its operations are for; a produced block is stored; and what is stored is read
    back as it was written, which on bytes takes keys read with their length: a produced block is
    never empty, so the source's reader would never give one back. */
module Engine {
  import opened Bytes
  import opened Types
  import opened Hashing
  import opened Ledger
  import opened Batch
  import opened Chain
  import opened Consensus
  import Text

  // ---------- storage ----------

  function ApplyOp(store: Store, op: BatchOp): Store {
    match op
    case DeletePending(_) => store
    case PutAccount(key, account) => store.(accounts := store.accounts[key := account])
    case PutChainState(state) => store.(chainState := Some(state))
  }

  function ApplyOps(store: Store, ops: seq<BatchOp>): Store {
    if ops == [] then store else ApplyOp(ApplyOps(store, ops[..|ops| - 1]), ops[|ops| - 1])
  }

  lemma {:induction false} OpsConcat(store: Store, a: seq<BatchOp>, b: seq<BatchOp>)
    ensures ApplyOps(store, a + b) == ApplyOps(ApplyOps(store, a), b)
  {
    if b == [] {
      assert a + b == a;
    } else {
      assert (a + b)[..|a + b| - 1] == a + b[..|b| - 1];
      OpsConcat(store, a, b[..|b| - 1]);
    }
  }

  lemma {:induction false} DeletionsOnly(store: Store, ts: seq<Transaction>)
    ensures ApplyOps(store, Deletions(ts)) == store
  {
    if ts != [] {
      DeletionsOnly(store, ts[..|ts| - 1]);
      assert Deletions(ts)[..|Deletions(ts)| - 1] == Deletions(ts[..|ts| - 1]);
    }
  }

  function Restrict(overlay: Accounts, keys: seq<Bytes>): Accounts {
    map k: PublicKey | k in overlay && k in keys :: overlay[k]
  }

  lemma RestrictSnoc(accounts: Accounts, overlay: Accounts, keys: seq<Bytes>, k: PublicKey)
    requires k in overlay
    ensures accounts + Restrict(overlay, keys + [k]) == (accounts + Restrict(overlay, keys))[k := overlay[k]]
  {
    assert Restrict(overlay, keys + [k]) == Restrict(overlay, keys)[k := overlay[k]];
  }

  lemma {:induction false} WritesAccounts(store: Store, overlay: Accounts, keys: seq<Bytes>)
    requires forall k | k in keys :: k in overlay
    ensures ApplyOps(store, AccountWrites(overlay, keys))
         == store.(accounts := store.accounts + Restrict(overlay, keys))
  {
    if keys == [] {
      assert store.accounts + Restrict(overlay, keys) == store.accounts;
    } else {
      var front, last := keys[..|keys| - 1], keys[|keys| - 1];
      assert last in keys;
      var k: PublicKey := last;
      WritesAccounts(store, overlay, front);
      var ops, before := AccountWrites(overlay, keys), AccountWrites(overlay, front);
      assert ops == before + [PutAccount(k, overlay[k])];
      assert ops[..|ops| - 1] == before;
      assert keys == front + [k];
      RestrictSnoc(store.accounts, overlay, front, k);
      hide AccountWrites, Restrict;
    }
  }

  lemma OneOp(store: Store, op: BatchOp)
    ensures ApplyOps(store, [op]) == ApplyOp(store, op)
  {
    assert [op][..0] == [];
    assert ApplyOps(store, []) == store;
  }

  // The batch of a block commits its overlay and the new chain state.
  lemma BatchCommits(store: Store, ts: seq<Transaction>, overlay: Accounts, state: ChainState)
    ensures ApplyOps(store, BlockBatch(ts, overlay, state))
         == store.(accounts := store.accounts + overlay, chainState := Some(state))
  {
    SortedEnumerates(overlay.Keys);
    var keys := Sorted(overlay.Keys);
    assert Restrict(overlay, keys) == overlay;
    var deletions, writes, last := Deletions(ts), AccountWrites(overlay, keys), [PutChainState(state)];
    assert BlockBatch(ts, overlay, state) == (deletions + writes) + last;
    WritesAccounts(store, overlay, keys);
    DeletionsOnly(store, ts);
    OneOp(store.(accounts := store.accounts + overlay), PutChainState(state));
    hide ApplyOps, AccountWrites, Deletions, Restrict, Sorted, BlockBatch;
    OpsConcat(store, deletions + writes, last);
    OpsConcat(store, deletions, writes);
  }

  class Storage {
    var accounts: Accounts
    var code: CodeStore
    var contractStorage: map<(ContractId, Bytes), Bytes>
    var blocks: map<Hash, Block>
    var heights: map<u64, Block>
    var chainState: Option<ChainState>
    var txIndex: set<(Hash, Hash, u32)>

    function View(): Store
      reads this
    {
      Store(accounts, code, blocks, heights, chainState, txIndex)
    }

    constructor (accounts: Accounts)
      ensures View() == Store(accounts, map[], map[], map[], None, {}) && contractStorage == map[]
    {
      this.accounts := accounts;
      code, contractStorage, blocks, heights, chainState, txIndex := map[], map[], map[], map[], None, {};
    }

    method GetAccount(key: PublicKey) returns (r: Option<Account>)
      ensures r == if key in accounts then Some(accounts[key]) else None
    {
      r := if key in accounts then Some(accounts[key]) else None;
    }

    method PutContractCode(id: ContractId, wasm: Bytes)
      modifies this`code
      ensures code == old(code)[id := wasm]
    {
      code := code[id := wasm];
    }

    method ContractStorageWrite(id: ContractId, key: Bytes, value: Bytes)
      modifies this`contractStorage
      ensures contractStorage == old(contractStorage)[(id, key) := value]
    {
      contractStorage := contractStorage[(id, key) := value];
    }

    method IndexTransaction(tx: Hash, block: Hash, position: u32)
      modifies this`txIndex
      ensures txIndex == old(txIndex) + {(block, tx, position)}
    {
      txIndex := txIndex + {(block, tx, position)};
    }

    method PutBlock(b: Block)
      modifies this`blocks, this`heights
      ensures View() == Ledger.PutBlock(old(View()), b)
    {
      blocks := blocks[b.hash := b];
      heights := heights[b.index := b];
    }

    method ApplyBatch(ops: seq<BatchOp>)
      modifies this`accounts, this`chainState
      ensures View() == ApplyOps(old(View()), ops)
    {
      var i := 0;
      while i < |ops|
        invariant 0 <= i <= |ops|
        invariant View() == ApplyOps(old(View()), ops[..i])
      {
        assert ops[..i + 1][..i] == ops[..i];
        match ops[i] {
          case DeletePending(_) =>
          case PutAccount(key, account) => accounts := accounts[key := account];
          case PutChainState(state) => chainState := Some(state);
        }
        i := i + 1;
      }
      assert ops[..i] == ops;
    }
  }

  // ---------- contracts ----------

  // "init_payload"
  const INIT_PAYLOAD: Bytes := [105, 110, 105, 116, 95, 112, 97, 121, 108, 111, 97, 100]

  lemma InitPayloadSpelled()
    ensures Text.Spells(INIT_PAYLOAD, "init_payload")
  {
  }

  // Code is stored under the hash of its deployer and itself, at once.
  method DeployContract(env: Env, storage: Storage, deployer: PublicKey, wasm: Bytes, initPayload: Option<Bytes>)
    returns (id: ContractId)
    modifies storage`code, storage`contractStorage
    ensures id == CodeId(env, deployer, wasm) && id == env.digest(deployer + wasm)
    ensures storage.code == old(storage.code)[id := wasm]
    ensures storage.contractStorage
         == match initPayload
            case Some(payload) => old(storage.contractStorage)[(id, INIT_PAYLOAD) := payload]
            case None => old(storage.contractStorage)
  {
    var hasher := new Hasher(env);
    hasher.Update(deployer);
    hasher.Update(wasm);
    assert hasher.fed == deployer + wasm;
    id := hasher.Finalize();
    storage.PutContractCode(id, wasm);
    if initPayload.Some? {
      storage.ContractStorageWrite(id, INIT_PAYLOAD, initPayload.value);
    }
  }

  // ---------- ledger ----------

  class LedgerEngine {
    const env: Env
    const mode: Reads
    const storage: Storage

    constructor (env: Env, mode: Reads, storage: Storage)
      ensures this.env == env && this.mode == mode && this.storage == storage
    {
      this.env, this.mode, this.storage := env, mode, storage;
    }

    method InitializeChain()
      modifies storage
      ensures storage.View() == Ledger.InitializeChain(env, old(storage.View()))
      ensures storage.contractStorage == old(storage.contractStorage)
    {
      if storage.chainState.Some? {
        return;
      }
      var genesis := UNHASHED_GENESIS;
      var hash := CalculateBlockHash(env, genesis);
      genesis := genesis.(hash := hash);
      assert genesis == Genesis(env);
      hide BlockHash;
      var state := ChainState(genesis.hash, 0, ZERO_HASH, 0);
      storage.PutBlock(genesis);
      storage.ApplyBatch([PutChainState(state)]);
      assert [PutChainState(state)][..0] == [];
    }

    method ValidateBlock(b: Block, state: ChainState) returns (r: Result<(), LedgerError>)
      ensures r == Ledger.ValidateBlock(env, storage.blocks, b, state)
    {
      hide BlockHash, VerifySignature, HashesBlock, SenderSigned;
      var expected := Add(env, state.latestIndex, 1, NextIndex);
      if expected.Err? {
        return Err(expected.error);
      }
      if b.index != expected.value {
        return Err(BlockValidation(WrongIndex(expected.value, b.index)));
      }
      if b.prevHash != state.latestHash {
        return Err(BlockValidation(WrongPrevHash));
      }
      var calculated := CalculateBlockHash(env, b);
      if calculated != b.hash {
        return Err(BlockValidation(WrongHash));
      }
      if b.index > 0 {
        if b.prevHash !in storage.blocks {
          return Err(NotFound);
        }
        if b.timestamp <= storage.blocks[b.prevHash].timestamp {
          return Err(BlockValidation(StaleTimestamp));
        }
      }
      var ts := b.transactions;
      var i := 0;
      while i < |ts|
        invariant 0 <= i <= |ts|
        invariant CheckSignatures(env, ts[..i]).Ok?
      {
        assert ts[..i + 1][..i] == ts[..i];
        var ok := Verify(env, ts[i]);
        if !ok {
          SignatureFailureStays(env, ts, i + 1);
          return Err(BlockValidation(BadSignature(ts[i].hash)));
        }
        i := i + 1;
      }
      assert ts[..i] == ts;
      r := Ok(());
    }

    method Find(overlay: Accounts, key: PublicKey) returns (r: Option<Account>)
      ensures r == Ledger.Lookup(mode, storage.accounts, overlay, key)
    {
      if mode.ReadThrough? && key in overlay {
        return Some(overlay[key]);
      }
      r := storage.GetAccount(key);
    }

    // One transaction against the storage and the overlay. A deployment writes its code even
    // though the block may still fail later.
    method Stage(staged: Accounts, t: Transaction) returns (r: Result<Accounts, LedgerError>)
      modifies storage`code, storage`contractStorage
      ensures r == StageTransaction(env, mode, storage.accounts, staged, t)
      ensures storage.code
           == if r.Ok? && t.payload.ContractDeploy?
              then old(storage.code)[CodeId(env, t.sender, t.payload.wasm) := t.payload.wasm]
              else old(storage.code)
      ensures storage.contractStorage == old(storage.contractStorage)
    {
      var overlay := staged;
      var found := Find(overlay, t.sender);
      if found.None? {
        return Err(AccountNotFound(t.sender));
      }
      var sender := found.value;
      var next := Add(env, sender.nonce, 1, NextNonce);
      if next.Err? {
        return Err(next.error);
      }
      if next.value != t.nonce {
        return Err(InvalidNonce(t.sender, next.value, t.nonce));
      }
      sender := sender.(nonce := next.value);
      overlay := overlay[t.sender := sender];
      match t.payload {
        case Transfer(amount) =>
          if !sender.WalletAccount? {
            return Err(StateTransition(SenderNotWallet));
          }
          if sender.balance < amount {
            return Err(InsufficientBalance(t.sender));
          }
          overlay := overlay[t.sender := sender.(balance := sender.balance - amount)];
          assert overlay == staged[t.sender := sender.(balance := sender.balance - amount)];
          if t.recipient.Contract? {
            return Err(StateTransition(TransferToContract));
          }
          r := Credit(overlay, t.recipient.key, amount);
        case ContractDeploy(wasm) =>
          var id := DeployContract(env, storage, t.sender, wasm, None);
          overlay := overlay[t.sender := ContractAccount(id, ZERO_HASH, sender.nonce)];
          assert overlay == staged[t.sender := ContractAccount(id, ZERO_HASH, sender.nonce)];
          r := Ok(overlay);
        case ContractCall(_, _) =>
          r := if t.recipient.Contract? then Ok(overlay) else Err(InvalidTransactionPayload);
        case Data(_) =>
          r := Ok(overlay);
      }
    }

    method Credit(overlay: Accounts, key: PublicKey, amount: u64) returns (r: Result<Accounts, LedgerError>)
      ensures r == StageCredit(env, mode, storage.accounts, overlay, key, amount)
    {
      var found := Find(overlay, key);
      match found {
        case None =>
          r := Ok(overlay[key := WalletAccount(amount, 0)]);
        case Some(ContractAccount(_, _, _)) =>
          r := Err(StateTransition(RecipientNotWallet));
        case Some(WalletAccount(balance, nonce)) =>
          var sum := Add(env, balance, amount, Sum.Credit);
          match sum {
            case Err(e) => r := Err(e);
            case Ok(credited) => r := Ok(overlay[key := WalletAccount(credited, nonce)]);
          }
      }
    }

    method ApplyBlock(b: Block, state: ChainState) returns (r: Result<(), LedgerError>, after: ChainState)
      modifies storage
      ensures (r, storage.View(), after) == Ledger.ApplyBlock(env, mode, old(storage.View()), b, state)
      ensures storage.contractStorage == old(storage.contractStorage)
      ensures r.Err? ==> after == state
      ensures r.Ok? ==> storage.chainState == Some(after)
      ensures r.Ok? ==> after == ChainState(b.hash, b.index, state.accountsRoot, state.totalSupply)
    {
      hide StageTransaction, BlockBatch, ApplyOps, IndexEntries;
      var ts := b.transactions;
      var ops: seq<BatchOp> := [];
      var overlay: Accounts := map[];
      var i := 0;
      while i < |ts|
        invariant 0 <= i <= |ts|
        invariant StageAll(env, mode, old(storage.accounts), ts[..i]) == Done(overlay)
        invariant ops == Deletions(ts[..i])
        invariant storage.View() == old(storage.View()).(code := CodeAfter(env, old(storage.code), ts[..i]))
        invariant storage.contractStorage == old(storage.contractStorage)
      {
        assert ts[..i + 1][..i] == ts[..i];
        var staged := Stage(overlay, ts[i]);
        if staged.Err? {
          StageFailureStays(env, mode, old(storage.accounts), ts, i + 1);
          return Err(staged.error), state;
        }
        overlay := staged.value;
        ops := ops + [DeletePending(ts[i].hash)];
        i := i + 1;
      }
      assert ts[..i] == ts;
      after := state.(latestHash := b.hash, latestIndex := b.index);
      ops := PushUpdates(ops, ts, overlay, after);
      IndexTransactions(b);
      storage.ApplyBatch(ops);
      ghost var written := old(storage.View()).(code := CodeAfter(env, old(storage.code), ts), txIndex := storage.txIndex);
      BatchCommits(written, ts, overlay, after);
      r := Ok(());
    }

    method PushUpdates(ops: seq<BatchOp>, ghost ts: seq<Transaction>, overlay: Accounts, state: ChainState)
      returns (pushed: seq<BatchOp>)
      requires ops == Deletions(ts)
      ensures pushed == BlockBatch(ts, overlay, state)
    {
      hide Sorted, Deletions;
      SortedEnumerates(overlay.Keys);
      var keys := Sorted(overlay.Keys);
      pushed := ops;
      var i := 0;
      while i < |keys|
        invariant 0 <= i <= |keys|
        invariant pushed == ops + AccountWrites(overlay, keys[..i])
      {
        assert keys[i] in keys;
        assert keys[..i + 1][..i] == keys[..i];
        var key: PublicKey := keys[i];
        pushed := pushed + [PutAccount(key, overlay[key])];
        i := i + 1;
      }
      assert keys[..i] == keys;
      pushed := pushed + [PutChainState(state)];
    }

    method IndexTransactions(b: Block)
      modifies storage`txIndex
      ensures storage.txIndex == old(storage.txIndex) + IndexEntries(b, |b.transactions|)
    {
      var i := 0;
      while i < |b.transactions|
        invariant 0 <= i <= |b.transactions|
        invariant storage.txIndex == old(storage.txIndex) + IndexEntries(b, i)
      {
        storage.IndexTransaction(b.transactions[i].hash, b.hash, i % U32_LIMIT);
        i := i + 1;
      }
    }
  }

  // ---------- runtime ----------

  datatype RuntimeError =
    | InvalidSignature
    | NonceTooLow(stored: u64, got: u64)
    | MissingHead
    | ConsensusFailed(consensus: ConsensusError)
    | LedgerFailed(ledger: LedgerError)

  // The nonce a submission is compared with: zero for an account that does not exist.
  function SubmissionNonce(accounts: Accounts, key: PublicKey): u64 {
    if key in accounts then accounts[key].nonce else 0
  }

  // What the pool accepts.
  predicate Acceptable(env: Env, accounts: Accounts, t: Transaction) {
    VerifySignature(env, t) && t.nonce > SubmissionNonce(accounts, t.sender)
  }

  // A nonce above the stored one, whatever the kind of account and however large the gap; above
  // zero for a sender without an account.
  predicate NonceAbove(accounts: Accounts, t: Transaction) {
    if t.sender in accounts then t.nonce > accounts[t.sender].nonce else t.nonce > 0
  }

  lemma AcceptableExact(env: Env, accounts: Accounts, t: Transaction)
    ensures Acceptable(env, accounts, t) <==> SenderSigned(env, t) && NonceAbove(accounts, t)
  {
    VerifiedExact(env, t);
    hide VerifySignature, SenderSigned;
  }

  class Runtime {
    const env: Env
    const ledger: LedgerEngine
    const storage: Storage
    var mempool: seq<Transaction>
    var chainState: ChainState

    ghost predicate Valid()
      reads this
    {
      ledger.env == env && ledger.storage == storage
    }

    constructor (env: Env, mode: Reads, storage: Storage)
      modifies storage
      ensures Valid() && this.env == env && this.storage == storage && ledger.mode == mode && fresh(ledger)
      ensures mempool == [] && storage.View() == Ledger.InitializeChain(env, old(storage.View()))
      ensures storage.chainState == Some(chainState)
    {
      this.env, this.storage := env, storage;
      this.ledger := new LedgerEngine(env, mode, storage);
      this.mempool := [];
      new;
      ledger.InitializeChain();
      chainState := storage.chainState.value;
    }

    method SubmitTransaction(t: Transaction) returns (r: Result<(), RuntimeError>)
      requires Valid()
      modifies this`mempool
      ensures r.Ok? <==> Acceptable(env, storage.accounts, t)
      ensures r.Ok? <==> SenderSigned(env, t) && NonceAbove(storage.accounts, t)
      ensures r == Err(InvalidSignature) <==> !SenderSigned(env, t)
      ensures r.Err? && SenderSigned(env, t) ==>
        r == Err(NonceTooLow(if t.sender in storage.accounts then storage.accounts[t.sender].nonce else 0, t.nonce))
      ensures mempool == if r.Ok? then old(mempool) + [t] else old(mempool)
    {
      AcceptableExact(env, storage.accounts, t);
      hide SenderSigned;
      var ok := Verify(env, t);
      if !ok {
        return Err(InvalidSignature);
      }
      var stored := SubmissionNonce(storage.accounts, t.sender);
      if t.nonce <= stored {
        return Err(NonceTooLow(stored, t.nonce));
      }
      mempool := mempool + [t];
      r := Ok(());
    }

    // A successful production commits one block of the whole pool and empties it; a failed one
    // leaves the pool as it was.
    method ProduceBlock() returns (r: Result<Block, RuntimeError>)
      requires Valid()
      modifies this`mempool, this`chainState, storage
      ensures Valid()
      ensures r.Ok? ==> chainState.latestHash == r.value.hash && r.value.transactions == old(mempool)
      ensures mempool == if r.Ok? then [] else old(mempool)
      ensures old(mempool) == [] || old(chainState.latestHash !in storage.blocks)
          ==> r.Err? && storage.View() == old(storage.View()) && chainState == old(chainState)
      ensures old(mempool) != [] && old(chainState.latestHash in storage.blocks) ==>
        match GenerateBlock(env, old(mempool), old(storage.blocks[chainState.latestHash])) {
          case Err(e) =>
            r == Err(ConsensusFailed(e)) && storage.View() == old(storage.View()) && chainState == old(chainState)
          case Ok(b) =>
            Run(storage.View(), chainState, if r.Ok? then [b] else [])
              == Attempt(env, ledger.mode, Run(old(storage.View()), old(chainState), []), b)
            && (r.Ok? ==> r.value == b)
        }
    {
      if mempool == [] {
        return Err(ConsensusFailed(NoPendingTransactions));
      }
      if chainState.latestHash !in storage.blocks {
        return Err(MissingHead);
      }
      var generated := GenerateBlock(env, mempool, storage.blocks[chainState.latestHash]);
      if generated.Err? {
        return Err(ConsensusFailed(generated.error));
      }
      var b := generated.value;
      hide GenerateBlock, BlockHash;
      var valid := ledger.ValidateBlock(b, chainState);
      if valid.Err? {
        return Err(LedgerFailed(valid.error));
      }
      var result, after := ledger.ApplyBlock(b, chainState);
      chainState := after;
      if result.Err? {
        return Err(LedgerFailed(result.error));
      }
      storage.PutBlock(b);
      mempool := [];
      r := Ok(b);
    }
  }
}
