/** The same runs on the trees of the storage: every write puts bytes into the tree it is for, and
    every read decodes what is there. A run on the trees represents the run on maps. */
module Refinement {
  import opened Bytes
  import opened Types
  import opened Codec
  import opened Indexes
  import Sled = SledStorage
  import RoundTrip
  import Hashing
  import Ledger
  import Batch
  import Engine
  import Chain
  import Commits

  datatype Trees = Trees(blocks: Tree, accounts: Tree, code: Tree, chainState: Tree, txByBlock: Tree)

  // ---------- what the getters find ----------

  ghost predicate BlocksHeld(rules: Rules, tree: Tree, blocks: map<Hash, Block>, heights: map<u64, Block>) {
    && (forall hash: Hash :: Answers(rules, LookupBlock(rules, tree, hash), At(blocks, hash)))
    && (forall height: u64 :: Answers(rules, LookupBlock(rules, tree, HeightKey(height)), At(heights, height)))
  }

  ghost predicate AccountsHeld(tree: Tree, accounts: Ledger.Accounts) {
    && (forall key: PublicKey | key in tree :: ReadAccount(tree[key]).Done?)
    && Sled.AccountsOf(tree) == accounts
  }

  ghost predicate IndexHeld(tree: Tree, entries: set<(Hash, Hash, u32)>) {
    forall block: Hash, tx: Hash, position: u32 ::
      At(tree, IndexKey(block, tx, position)) == if (block, tx, position) in entries then Some(tx) else None
  }

  // The trees answer every getter as the maps of the store do.
  ghost predicate Represents(rules: Rules, trees: Trees, store: Ledger.Store) {
    && BlocksHeld(rules, trees.blocks, store.blocks, store.heights)
    && AccountsHeld(trees.accounts, store.accounts)
    && trees.code == store.code
    && Sled.DecodeState(trees.chainState) == Ok(store.chainState)
    && IndexHeld(trees.txByBlock, store.txIndex)
  }

  lemma SameMap<K(!new), V>(a: map<K, V>, b: map<K, V>)
    requires forall key: K :: At(a, key) == At(b, key)
    ensures a == b
  {
    forall key: K ensures key in a <==> key in b {
      assert At(a, key) == At(b, key);
    }
    forall key | key in a ensures a[key] == b[key] {
      assert At(a, key) == At(b, key);
    }
  }

  // With keys that are read as they are written, trees represent one store only.
  lemma RepresentsOne(rules: Rules, trees: Trees, a: Ledger.Store, b: Ledger.Store)
    requires rules.keys.Prefixed? && Represents(rules, trees, a) && Represents(rules, trees, b)
    ensures a == b
  {
    hide LookupBlock, IndexKey, HeightKey;
    forall hash: Hash ensures At(a.blocks, hash) == At(b.blocks, hash) {
      var r := LookupBlock(rules, trees.blocks, hash);
      assert Answers(rules, r, At(a.blocks, hash)) && Answers(rules, r, At(b.blocks, hash));
    }
    forall height: u64 ensures At(a.heights, height) == At(b.heights, height) {
      var r := LookupBlock(rules, trees.blocks, HeightKey(height));
      assert Answers(rules, r, At(a.heights, height)) && Answers(rules, r, At(b.heights, height));
    }
    SameMap(a.blocks, b.blocks);
    SameMap(a.heights, b.heights);
    forall e: (Hash, Hash, u32) ensures e in a.txIndex <==> e in b.txIndex {
      var _ := At(trees.txByBlock, IndexKey(e.0, e.1, e.2));
    }
  }

  // ---------- writes ----------

  function PutBlock(trees: Trees, b: Block): Trees {
    trees.(blocks := Indexes.PutBlock(trees.blocks, b))
  }

  // One operation of a batch, sent to the tree it is for.
  function ApplyOp(trees: Trees, op: Batch.BatchOp): Trees {
    match op
    case DeletePending(_) => trees
    case PutAccount(key, account) => trees.(accounts := trees.accounts[key := EncAccount(account)])
    case PutChainState(state) => trees.(chainState := trees.chainState[Batch.CURRENT := EncChainState(state)])
  }

  function ApplyOps(trees: Trees, ops: seq<Batch.BatchOp>): Trees {
    if ops == [] then trees else ApplyOp(ApplyOps(trees, ops[..|ops| - 1]), ops[|ops| - 1])
  }

  function TreesOf(storage: Sled.SledStorage): Trees
    reads storage
  {
    Trees(storage.blocksTree, storage.accountsTree, storage.contractCodeTree, storage.chainStateTree, storage.txByBlockTree)
  }

  // The batch in its repaired form, on the storage object: each operation goes through the
  // setter it is for.
  method RouteBatch(storage: Sled.SledStorage, ops: seq<Batch.BatchOp>)
    modifies storage`accountsTree, storage`chainStateTree
    ensures TreesOf(storage) == ApplyOps(old(TreesOf(storage)), ops)
  {
    hide EncAccount, EncChainState, Sled.AccountsOf, Sled.DecodeState;
    var i := 0;
    while i < |ops|
      invariant 0 <= i <= |ops|
      invariant TreesOf(storage) == ApplyOps(old(TreesOf(storage)), ops[..i])
    {
      assert ops[..i + 1][..i] == ops[..i];
      match ops[i] {
        case DeletePending(_) =>
        case PutAccount(key, account) => storage.PutAccount(key, account);
        case PutChainState(state) => storage.PutChainState(state);
      }
      i := i + 1;
    }
    assert ops[..i] == ops;
  }

  function CodeAfter(env: Env, code: Tree, ts: seq<Transaction>): Tree {
    if ts == [] then code
    else
      var before := CodeAfter(env, code, ts[..|ts| - 1]);
      var t := ts[|ts| - 1];
      if t.payload.ContractDeploy? then before[Ledger.CodeId(env, t.sender, t.payload.wasm) := t.payload.wasm] else before
  }

  function IndexBlock(tree: Tree, b: Block, n: nat): Tree
    requires n <= |b.transactions|
  {
    if n == 0 then tree
    else
      var tx := b.transactions[n - 1].hash;
      IndexBlock(tree, b, n - 1)[IndexKey(b.hash, tx, (n - 1) % U32_LIMIT) := tx]
  }

  // A block that a reader of stored bytes accepts at all: with keys read as written, every one.
  predicate Decodes(rules: Rules, b: Block) {
    DecodeBlock(rules, EncBlock(b)).Ok?
  }

  lemma ReadableDecodes(rules: Rules, b: Block)
    requires ValidBlock(rules, b) && RoundTrip.Readable(rules, b)
    ensures Decodes(rules, b)
  {
    hide EncBlock, DecodeBlock, ValidBlock, RoundTrip.Readable;
    DecodeEncoded(rules, b);
  }

  // A non-empty block that starts with a transaction a bare reader cannot get past.
  predicate StartsUnparsable(rules: Rules, b: Block) {
    0 < |b.transactions| < U64_LIMIT && RoundTrip.Unparsable(rules, b.transactions[0])
  }

  lemma UnparsableUndecodable(rules: Rules, b: Block)
    requires StartsUnparsable(rules, b)
    ensures !Decodes(rules, b)
  {
    hide EncBlock, ReadBlock, RoundTrip.Unparsable;
    RoundTrip.UnparsableBlock(rules, b, []);
    assert EncBlock(b) + [] == EncBlock(b);
  }

  lemma BlockHeld(rules: Rules, tree: Tree, blocks: map<Hash, Block>, heights: map<u64, Block>, b: Block)
    requires BlocksHeld(rules, tree, blocks, heights) && ValidBlock(rules, b)
    ensures BlocksHeld(rules, Indexes.PutBlock(tree, b), blocks[b.hash := b], heights[b.index := b])
  {
    hide EncBlock, DecodeBlock, HeightKey, ValidBlock, RoundTrip.Readable, HeaderOf;
    DecodeEncoded(rules, b);
    var after := Indexes.PutBlock(tree, b);
    HeightKeyOrder(b.index, b.index);
    forall hash: Hash ensures Answers(rules, LookupBlock(rules, after, hash), At(blocks[b.hash := b], hash)) {
      assert Answers(rules, LookupBlock(rules, tree, hash), At(blocks, hash));
    }
    forall height: u64
      ensures Answers(rules, LookupBlock(rules, after, HeightKey(height)), At(heights[b.index := b], height))
    {
      assert Answers(rules, LookupBlock(rules, tree, HeightKey(height)), At(heights, height));
      HeightKeyOrder(height, b.index);
    }
  }

  lemma AccountHeld(tree: Tree, accounts: Ledger.Accounts, key: PublicKey, account: Account)
    requires AccountsHeld(tree, accounts)
    ensures AccountsHeld(tree[key := EncAccount(account)], accounts[key := account])
  {
    Sled.AccountDecodes(account);
    hide ReadAccount, EncAccount;
  }

  lemma StateHeld(tree: Tree, state: ChainState)
    ensures Sled.DecodeState(tree[Batch.CURRENT := EncChainState(state)]) == Ok(Some(state))
  {
    Sled.StateDecodes(state);
    hide ReadChainState, EncChainState;
  }

  lemma EntryHeld(tree: Tree, entries: set<(Hash, Hash, u32)>, block: Hash, tx: Hash, position: u32)
    requires IndexHeld(tree, entries)
    ensures IndexHeld(tree[IndexKey(block, tx, position) := tx], entries + {(block, tx, position)})
  {
    hide IndexKey;
    var after, more := tree[IndexKey(block, tx, position) := tx], entries + {(block, tx, position)};
    forall b: Hash, t: Hash, p: u32
      ensures At(after, IndexKey(b, t, p)) == if (b, t, p) in more then Some(t) else None
    {
      assert At(tree, IndexKey(b, t, p)) == if (b, t, p) in entries then Some(t) else None;
      if IndexKey(b, t, p) == IndexKey(block, tx, position) {
        IndexKeyInjective((b, t, p), (block, tx, position));
      }
    }
  }

  lemma EntriesNext(b: Block, n: nat)
    requires n < |b.transactions|
    ensures Ledger.IndexEntries(b, n + 1) == Ledger.IndexEntries(b, n) + {(b.hash, b.transactions[n].hash, n % U32_LIMIT)}
  {
  }

  lemma {:induction false} IndexedBlockHeld(tree: Tree, entries: set<(Hash, Hash, u32)>, b: Block, n: nat)
    requires IndexHeld(tree, entries) && n <= |b.transactions|
    ensures IndexHeld(IndexBlock(tree, b, n), entries + Ledger.IndexEntries(b, n))
  {
    hide IndexKey, IndexHeld;
    if n == 0 {
      assert entries + Ledger.IndexEntries(b, 0) == entries;
    } else {
      var before := entries + Ledger.IndexEntries(b, n - 1);
      IndexedBlockHeld(tree, entries, b, n - 1);
      EntryHeld(IndexBlock(tree, b, n - 1), before, b.hash, b.transactions[n - 1].hash, (n - 1) % U32_LIMIT);
      EntriesNext(b, n - 1);
      hide Ledger.IndexEntries;
      assert entries + Ledger.IndexEntries(b, n)
          == before + {(b.hash, b.transactions[n - 1].hash, (n - 1) % U32_LIMIT)};
    }
  }

  lemma OpHeld(rules: Rules, trees: Trees, store: Ledger.Store, op: Batch.BatchOp)
    requires Represents(rules, trees, store)
    ensures Represents(rules, ApplyOp(trees, op), Engine.ApplyOp(store, op))
  {
    hide BlocksHeld, AccountsHeld, IndexHeld, Sled.DecodeState, EncAccount, EncChainState;
    match op
    case DeletePending(_) =>
    case PutAccount(key, account) => AccountHeld(trees.accounts, store.accounts, key, account);
    case PutChainState(state) => StateHeld(trees.chainState, state);
  }

  lemma {:induction false} OpsHeld(rules: Rules, trees: Trees, store: Ledger.Store, ops: seq<Batch.BatchOp>)
    requires Represents(rules, trees, store)
    ensures Represents(rules, ApplyOps(trees, ops), Engine.ApplyOps(store, ops))
  {
    hide Represents, ApplyOp, Engine.ApplyOp;
    if ops != [] {
      OpsHeld(rules, trees, store, ops[..|ops| - 1]);
      OpHeld(rules, ApplyOps(trees, ops[..|ops| - 1]), Engine.ApplyOps(store, ops[..|ops| - 1]), ops[|ops| - 1]);
    }
  }

  lemma {:induction false} CodeHeld(env: Env, tree: Tree, code: Ledger.CodeStore, ts: seq<Transaction>)
    requires tree == code
    ensures CodeAfter(env, tree, ts) == Ledger.CodeAfter(env, code, ts)
  {
    if ts != [] {
      CodeHeld(env, tree, code, ts[..|ts| - 1]);
    }
  }

  // ---------- one block on the trees ----------

  // Validation that decodes the previous block; an outer error is one of decoding.
  function Validate(env: Env, blocks: Tree, b: Block, state: ChainState): Result<Result<(), Ledger.LedgerError>, StorageError> {
    match Ledger.Add(env, state.latestIndex, 1, Ledger.NextIndex)
    case Err(e) => Ok(Err(e))
    case Ok(expected) =>
      if b.index != expected then Ok(Err(Ledger.BlockValidation(Ledger.WrongIndex(expected, b.index))))
      else if b.prevHash != state.latestHash then Ok(Err(Ledger.BlockValidation(Ledger.WrongPrevHash)))
      else if Hashing.BlockHash(env, b) != b.hash then Ok(Err(Ledger.BlockValidation(Ledger.WrongHash)))
      else if b.index == 0 then Ok(Ledger.CheckSignatures(env, b.transactions))
      else
        var found :- LookupBlock(env.rules, blocks, b.prevHash);
        if found.None? then Ok(Err(Ledger.NotFound))
        else if b.timestamp <= found.value.timestamp then Ok(Err(Ledger.BlockValidation(Ledger.StaleTimestamp)))
        else Ok(Ledger.CheckSignatures(env, b.transactions))
  }

  // Validation reads nothing but the head, and of it the header only: when the head decodes, the
  // verdict is that on the store, with either reader of keys.
  lemma ValidateHeld(env: Env, tree: Tree, blocks: map<Hash, Block>, heights: map<u64, Block>, b: Block, state: ChainState)
    requires BlocksHeld(env.rules, tree, blocks, heights)
    ensures LookupBlock(env.rules, tree, state.latestHash).Ok? ==> Validate(env, tree, b, state).Ok?
    ensures Validate(env, tree, b, state).Ok?
        ==> Validate(env, tree, b, state) == Ok(Ledger.ValidateBlock(env, blocks, b, state))
  {
    hide LookupBlock, RoundTrip.Readable, Hashing.BlockHash, Ledger.CheckSignatures;
    assert Answers(env.rules, LookupBlock(env.rules, tree, b.prevHash), At(blocks, b.prevHash));
  }

  function ApplyBlock(env: Env, mode: Ledger.Reads, trees: Trees, b: Block, state: ChainState)
    : (Result<(), Ledger.LedgerError>, Trees, ChainState)
  {
    match Ledger.StageAll(env, mode, Sled.AccountsOf(trees.accounts), b.transactions)
    case Failed(e, k) =>
      (Err(e), trees.(code := CodeAfter(env, trees.code, b.transactions[..k])), state)
    case Done(overlay) =>
      var after := state.(latestHash := b.hash, latestIndex := b.index);
      var deployed := trees.(code := CodeAfter(env, trees.code, b.transactions));
      var committed := ApplyOps(deployed, Batch.BlockBatch(b.transactions, overlay, after));
      (Ok(()), committed.(txByBlock := IndexBlock(committed.txByBlock, b, |b.transactions|)), after)
  }

  lemma ApplyHeld(env: Env, mode: Ledger.Reads, trees: Trees, store: Ledger.Store, b: Block, state: ChainState)
    requires Represents(env.rules, trees, store)
    ensures var (result, after, state') := ApplyBlock(env, mode, trees, b, state);
      var (expected, store', expected') := Ledger.ApplyBlock(env, mode, store, b, state);
      result == expected && state' == expected' && Represents(env.rules, after, store')
  {
    hide BlocksHeld, IndexHeld, Sled.AccountsOf, Sled.DecodeState, CodeAfter, Ledger.CodeAfter, Ledger.StageAll, IndexBlock,
         Ledger.IndexEntries, ApplyOps, Engine.ApplyOps, Batch.BlockBatch;
    var ts := b.transactions;
    match Ledger.StageAll(env, mode, store.accounts, ts)
    case Failed(_, k) => CodeHeld(env, trees.code, store.code, ts[..k]);
    case Done(overlay) =>
      var after := state.(latestHash := b.hash, latestIndex := b.index);
      var ops := Batch.BlockBatch(ts, overlay, after);
      CodeHeld(env, trees.code, store.code, ts);
      var deployed, code := trees.(code := CodeAfter(env, trees.code, ts)), store.(code := Ledger.CodeAfter(env, store.code, ts));
      OpsHeld(env.rules, deployed, code, ops);
      Engine.BatchCommits(code, ts, overlay, after);
      IndexedBlockHeld(ApplyOps(deployed, ops).txByBlock, store.txIndex, b, |ts|);
  }

  // ---------- runs on the trees ----------

  datatype TreeRun = TreeRun(trees: Trees, state: ChainState, applied: seq<Block>)

  function Start(env: Env, accounts: Tree): TreeRun {
    var genesis := PutBlock(Trees(map[], accounts, map[], map[], map[]), Ledger.Genesis(env));
    TreeRun(ApplyOp(genesis, Batch.PutChainState(Ledger.InitialChainState(env))), Ledger.InitialChainState(env), [])
  }

  function Attempt(env: Env, mode: Ledger.Reads, r: TreeRun, b: Block): TreeRun {
    var verdict := Validate(env, r.trees.blocks, b, r.state);
    if verdict.Err? || verdict.value.Err? then r
    else
      var (result, trees, state) := ApplyBlock(env, mode, r.trees, b, r.state);
      if result.Err? then TreeRun(trees, state, r.applied)
      else TreeRun(PutBlock(trees, b), state, r.applied + [b])
  }

  function RunAll(env: Env, mode: Ledger.Reads, accounts: Tree, attempts: seq<Block>): TreeRun {
    if attempts == [] then Start(env, accounts)
    else
      var last := |attempts| - 1;
      Attempt(env, mode, RunAll(env, mode, accounts, attempts[..last]), attempts[last])
  }

  ghost predicate Refines(rules: Rules, r: TreeRun, s: Chain.Run) {
    r.state == s.state && r.applied == s.applied && Represents(rules, r.trees, s.store)
  }

  lemma GenesisValid(env: Env)
    ensures ValidBlock(env.rules, Ledger.Genesis(env)) && RoundTrip.Readable(env.rules, Ledger.Genesis(env))
  {
    hide Hashing.BlockHash;
  }

  lemma StartRefines(env: Env, accounts: Tree)
    requires AccountsHeld(accounts, Sled.AccountsOf(accounts))
    ensures Refines(env.rules, Start(env, accounts), Chain.Start(env, Sled.AccountsOf(accounts)))
  {
    hide EncBlock, DecodeBlock, IndexKey, HeightKey, EncChainState, Sled.DecodeState, HeaderOf, Ledger.Genesis;
    var genesis := Ledger.Genesis(env);
    GenesisValid(env);
    ReadableDecodes(env.rules, genesis);
    assert BlocksHeld(env.rules, map[], map[], map[]);
    BlockHeld(env.rules, map[], map[], map[], genesis);
    StateHeld(map[], Ledger.InitialChainState(env));
  }

  lemma AttemptRefines(env: Env, mode: Ledger.Reads, r: TreeRun, s: Chain.Run, b: Block)
    requires Refines(env.rules, r, s) && ValidBlock(env.rules, b)
    requires LookupBlock(env.rules, r.trees.blocks, r.state.latestHash).Ok?
    ensures Refines(env.rules, Attempt(env, mode, r, b), Chain.Attempt(env, mode, s, b))
  {
    hide BlocksHeld, AccountsHeld, IndexHeld, Sled.DecodeState, Validate, Ledger.ValidateBlock, ApplyBlock, Ledger.ApplyBlock,
         ValidBlock, Indexes.PutBlock, LookupBlock;
    ValidateHeld(env, r.trees.blocks, s.store.blocks, s.store.heights, b, s.state);
    ApplyHeld(env, mode, r.trees, s.store, b, s.state);
    var (_, trees, _) := ApplyBlock(env, mode, r.trees, b, r.state);
    var (_, store, _) := Ledger.ApplyBlock(env, mode, s.store, b, s.state);
    BlockHeld(env.rules, trees.blocks, store.blocks, store.heights, b);
  }

  function ChainOf(env: Env, r: TreeRun): (chain: seq<Block>)
    ensures |chain| == |r.applied| + 1
  {
    [Ledger.Genesis(env)] + r.applied
  }

  function HeadOf(env: Env, r: TreeRun): Block {
    ChainOf(env, r)[|r.applied|]
  }

  // ---------- blocks that do not decode ----------

  // No block is validated on a head that does not decode.
  lemma UndecodableHeadStops(env: Env, mode: Ledger.Reads, r: TreeRun, b: Block)
    requires LookupBlock(env.rules, r.trees.blocks, r.state.latestHash).Err?
    requires env.overflowChecks || r.state.latestIndex + 1 < U64_LIMIT
    ensures Attempt(env, mode, r, b) == r
  {
    hide LookupBlock, ApplyBlock, Hashing.BlockHash, Ledger.CheckSignatures;
  }

  lemma {:induction false} OpsKeepBlocks(trees: Trees, ops: seq<Batch.BatchOp>)
    ensures ApplyOps(trees, ops).blocks == trees.blocks
  {
    if ops != [] {
      OpsKeepBlocks(trees, ops[..|ops| - 1]);
    }
  }

  lemma AttemptBlocks(env: Env, mode: Ledger.Reads, r: TreeRun, b: Block)
    ensures var next := Attempt(env, mode, r, b);
      || (next.applied == r.applied && next.trees.blocks == r.trees.blocks && next.state == r.state)
      || (next.applied == r.applied + [b] && next.trees.blocks == Indexes.PutBlock(r.trees.blocks, b)
          && next.state.latestHash == b.hash && next.state.latestIndex == b.index)
  {
    hide Validate, Ledger.StageAll, CodeAfter, IndexBlock, Batch.BlockBatch, Indexes.PutBlock, ApplyOps;
    match Ledger.StageAll(env, mode, Sled.AccountsOf(r.trees.accounts), b.transactions)
    case Failed(_, _) =>
    case Done(overlay) =>
      var after := r.state.(latestHash := b.hash, latestIndex := b.index);
      OpsKeepBlocks(r.trees.(code := CodeAfter(env, r.trees.code, b.transactions)),
                    Batch.BlockBatch(b.transactions, overlay, after));
  }

  lemma PutIsFound(rules: Rules, tree: Tree, b: Block)
    ensures LookupBlock(rules, Indexes.PutBlock(tree, b), b.hash) == DecodeBlock(rules, EncBlock(b))
  {
    hide EncBlock, DecodeBlock, HeightKey;
    HeightKeyOrder(b.index, b.index);
  }

  // What a lookup of the head decodes is the last committed block, or genesis.
  lemma {:induction false} HeadStored(env: Env, mode: Ledger.Reads, accounts: Tree, attempts: seq<Block>)
    ensures var r := RunAll(env, mode, accounts, attempts);
      && LookupBlock(env.rules, r.trees.blocks, r.state.latestHash) == DecodeBlock(env.rules, EncBlock(HeadOf(env, r)))
      && r.state.latestIndex == HeadOf(env, r).index
  {
    hide LookupBlock, EncBlock, DecodeBlock, Indexes.PutBlock, Attempt, Hashing.BlockHash;
    if attempts == [] {
      PutIsFound(env.rules, map[], Ledger.Genesis(env));
    } else {
      hide Ledger.Genesis, Start;
      var last := |attempts| - 1;
      var before := RunAll(env, mode, accounts, attempts[..last]);
      HeadStored(env, mode, accounts, attempts[..last]);
      AttemptBlocks(env, mode, before, attempts[last]);
      PutIsFound(env.rules, before.trees.blocks, attempts[last]);
    }
  }

  lemma GenesisDecodes(env: Env)
    ensures Decodes(env.rules, Ledger.Genesis(env))
  {
    hide Decodes, Ledger.Genesis;
    GenesisValid(env);
    ReadableDecodes(env.rules, Ledger.Genesis(env));
  }

  // Once a block has been committed whose bytes do not decode, no further attempt ever changes
  // anything.
  lemma {:induction false} UndecodableIsLast(env: Env, mode: Ledger.Reads, accounts: Tree, front: seq<Block>, b: Block,
                                             more: seq<Block>)
    requires RunAll(env, mode, accounts, front + [b]).applied != RunAll(env, mode, accounts, front).applied
    requires !Decodes(env.rules, b)
    requires env.overflowChecks || b.index + 1 < U64_LIMIT
    ensures RunAll(env, mode, accounts, (front + [b]) + more) == RunAll(env, mode, accounts, front + [b])
  {
    hide Attempt, LookupBlock, DecodeBlock, EncBlock, Ledger.Genesis, Start;
    assert (front + [b])[..|front|] == front;
    var r := RunAll(env, mode, accounts, front + [b]);
    AttemptBlocks(env, mode, RunAll(env, mode, accounts, front), b);
    HeadStored(env, mode, accounts, front + [b]);
    assert HeadOf(env, r) == b;
    if more == [] {
      assert (front + [b]) + more == front + [b];
    } else {
      var last := |more| - 1;
      var all := (front + [b]) + more;
      assert all[..|all| - 1] == (front + [b]) + more[..last] && all[|all| - 1] == more[last];
      UndecodableIsLast(env, mode, accounts, front, b, more[..last]);
      UndecodableHeadStops(env, mode, r, more[last]);
    }
  }

  // With the source's reader that is every block that starts with a key it takes wrongly or with
  // a timestamp in seconds.
  lemma UnparsableIsLast(env: Env, mode: Ledger.Reads, accounts: Tree, front: seq<Block>, b: Block, more: seq<Block>)
    requires RunAll(env, mode, accounts, front + [b]).applied != RunAll(env, mode, accounts, front).applied
    requires StartsUnparsable(env.rules, b)
    requires env.overflowChecks || b.index + 1 < U64_LIMIT
    ensures RunAll(env, mode, accounts, (front + [b]) + more) == RunAll(env, mode, accounts, front + [b])
  {
    hide RunAll, Decodes, StartsUnparsable;
    UnparsableUndecodable(env.rules, b);
    UndecodableIsLast(env, mode, accounts, front, b, more);
  }

  // So a run of such blocks commits at most one of them.
  lemma {:induction false} UnparsableCommitsOnce(env: Env, mode: Ledger.Reads, accounts: Tree, attempts: seq<Block>)
    requires forall b | b in attempts :: StartsUnparsable(env.rules, b)
    ensures |RunAll(env, mode, accounts, attempts).applied| <= 1
    ensures RunAll(env, mode, accounts, attempts).state.latestIndex <= 1
  {
    hide Attempt, LookupBlock, DecodeBlock, EncBlock, StartsUnparsable, Hashing.BlockHash, Validate;
    if attempts != [] {
      var last := |attempts| - 1;
      var before, b := RunAll(env, mode, accounts, attempts[..last]), attempts[last];
      UnparsableCommitsOnce(env, mode, accounts, attempts[..last]);
      HeadStored(env, mode, accounts, attempts[..last]);
      RunApplies(env, mode, accounts, attempts[..last]);
      hide RunAll, Ledger.Genesis;
      if before.applied == [] {
        AttemptBlocks(env, mode, before, b);
        NextIndexed(env, mode, before, b);
      } else {
        assert HeadOf(env, before) == before.applied[0];
        UnparsableUndecodable(env.rules, before.applied[0]);
        UndecodableHeadStops(env, mode, before, b);
      }
    }
  }

  lemma NextIndexed(env: Env, mode: Ledger.Reads, r: TreeRun, b: Block)
    requires r.state.latestIndex + 1 < U64_LIMIT
    ensures Attempt(env, mode, r, b).state.latestIndex in {r.state.latestIndex, r.state.latestIndex + 1}
  {
    hide ApplyOps, CodeAfter, Ledger.StageAll, LookupBlock, Hashing.BlockHash, Ledger.CheckSignatures, IndexBlock, Batch.BlockBatch;
  }

  lemma {:induction false} RunApplies(env: Env, mode: Ledger.Reads, accounts: Tree, attempts: seq<Block>)
    ensures forall b | b in RunAll(env, mode, accounts, attempts).applied :: b in attempts
  {
    if attempts != [] {
      var last := |attempts| - 1;
      RunApplies(env, mode, accounts, attempts[..last]);
      AttemptBlocks(env, mode, RunAll(env, mode, accounts, attempts[..last]), attempts[last]);
      hide Attempt, Start;
    }
  }

  // ---------- whole runs ----------

  // No block index starts over while a head does not decode.
  ghost predicate Unwrapped(env: Env, attempts: seq<Block>) {
    env.overflowChecks || |attempts| < U64_LIMIT || forall b | b in attempts :: Decodes(env.rules, b)
  }

  // All committed blocks but the last decode, and the last one too while the run goes on.
  ghost predicate DecodesTo(rules: Rules, applied: seq<Block>, on: bool) {
    && (forall k | 0 <= k < |applied| - 1 :: Decodes(rules, applied[k]))
    && (!on ==> applied != [] && !Decodes(rules, applied[|applied| - 1]))
  }

  // The run on the trees is the run on maps of the first n attempts: all of them, or those up to
  // the first committed block that does not decode.
  ghost predicate RunsTo(env: Env, mode: Ledger.Reads, accounts: Tree, attempts: seq<Block>, n: nat) {
    && n <= |attempts|
    && Refines(env.rules, RunAll(env, mode, accounts, attempts),
               Chain.RunAll(env, mode, Sled.AccountsOf(accounts), attempts[..n]))
    && DecodesTo(env.rules, RunAll(env, mode, accounts, attempts).applied, n == |attempts|)
  }

  // The head does not decode exactly when it is the committed block that stops the run.
  lemma HeadDecides(env: Env, r: TreeRun, on: bool)
    requires DecodesTo(env.rules, r.applied, on)
    ensures Decodes(env.rules, HeadOf(env, r)) ==> on
    ensures !Decodes(env.rules, HeadOf(env, r)) ==> r.applied != [] && HeadOf(env, r) == r.applied[|r.applied| - 1]
  {
    hide Decodes, Ledger.Genesis;
    if r.applied == [] {
      GenesisDecodes(env);
      assert HeadOf(env, r) == Ledger.Genesis(env);
    }
  }

  lemma GoesOn(env: Env, mode: Ledger.Reads, accounts: Tree, front: seq<Block>, b: Block)
    requires RunsTo(env, mode, accounts, front, |front|) && ValidBlock(env.rules, b)
    requires Decodes(env.rules, HeadOf(env, RunAll(env, mode, accounts, front)))
    ensures RunsTo(env, mode, accounts, front + [b], |front| + 1)
  {
    hide Refines, Attempt, Chain.Attempt, Start, Chain.Start, ValidBlock, Decodes, Sled.AccountsOf, Ledger.Genesis;
    var r, attempts := RunAll(env, mode, accounts, front), front + [b];
    assert front[..|front|] == front && attempts[..|attempts|] == attempts && attempts[..|attempts| - 1] == front;
    HeadFound(env, mode, accounts, front);
    AttemptRefines(env, mode, r, Chain.RunAll(env, mode, Sled.AccountsOf(accounts), front), b);
    AttemptBlocks(env, mode, r, b);
    hide RunAll, Chain.RunAll;
    if Attempt(env, mode, r, b).applied != r.applied {
      DecodesSnoc(env, r, b);
    }
  }

  lemma HeadFound(env: Env, mode: Ledger.Reads, accounts: Tree, attempts: seq<Block>)
    ensures var r := RunAll(env, mode, accounts, attempts);
      LookupBlock(env.rules, r.trees.blocks, r.state.latestHash).Ok? <==> Decodes(env.rules, HeadOf(env, r))
  {
    hide RunAll, LookupBlock, DecodeBlock, HeadOf;
    HeadStored(env, mode, accounts, attempts);
  }

  lemma DecodesSnoc(env: Env, r: TreeRun, b: Block)
    requires DecodesTo(env.rules, r.applied, true) && Decodes(env.rules, HeadOf(env, r))
    ensures DecodesTo(env.rules, r.applied + [b], true)
  {
    hide Decodes, Ledger.Genesis;
  }

  lemma StaysPut(env: Env, mode: Ledger.Reads, accounts: Tree, front: seq<Block>, b: Block, n: nat)
    requires RunsTo(env, mode, accounts, front, n)
    requires !Decodes(env.rules, HeadOf(env, RunAll(env, mode, accounts, front)))
    requires env.overflowChecks || |front| + 1 < U64_LIMIT
    ensures RunsTo(env, mode, accounts, front + [b], n)
  {
    hide Refines, Attempt, Start, ValidBlock, Decodes, Sled.AccountsOf, HeadOf, Chain.RunAll;
    var attempts := front + [b];
    assert attempts[..|attempts| - 1] == front && front[..n] == attempts[..n];
    HeadFound(env, mode, accounts, front);
    LiveIndex(env, mode, accounts, front, n);
    UndecodableHeadStops(env, mode, RunAll(env, mode, accounts, front), b);
    HeadDecides(env, RunAll(env, mode, accounts, front), n == |front|);
  }

  // For every list of attempted blocks and any accounts tree that decodes: the run on the trees is
  // the run on maps, in committed blocks, chain state and represented store, of all attempts up to
  // the first committed block that does not decode, and stays there. When blocks decode, as all do
  // with keys read as they are written, that is the whole list.
  lemma {:induction false} RunRefines(env: Env, mode: Ledger.Reads, accounts: Tree, attempts: seq<Block>) returns (n: nat)
    requires AccountsHeld(accounts, Sled.AccountsOf(accounts))
    requires forall b | b in attempts :: ValidBlock(env.rules, b)
    requires Unwrapped(env, attempts)
    ensures RunsTo(env, mode, accounts, attempts, n)
    ensures (forall b | b in attempts :: Decodes(env.rules, b)) ==> n == |attempts|
  {
    hide RunsTo, ValidBlock, Decodes, AccountsHeld, Sled.AccountsOf, HeadOf;
    if attempts == [] {
      n := 0;
      StartRunsTo(env, mode, accounts);
    } else {
      var last := |attempts| - 1;
      var front, b := attempts[..last], attempts[last];
      n := RunRefines(env, mode, accounts, front);
      assert attempts == front + [b];
      HeadOfRunsTo(env, mode, accounts, front, n);
      if Decodes(env.rules, HeadOf(env, RunAll(env, mode, accounts, front))) {
        GoesOn(env, mode, accounts, front, b);
        n := |attempts|;
      } else {
        StaysPut(env, mode, accounts, front, b, n);
      }
    }
  }

  lemma StartRunsTo(env: Env, mode: Ledger.Reads, accounts: Tree)
    requires AccountsHeld(accounts, Sled.AccountsOf(accounts))
    ensures RunsTo(env, mode, accounts, [], 0)
  {
    hide Refines, AccountsHeld, Sled.AccountsOf, Decodes;
    StartRefines(env, accounts);
    NothingApplied(env, accounts);
    hide Start, Chain.Start;
  }

  lemma HeadOfRunsTo(env: Env, mode: Ledger.Reads, accounts: Tree, attempts: seq<Block>, n: nat)
    requires RunsTo(env, mode, accounts, attempts, n)
    ensures var head := HeadOf(env, RunAll(env, mode, accounts, attempts));
      && (Decodes(env.rules, head) ==> n == |attempts|)
      && (!Decodes(env.rules, head) ==> head in attempts)
  {
    hide RunAll, Chain.RunAll, Refines, Decodes, HeadOf;
    HeadDecides(env, RunAll(env, mode, accounts, attempts), n == |attempts|);
    RunApplies(env, mode, accounts, attempts);
  }

  lemma NothingApplied(env: Env, accounts: Tree)
    ensures Start(env, accounts).applied == []
  {
    hide Ledger.Genesis;
  }

  lemma LiveIndex(env: Env, mode: Ledger.Reads, accounts: Tree, attempts: seq<Block>, n: nat)
    requires n <= |attempts|
    requires Refines(env.rules, RunAll(env, mode, accounts, attempts),
                     Chain.RunAll(env, mode, Sled.AccountsOf(accounts), attempts[..n]))
    requires env.overflowChecks || |attempts| + 1 < U64_LIMIT
    ensures env.overflowChecks || RunAll(env, mode, accounts, attempts).state.latestIndex + 1 < U64_LIMIT
  {
    hide RunAll, Chain.RunAll, Represents, Chain.Invariant;
    Chain.ChainInvariant(env, mode, Sled.AccountsOf(accounts), attempts[..n]);
    Chain.AppliedBound(env, mode, Sled.AccountsOf(accounts), attempts[..n]);
    Chain.HeadIndex(env, Chain.RunAll(env, mode, Sled.AccountsOf(accounts), attempts[..n]));
  }

  // ---------- what the trees of a run hold ----------

  lemma {:induction false} RunBlocks(env: Env, mode: Ledger.Reads, accounts: Tree, attempts: seq<Block>)
    ensures var r := RunAll(env, mode, accounts, attempts);
      r.trees.blocks == PutBlocks(ChainOf(env, r))
  {
    hide Attempt, Indexes.PutBlock, Ledger.Genesis;
    var r := RunAll(env, mode, accounts, attempts);
    if attempts == [] {
      assert ChainOf(env, r)[..0] == [];
    } else {
      hide Start;
      var last := |attempts| - 1;
      var before := RunAll(env, mode, accounts, attempts[..last]);
      RunBlocks(env, mode, accounts, attempts[..last]);
      AttemptBlocks(env, mode, before, attempts[last]);
      if r.applied != before.applied {
        assert ChainOf(env, r)[..|r.applied|] == ChainOf(env, before);
      }
    }
  }

  // After every such run: the committed blocks are a linked chain from genesis; lookup by height
  // answers with the chain's block at each height and with nothing above; the stored chain state
  // is the one in memory; and the latest block is the head, unless a block hash outranks its key.
  lemma TreesHoldChain(env: Env, mode: Ledger.Reads, accounts: Tree, attempts: seq<Block>)
    requires AccountsHeld(accounts, Sled.AccountsOf(accounts))
    requires forall b | b in attempts :: ValidBlock(env.rules, b)
    requires env.overflowChecks || |attempts| < U64_LIMIT
    ensures var r := RunAll(env, mode, accounts, attempts);
      var chain := ChainOf(env, r);
      && Chain.Linked(env, chain)
      && Sled.DecodeState(r.trees.chainState) == Ok(Some(r.state))
      && (forall height: u64 ::
            Answers(env.rules, LookupBlock(env.rules, r.trees.blocks, HeightKey(height)),
                    if height < |chain| then Some(chain[height]) else None))
      && (Unoutranked(chain, r.state.latestIndex) ==>
            Answers(env.rules, LatestBlock(env.rules, r.trees.blocks), Some(chain[|chain| - 1])))
  {
    hide RunAll, Chain.RunAll, ChainOf, Refines, Chain.Invariant, Chain.Linked, LookupBlock, Answers, LatestBlock,
         Unoutranked, ValidBlock, DecodesTo, AccountsHeld, Sled.DecodeState, Sled.AccountsOf, PutBlocks;
    var r := RunAll(env, mode, accounts, attempts);
    var n := RunRefines(env, mode, accounts, attempts);
    Chain.ChainInvariant(env, mode, Sled.AccountsOf(accounts), attempts[..n]);
    RepresentedChain(env, r, Chain.RunAll(env, mode, Sled.AccountsOf(accounts), attempts[..n]));
    if Unoutranked(ChainOf(env, r), r.state.latestIndex) {
      RunBlocks(env, mode, accounts, attempts);
      RunApplies(env, mode, accounts, attempts);
      ChainTail(env, r);
      HeadIsLatest(env, ChainOf(env, r));
    }
  }

  lemma ChainTail(env: Env, r: TreeRun)
    ensures ChainOf(env, r) != [] && ChainOf(env, r)[1..] == r.applied
  {
    hide Ledger.Genesis;
  }

  lemma RepresentedChain(env: Env, r: TreeRun, s: Chain.Run)
    requires Refines(env.rules, r, s) && Chain.Invariant(env, s)
    ensures var chain := ChainOf(env, r);
      && Chain.Linked(env, chain)
      && r.state.latestIndex == chain[|chain| - 1].index
      && Sled.DecodeState(r.trees.chainState) == Ok(Some(r.state))
      && forall height: u64 ::
           Answers(env.rules, LookupBlock(env.rules, r.trees.blocks, HeightKey(height)),
                 if height < |chain| then Some(chain[height]) else None)
  {
    hide Hashing.BlockHash, Ledger.Genesis, LookupBlock, HeightKey, Sled.DecodeState, Answers, Chain.Linked,
         Chain.Hashed, Chain.Verified, AccountsHeld, IndexHeld;
    var chain := ChainOf(env, r);
    assert chain == Chain.ChainOf(env, s);
    Chain.HeadIndex(env, s);
    forall height: u64
      ensures Answers(env.rules, LookupBlock(env.rules, r.trees.blocks, HeightKey(height)),
                    if height < |chain| then Some(chain[height]) else None)
    {
      assert height in s.store.heights <==> height < |chain|;
      assert Answers(env.rules, LookupBlock(env.rules, r.trees.blocks, HeightKey(height)), At(s.store.heights, height));
    }
  }

  lemma LinkedGreatest(env: Env, chain: seq<Block>)
    requires Chain.Linked(env, chain)
    ensures var head := chain[|chain| - 1];
      IsGreatest(chain, head.index) && LastAtHeight(chain, head.index) == Some(head)
  {
    hide Hashing.BlockHash, Ledger.Genesis;
    var head := chain[|chain| - 1];
    assert head in chain;
    forall b | b in chain ensures b.index <= head.index {
      var i :| 0 <= i < |chain| && chain[i] == b;
    }
  }

  lemma LinkedValid(env: Env, chain: seq<Block>)
    requires Chain.Linked(env, chain)
    requires forall b | b in chain[1..] :: ValidBlock(env.rules, b)
    ensures forall b | b in chain :: ValidBlock(env.rules, b)
  {
    GenesisValid(env);
    hide Hashing.BlockHash, Ledger.Genesis, ValidBlock;
    forall b | b in chain ensures ValidBlock(env.rules, b) {
      var i :| 0 <= i < |chain| && chain[i] == b;
      assert i > 0 ==> chain[1..][i - 1] == b;
    }
  }

  lemma HeadIsLatest(env: Env, chain: seq<Block>)
    requires Chain.Linked(env, chain)
    requires forall b | b in chain[1..] :: ValidBlock(env.rules, b)
    requires Unoutranked(chain, chain[|chain| - 1].index)
    ensures Answers(env.rules, LatestBlock(env.rules, PutBlocks(chain)), Some(chain[|chain| - 1]))
  {
    hide Chain.Linked, IsGreatest, Unoutranked, Answers, LatestBlock, PutBlocks, ValidBlock;
    LinkedGreatest(env, chain);
    LinkedValid(env, chain);
    LatestIsGreatest(env.rules, chain, chain[|chain| - 1].index);
  }

  // The chain state of such a run, in memory and as read back from its tree, has a root of zero
  // bytes and no supply.
  lemma {:induction false} TreeStateFields(env: Env, mode: Ledger.Reads, accounts: Tree, attempts: seq<Block>)
    ensures var r := RunAll(env, mode, accounts, attempts);
      && Commits.AllZero(r.state.accountsRoot) && r.state.totalSupply == 0
      && Sled.DecodeState(r.trees.chainState) == Ok(Some(r.state))
  {
    hide Attempt, Sled.DecodeState, EncChainState;
    if attempts == [] {
      Commits.GenesisFields(env);
      StateHeld(map[], Ledger.InitialChainState(env));
      hide Ledger.Genesis, Ledger.InitialChainState;
    } else {
      hide Start;
      var last := |attempts| - 1;
      TreeStateFields(env, mode, accounts, attempts[..last]);
      AttemptState(env, mode, RunAll(env, mode, accounts, attempts[..last]), attempts[last]);
    }
  }

  lemma AttemptState(env: Env, mode: Ledger.Reads, r: TreeRun, b: Block)
    ensures var next := Attempt(env, mode, r, b);
      || (next.state == r.state && next.trees.chainState == r.trees.chainState)
      || (next.state == r.state.(latestHash := b.hash, latestIndex := b.index)
          && Sled.DecodeState(next.trees.chainState) == Ok(Some(next.state)))
  {
    hide Validate, Ledger.StageAll, CodeAfter, IndexBlock, Batch.Deletions, Batch.AccountWrites, Indexes.PutBlock,
         Sled.DecodeState, EncChainState;
    match Ledger.StageAll(env, mode, Sled.AccountsOf(r.trees.accounts), b.transactions)
    case Failed(_, _) =>
    case Done(overlay) =>
      var after := r.state.(latestHash := b.hash, latestIndex := b.index);
      var ops := Batch.BlockBatch(b.transactions, overlay, after);
      var deployed := r.trees.(code := CodeAfter(env, r.trees.code, b.transactions));
      assert ops[|ops| - 1] == Batch.PutChainState(after);
      StateHeld(ApplyOps(deployed, ops[..|ops| - 1]).chainState, after);
      hide Batch.BlockBatch;
  }

  // And the accounts they decode to are the initial ones with all committed transactions applied
  // in order, when the committed blocks are ones that are processed sequentially.
  lemma TreesHoldLedger(env: Env, mode: Ledger.Reads, accounts: Tree, attempts: seq<Block>)
    requires AccountsHeld(accounts, Sled.AccountsOf(accounts))
    requires forall b | b in attempts :: ValidBlock(env.rules, b)
    requires Unwrapped(env, attempts)
    requires mode.ReadThrough?
          || forall b | b in RunAll(env, mode, accounts, attempts).applied :: Chain.FaithfulBlock(Sled.AccountsOf(accounts), b)
    ensures var r := RunAll(env, mode, accounts, attempts);
      Ledger.ApplyAll(env, Sled.AccountsOf(accounts), Chain.Flatten(r.applied)) == Ledger.Done(Sled.AccountsOf(r.trees.accounts))
  {
    hide RunAll, Chain.RunAll, ValidBlock, DecodesTo, BlocksHeld, IndexHeld, Sled.DecodeState, Sled.AccountsOf,
         Chain.FaithfulBlock;
    var n := RunRefines(env, mode, accounts, attempts);
    Chain.RunIsLedger(env, mode, Sled.AccountsOf(accounts), attempts[..n]);
  }
}
