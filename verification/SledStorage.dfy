/** The storage of the source: one tree of the database for each kind of data. */
module SledStorage {
  import opened Bytes
  import opened Types
  import opened Codec
  import opened Indexes
  import opened RoundTrip
  import Batch
  import Commits
  import Layout
  import Ledger
  import Text

  // The accounts a tree holds: entries under 32-byte keys that decode.
  function AccountsOf(tree: Tree): Ledger.Accounts {
    map k: Bytes | k in tree && |k| == 32 && ReadAccount(tree[k]).Done? :: ReadAccount(tree[k]).value
  }

  function DecodeState(tree: Tree): Result<Option<ChainState>, StorageError> {
    if Batch.CURRENT !in tree then Ok(None)
    else
      match ReadChainState(tree[Batch.CURRENT])
      case Done(s, _) => Ok(Some(s))
      case Malformed => Err(SerializationError)
  }

  lemma AccountDecodes(a: Account)
    ensures ReadAccount(EncAccount(a)) == Done(a, [])
  {
    RoundTrip.AccountRoundTrip(a, []);
    assert EncAccount(a) + [] == EncAccount(a);
  }

  lemma StateDecodes(s: ChainState)
    ensures ReadChainState(EncChainState(s)) == Done(s, [])
  {
    RoundTrip.ChainStateRoundTrip(s, []);
    assert EncChainState(s) + [] == EncChainState(s);
  }

  // The genesis batch: the block under its hash, the chain state under its name.
  function GenesisBatch(env: Env): seq<Batch.RawOp> {
    var genesis := Ledger.Genesis(env);
    [Batch.Put(genesis.hash, EncBlock(genesis)), Batch.Serialize(Batch.PutChainState(Ledger.InitialChainState(env)))]
  }

  // What genesis leaves in the default tree: under its hash the bytes of the empty first block,
  // which decode to it with either reader of keys, and under the name of the chain state the
  // first one; nothing else.
  lemma GenesisWritten(env: Env, tree: Tree, k: Bytes, name: Bytes)
    requires Text.Spells(name, "global:current") && Layout.BytesIs(k, name)
    ensures var after := Batch.ApplyRaws(tree, GenesisBatch(env));
      var g, s := Ledger.Genesis(env), Ledger.InitialChainState(env);
      && after == tree[g.hash := EncBlock(g)][k := EncChainState(s)]
      && k != g.hash
      && ReadBlock(env.rules, after[g.hash]) == Done(g, [])
      && ReadChainState(after[k]) == Done(s, [])
      && g.index == 0 && g.timestamp == 0 && Commits.AllZero(g.prevHash) && g.nonce == 0
      && g.transactions == [] && g.metadata == None
      && s.latestHash == g.hash && s.latestIndex == 0 && Commits.AllZero(s.accountsRoot) && s.totalSupply == 0
  {
    Commits.GenesisFields(env);
    StateKeyed(k, name);
    GenesisDecoded(env);
    StateDecodes(Ledger.InitialChainState(env));
    hide Ledger.Genesis, Ledger.InitialChainState, EncBlock, ReadBlock, EncChainState, ReadChainState, EncBytes,
         Batch.ApplyRaws, Commits.AllZero;
    var g, s := Ledger.Genesis(env), Ledger.InitialChainState(env);
    TwoPuts(tree, g.hash, EncBlock(g), k, EncChainState(s));
  }

  lemma TwoPuts(tree: Tree, a: Bytes, x: Bytes, k: Bytes, y: Bytes)
    ensures Batch.ApplyRaws(tree, [Batch.Put(a, x), Batch.Put(k, y)]) == tree[a := x][k := y]
  {
    var ops := [Batch.Put(a, x), Batch.Put(k, y)];
    assert ops[..1] == [Batch.Put(a, x)] && [Batch.Put(a, x)][..0] == [];
    assert Batch.ApplyRaws(tree, []) == tree;
    assert Batch.ApplyRaws(tree, [Batch.Put(a, x)]) == tree[a := x];
  }

  lemma StateKeyed(k: Bytes, name: Bytes)
    requires Text.Spells(name, "global:current") && Layout.BytesIs(k, name)
    ensures k == EncBytes(Batch.CURRENT) && |k| == 22
  {
    assert name == Batch.CURRENT;
    Layout.EncBytesIs(name);
    Layout.SameBytes(k, EncBytes(name), name);
  }

  lemma GenesisDecoded(env: Env)
    ensures ReadBlock(env.rules, EncBlock(Ledger.Genesis(env))) == Done(Ledger.Genesis(env), [])
  {
    var g := Ledger.Genesis(env);
    Commits.GenesisFields(env);
    hide Ledger.Genesis, EncBlock, ReadBlock;
    RoundTrip.BlockRoundTrip(env.rules, g, []);
    assert EncBlock(g) + [] == EncBlock(g);
  }

  class SledStorage {
    const rules: Rules
    var db: Tree // the default tree
    var blocksTree: Tree
    var transactionsTree: Tree
    var accountsTree: Tree
    var contractCodeTree: Tree
    var contractStorageTree: Tree
    var chainStateTree: Tree
    var txByBlockTree: Tree

    // Everything written so far, as plain lists and a map.
    ghost var blocksPut: seq<Block>
    ghost var transactionsPut: seq<Transaction>
    ghost var entriesPut: seq<(Hash, Hash, u32)>
    ghost var contractState: map<(ContractId, Bytes), Bytes>

    ghost predicate ValidBlocks()
      reads this
    {
      blocksTree == PutBlocks(blocksPut) && forall b | b in blocksPut :: ValidBlock(rules, b)
    }

    ghost predicate ValidIndex()
      reads this
    {
      && txByBlockTree == IndexAll(entriesPut)
      && transactionsTree == PutTransactions(transactionsPut)
      && forall t | t in transactionsPut :: ValidTransaction(rules, t)
    }

    ghost predicate ValidContracts()
      reads this
    {
      Holds(contractStorageTree, contractState)
    }

    // A fresh database.
    constructor (rules: Rules)
      ensures this.rules == rules
      ensures db == accountsTree == contractCodeTree == chainStateTree == map[]
      ensures ValidBlocks() && ValidIndex() && ValidContracts()
      ensures blocksPut == [] && transactionsPut == [] && entriesPut == [] && contractState == map[]
    {
      this.rules := rules;
      db, blocksTree, transactionsTree, accountsTree := map[], map[], map[], map[];
      contractCodeTree, contractStorageTree, chainStateTree, txByBlockTree := map[], map[], map[], map[];
      blocksPut, transactionsPut, entriesPut, contractState := [], [], [], map[];
    }

    // ---------- blocks ----------

    method PutBlock(b: Block)
      modifies this`blocksTree, this`blocksPut
      ensures blocksTree == Indexes.PutBlock(old(blocksTree), b)
      ensures blocksPut == old(blocksPut) + [b]
      ensures old(ValidBlocks()) && ValidBlock(rules, b) ==> ValidBlocks()
    {
      hide HeightKey, EncBlock, ValidBlock;
      var encoded := EncBlock(b);
      blocksTree := blocksTree[b.hash := encoded];
      blocksTree := blocksTree[HeightKey(b.index) := encoded];
      blocksPut := blocksPut + [b];
      assert blocksPut[..|blocksPut| - 1] == old(blocksPut);
    }

    method GetBlock(hash: Hash) returns (r: Result<Option<Block>, StorageError>)
      ensures ValidBlocks() ==> Answers(rules, r, LastWithHash(blocksPut, hash))
    {
      r := LookupBlock(rules, blocksTree, hash);
      if ValidBlocks() {
        LookupIsLastPut(rules, blocksPut, 0, hash);
      }
    }

    method GetBlockByHeight(height: u64) returns (r: Result<Option<Block>, StorageError>)
      ensures ValidBlocks() ==> Answers(rules, r, LastAtHeight(blocksPut, height))
    {
      r := LookupBlock(rules, blocksTree, HeightKey(height));
      if ValidBlocks() {
        LookupIsLastPut(rules, blocksPut, height, ZERO_HASH);
      }
    }

    // The last block put at the greatest height, if no stored hash outranks its key.
    method GetLatestBlock() returns (r: Result<Option<Block>, StorageError>)
      ensures r == LatestBlock(rules, blocksTree)
      ensures ValidBlocks() ==> forall height: u64 | IsGreatest(blocksPut, height) && Unoutranked(blocksPut, height) ::
        Answers(rules, r, LastAtHeight(blocksPut, height))
    {
      hide Answers, DecodeBlock, Sorted, HasPrefix, IsGreatest, Unoutranked, LastAtHeight, PutBlocks, ValidBlock, Ascending;
      Scanned(blocksTree, HEIGHT);
      var keys := Scan(blocksTree, HEIGHT);
      if keys == [] {
        r := Ok(None);
      } else {
        var last := keys[|keys| - 1];
        assert last in keys;
        r := DecodeBlock(rules, blocksTree[last]);
      }
      if ValidBlocks() {
        LatestForAll();
      }
    }

    lemma LatestForAll()
      requires ValidBlocks()
      ensures forall height: u64 | IsGreatest(blocksPut, height) && Unoutranked(blocksPut, height) ::
        && Answers(rules, LatestBlock(rules, blocksTree), LastAtHeight(blocksPut, height))
        && LastAtHeight(blocksPut, height).Some?
        && LastAtHeight(blocksPut, height).value.index == height
    {
      forall height: u64 | IsGreatest(blocksPut, height) && Unoutranked(blocksPut, height)
        ensures Answers(rules, LatestBlock(rules, blocksTree), LastAtHeight(blocksPut, height))
        ensures LastAtHeight(blocksPut, height).Some? && LastAtHeight(blocksPut, height).value.index == height
      {
        LatestIsGreatest(rules, blocksPut, height);
      }
    }

    // The greatest height put, under the same condition, if the block there decodes at all, as a
    // readable one does; zero when there is no block.
    method GetChainHeight() returns (r: Result<u64, StorageError>)
      ensures LatestBlock(rules, blocksTree) == Ok(None) ==> r == Ok(0)
      ensures ValidBlocks() ==> forall height: u64 | IsGreatest(blocksPut, height) && Unoutranked(blocksPut, height) ::
        && LastAtHeight(blocksPut, height).Some?
        && (r.Ok? ==> r == Ok(height))
        && (Readable(rules, LastAtHeight(blocksPut, height).value) ==> r.Ok?)
    {
      var latest := GetLatestBlock();
      r := match latest
           case Err(e) => Err(e)
           case Ok(None) => Ok(0)
           case Ok(Some(b)) => Ok(b.index);
      hide LatestBlock, IsGreatest, Unoutranked, LastAtHeight;
      if ValidBlocks() {
        LatestForAll();
      }
    }

    // ---------- transactions ----------

    method PutTransaction(t: Transaction)
      modifies this`transactionsTree, this`transactionsPut
      ensures transactionsTree == old(transactionsTree)[t.hash := EncTransaction(t)]
      ensures transactionsPut == old(transactionsPut) + [t]
      ensures old(ValidIndex()) && ValidTransaction(rules, t) ==> ValidIndex()
    {
      hide EncTransaction, ValidTransaction, IndexAll;
      transactionsTree := transactionsTree[t.hash := EncTransaction(t)];
      transactionsPut := transactionsPut + [t];
      assert transactionsPut[..|transactionsPut| - 1] == old(transactionsPut);
    }

    method IndexTransaction(tx: Hash, block: Hash, position: u32)
      modifies this`txByBlockTree, this`entriesPut
      ensures txByBlockTree == old(txByBlockTree)[IndexKey(block, tx, position) := tx]
      ensures entriesPut == old(entriesPut) + [(block, tx, position)]
      ensures old(ValidIndex()) ==> ValidIndex()
    {
      hide IndexKey, PutTransactions, ValidTransaction;
      txByBlockTree := txByBlockTree[IndexKey(block, tx, position) := tx];
      entriesPut := entriesPut + [(block, tx, position)];
      assert entriesPut[..|entriesPut| - 1] == old(entriesPut);
    }

    // One stored transaction for each distinct pair indexed under the block, in order, by a reader
    // of keys with their length.
    method GetTransactionsByBlock(block: Hash)
      returns (r: Result<seq<Transaction>, StorageError>, ghost pairs: seq<(Hash, u32)>)
      ensures r == TransactionsByBlock(rules, txByBlockTree, transactionsTree, block)
      ensures ValidIndex() ==> PairsOf(entriesPut, block, pairs)
      ensures ValidIndex()
        ==> (r == Ok(StoredOf(transactionsPut, pairs)) <==> rules.keys.Prefixed? || StoredOf(transactionsPut, pairs) == [])
    {
      hide LookupTransaction, BlockPrefix, Sorted, PairsOf, StoredOf, IndexAll, PutTransactions, ValidTransaction;
      pairs := [];
      if ValidIndex() {
        pairs := TransactionIndexExact(rules, entriesPut, transactionsPut, block);
      }
      Scanned(txByBlockTree, BlockPrefix(block));
      var keys := Scan(txByBlockTree, BlockPrefix(block));
      var transactions: seq<Transaction> := [];
      var i := 0;
      while i < |keys|
        invariant 0 <= i <= |keys|
        invariant Collect(rules, txByBlockTree, transactionsTree, keys[..i]) == Ok(transactions)
      {
        var k := keys[i];
        assert keys[..i + 1][..i] == keys[..i];
        assert k in keys;
        var value := txByBlockTree[k];
        if |value| != 32 {
          CollectErrorStays(rules, txByBlockTree, transactionsTree, keys, i + 1);
          r := Err(HashConversionError);
          return;
        }
        var found := LookupTransaction(rules, transactionsTree, value);
        if found.Err? {
          CollectErrorStays(rules, txByBlockTree, transactionsTree, keys, i + 1);
          r := Err(found.error);
          return;
        }
        if found.value.Some? {
          transactions := transactions + [found.value.value];
        }
        i := i + 1;
      }
      assert keys[..i] == keys;
      r := Ok(transactions);
    }

    // ---------- accounts and chain state ----------

    method PutAccount(key: PublicKey, account: Account)
      modifies this`accountsTree
      ensures accountsTree == old(accountsTree)[key := EncAccount(account)]
      ensures AccountsOf(accountsTree) == old(AccountsOf(accountsTree))[key := account]
    {
      AccountDecodes(account);
      hide ReadAccount, EncAccount;
      accountsTree := accountsTree[key := EncAccount(account)];
    }

    method GetAccount(key: PublicKey) returns (r: Result<Option<Account>, StorageError>)
      ensures r.Ok? && r.value.Some? <==> key in AccountsOf(accountsTree)
      ensures key in AccountsOf(accountsTree) ==> r == Ok(Some(AccountsOf(accountsTree)[key]))
      ensures key !in accountsTree ==> r == Ok(None)
    {
      if key !in accountsTree {
        return Ok(None);
      }
      r := match ReadAccount(accountsTree[key])
           case Done(a, _) => Ok(Some(a))
           case Malformed => Err(SerializationError);
    }

    method DeleteAccount(key: PublicKey)
      modifies this`accountsTree
      ensures AccountsOf(accountsTree) == old(AccountsOf(accountsTree)) - {key}
    {
      accountsTree := accountsTree - {key};
    }

    method PutChainState(state: ChainState)
      modifies this`chainStateTree
      ensures chainStateTree == old(chainStateTree)[Batch.CURRENT := EncChainState(state)]
      ensures DecodeState(chainStateTree) == Ok(Some(state))
    {
      StateDecodes(state);
      chainStateTree := chainStateTree[Batch.CURRENT := EncChainState(state)];
    }

    method GetChainState() returns (r: Result<Option<ChainState>, StorageError>)
      ensures r == DecodeState(chainStateTree)
    {
      r := DecodeState(chainStateTree);
    }

    // ---------- contracts ----------

    method PutContractCode(id: ContractId, wasm: Bytes)
      modifies this`contractCodeTree
      ensures contractCodeTree == old(contractCodeTree)[id := wasm]
    {
      contractCodeTree := contractCodeTree[id := wasm];
    }

    method ContractStorageRead(contract: ContractId, key: Bytes) returns (r: Option<Bytes>)
      ensures ValidContracts()
        ==> r == if (contract, key) in contractState then Some(contractState[(contract, key)]) else None
    {
      r := ReadState(contractStorageTree, contract, key);
    }

    method ContractStorageWrite(contract: ContractId, key: Bytes, value: Bytes)
      modifies this`contractStorageTree, this`contractState
      ensures contractState == old(contractState)[(contract, key) := value]
      ensures old(ValidContracts()) ==> ValidContracts()
    {
      if ValidContracts() {
        HoldsAfter(contractStorageTree, contractState, Write(contract, key, value));
      }
      contractStorageTree := contractStorageTree[StateKey(contract, key) := value];
      contractState := contractState[(contract, key) := value];
    }

    method ContractStorageRemove(contract: ContractId, key: Bytes)
      modifies this`contractStorageTree, this`contractState
      ensures contractState == old(contractState) - {(contract, key)}
      ensures old(ValidContracts()) ==> ValidContracts()
    {
      if ValidContracts() {
        HoldsAfter(contractStorageTree, contractState, Remove(contract, key));
      }
      contractStorageTree := contractStorageTree - {StateKey(contract, key)};
      contractState := contractState - {(contract, key)};
    }

    // ---------- batches, as the source applies them: all to the default tree ----------

    method ApplyBatch(ops: seq<Batch.RawOp>)
      modifies this`db
      ensures db == Batch.ApplyRaws(old(db), ops)
    {
      var i := 0;
      while i < |ops|
        invariant 0 <= i <= |ops|
        invariant db == Batch.ApplyRaws(old(db), ops[..i])
      {
        assert ops[..i + 1][..i] == ops[..i];
        match ops[i] {
          case Put(key, value) => db := db[key := value];
          case Delete(key) => db := db - {key};
        }
        i := i + 1;
      }
      assert ops[..i] == ops;
    }

    // Genesis, written by a batch, reaches no tree that is read.
    method InitializeChain(env: Env) returns (r: Result<(), StorageError>)
      modifies this`db
      ensures r.Ok? <==> DecodeState(chainStateTree).Ok?
      ensures db == if DecodeState(chainStateTree) == Ok(None) then Batch.ApplyRaws(old(db), GenesisBatch(env)) else old(db)
    {
      var current := GetChainState();
      match current {
        case Err(e) => return Err(e);
        case Ok(Some(_)) => return Ok(());
        case Ok(None) =>
          ApplyBatch(GenesisBatch(env));
          return Ok(());
      }
    }

    // Opening the runtime initializes the chain and then reads the chain state back. It
    // succeeds exactly when a chain state was already in its tree, where no batch ever puts it.
    method OpenRuntime(env: Env) returns (state: Option<ChainState>)
      modifies this`db
      ensures state == match old(DecodeState(chainStateTree)) { case Ok(s) => s case Err(_) => None }
      ensures db == if DecodeState(chainStateTree) == Ok(None) then Batch.ApplyRaws(old(db), GenesisBatch(env)) else old(db)
    {
      var initialized := InitializeChain(env);
      if initialized.Err? {
        return None;
      }
      var current := GetChainState();
      state := match current
               case Ok(s) => s
               case Err(_) => None;
    }
  }

  lemma {:induction false} CollectErrorStays(rules: Rules, index: Tree, transactions: Tree, keys: seq<Bytes>, n: nat)
    requires n <= |keys| && forall k | k in keys :: k in index
    requires Collect(rules, index, transactions, keys[..n]).Err?
    ensures Collect(rules, index, transactions, keys) == Collect(rules, index, transactions, keys[..n])
  {
    if n == |keys| {
      assert keys[..n] == keys;
    } else {
      assert keys[..|keys| - 1][..n] == keys[..n];
      CollectErrorStays(rules, index, transactions, keys[..|keys| - 1], n);
    }
  }

  // A fresh database cannot be opened.
  method OpenFresh(env: Env) returns (state: Option<ChainState>)
    ensures state == None
  {
    var storage := new SledStorage(env.rules);
    state := storage.OpenRuntime(env);
  }
}
