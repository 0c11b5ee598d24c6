/** Block validation and the account state transition, first as functions of the stored state. */
module Ledger {
  import opened Bytes
  import opened Types
  import opened Hashing

  type Accounts = map<PublicKey, Account>
  type CodeStore = map<ContractId, Bytes>

  datatype Reason = SenderNotWallet | TransferToContract | RecipientNotWallet

  datatype Fault =
    | WrongIndex(expected: u64, got: u64)
    | WrongPrevHash
    | WrongHash
    | StaleTimestamp
    | BadSignature(hash: Hash)

  // The additions that can leave the 64-bit range.
  datatype Sum = NextNonce | Credit | NextIndex | NextTimestamp

  datatype LedgerError =
    | AccountNotFound(key: PublicKey)
    | InvalidNonce(key: PublicKey, expected: u64, got: u64)
    | InsufficientBalance(key: PublicKey)
    | StateTransition(reason: Reason)
    | InvalidTransactionPayload
    | BlockValidation(fault: Fault)
    | NotFound
    | Panic(sum: Sum) // an overflow, in a build that checks for it

  // 64-bit addition: a panic or a wrap-around when the sum does not fit.
  function Add(env: Env, a: u64, b: u64, what: Sum): Result<u64, LedgerError> {
    if a + b < U64_LIMIT then Ok(a + b)
    else if env.overflowChecks then Err(Panic(what))
    else Ok(a + b - U64_LIMIT)
  }

  function CodeId(env: Env, deployer: PublicKey, wasm: Bytes): ContractId {
    env.digest(deployer + wasm)
  }

  // ---------- sequential processing: one transaction after the other on one state ----------

  // Where transactions stop: the state after all of them, or the first error and its position.
  datatype Outcome = Done(accounts: Accounts) | Failed(error: LedgerError, position: nat)

  function Pay(env: Env, accounts: Accounts, from: PublicKey, to: Address, amount: u64): Result<Accounts, LedgerError>
    requires from in accounts
  {
    var sender := accounts[from];
    if !sender.WalletAccount? then Err(StateTransition(SenderNotWallet))
    else if sender.balance < amount then Err(InsufficientBalance(from))
    else
      var debited := accounts[from := sender.(balance := sender.balance - amount)];
      match to
      case Contract(_) => Err(StateTransition(TransferToContract))
      case Wallet(key) => Credited(env, debited, key, amount)
  }

  // A recipient that is not there yet is created.
  function Credited(env: Env, accounts: Accounts, key: PublicKey, amount: u64): Result<Accounts, LedgerError> {
    if key !in accounts then Ok(accounts[key := WalletAccount(amount, 0)])
    else if !accounts[key].WalletAccount? then Err(StateTransition(RecipientNotWallet))
    else
      var balance :- Add(env, accounts[key].balance, amount, Credit);
      Ok(accounts[key := accounts[key].(balance := balance)])
  }

  function ApplyTransaction(env: Env, accounts: Accounts, t: Transaction): Result<Accounts, LedgerError> {
    if t.sender !in accounts then Err(AccountNotFound(t.sender))
    else
      var nonce :- Add(env, accounts[t.sender].nonce, 1, NextNonce);
      if nonce != t.nonce then Err(InvalidNonce(t.sender, nonce, t.nonce))
      else
        var bumped := accounts[t.sender := accounts[t.sender].(nonce := nonce)];
        match t.payload
        case Transfer(amount) => Pay(env, bumped, t.sender, t.recipient, amount)
        case ContractDeploy(wasm) =>
          Ok(bumped[t.sender := ContractAccount(CodeId(env, t.sender, wasm), ZERO_HASH, nonce)])
        case ContractCall(_, _) =>
          if t.recipient.Contract? then Ok(bumped) else Err(InvalidTransactionPayload)
        case Data(_) => Ok(bumped)
  }

  function ApplyAll(env: Env, accounts: Accounts, ts: seq<Transaction>): Outcome {
    if ts == [] then Done(accounts)
    else
      var last := |ts| - 1;
      match ApplyAll(env, accounts, ts[..last])
      case Failed(e, k) => Failed(e, k)
      case Done(before) =>
        match ApplyTransaction(env, before, ts[last])
        case Ok(after) => Done(after)
        case Err(e) => Failed(e, last)
  }

  // ---------- staged processing: writes collected in an overlay ----------

  // Where account reads go while a block is being staged: to the stored accounts alone, as the
  // source does, or to the overlay first.
  datatype Reads = StorageOnly | ReadThrough

  function Lookup(mode: Reads, stored: Accounts, overlay: Accounts, key: PublicKey): Option<Account> {
    if mode.ReadThrough? && key in overlay then Some(overlay[key])
    else if key in stored then Some(stored[key])
    else None
  }

  function StageTransaction(env: Env, mode: Reads, stored: Accounts, overlay: Accounts, t: Transaction)
    : Result<Accounts, LedgerError>
  {
    match Lookup(mode, stored, overlay, t.sender)
    case None => Err(AccountNotFound(t.sender))
    case Some(found) =>
      var nonce :- Add(env, found.nonce, 1, NextNonce);
      if nonce != t.nonce then Err(InvalidNonce(t.sender, nonce, t.nonce))
      else
        var sender := found.(nonce := nonce);
        match t.payload
        case Transfer(amount) =>
          if !sender.WalletAccount? then Err(StateTransition(SenderNotWallet))
          else if sender.balance < amount then Err(InsufficientBalance(t.sender))
          else
            var debited := overlay[t.sender := sender.(balance := sender.balance - amount)];
            if t.recipient.Contract? then Err(StateTransition(TransferToContract))
            else StageCredit(env, mode, stored, debited, t.recipient.key, amount)
        case ContractDeploy(wasm) =>
          Ok(overlay[t.sender := ContractAccount(CodeId(env, t.sender, wasm), ZERO_HASH, nonce)])
        case ContractCall(_, _) =>
          if t.recipient.Contract? then Ok(overlay[t.sender := sender]) else Err(InvalidTransactionPayload)
        case Data(_) => Ok(overlay[t.sender := sender])
  }

  function StageCredit(env: Env, mode: Reads, stored: Accounts, overlay: Accounts, key: PublicKey, amount: u64)
    : Result<Accounts, LedgerError>
  {
    match Lookup(mode, stored, overlay, key)
    case None => Ok(overlay[key := WalletAccount(amount, 0)])
    case Some(ContractAccount(_, _, _)) => Err(StateTransition(RecipientNotWallet))
    case Some(WalletAccount(balance, nonce)) =>
      var credited :- Add(env, balance, amount, Credit);
      Ok(overlay[key := WalletAccount(credited, nonce)])
  }

  function StageAll(env: Env, mode: Reads, stored: Accounts, ts: seq<Transaction>): (o: Outcome)
    ensures o.Failed? ==> o.position < |ts|
  {
    if ts == [] then Done(map[])
    else
      var last := |ts| - 1;
      match StageAll(env, mode, stored, ts[..last])
      case Failed(e, k) => Failed(e, k)
      case Done(overlay) =>
        match StageTransaction(env, mode, stored, overlay, ts[last])
        case Ok(after) => Done(after)
        case Err(e) => Failed(e, last)
  }

  // A failure, once met, is the outcome of every longer list.
  lemma {:induction false} StageFailureStays(env: Env, mode: Reads, stored: Accounts, ts: seq<Transaction>, n: nat)
    requires n <= |ts| && StageAll(env, mode, stored, ts[..n]).Failed?
    ensures StageAll(env, mode, stored, ts) == StageAll(env, mode, stored, ts[..n])
  {
    if n == |ts| {
      assert ts[..n] == ts;
    } else {
      assert ts[..|ts| - 1][..n] == ts[..n];
      StageFailureStays(env, mode, stored, ts[..|ts| - 1], n);
    }
  }

  // The failing transaction fails on what the ones before it have staged.
  lemma {:induction false} FailurePoint(env: Env, mode: Reads, stored: Accounts, ts: seq<Transaction>)
    requires StageAll(env, mode, stored, ts).Failed?
    ensures var k := StageAll(env, mode, stored, ts).position;
      && StageAll(env, mode, stored, ts[..k]).Done?
      && StageTransaction(env, mode, stored, StageAll(env, mode, stored, ts[..k]).accounts, ts[k])
           == Err(StageAll(env, mode, stored, ts).error)
  {
    var front := ts[..|ts| - 1];
    if StageAll(env, mode, stored, front).Failed? {
      FailurePoint(env, mode, stored, front);
      var k := StageAll(env, mode, stored, front).position;
      assert front[..k] == ts[..k];
    }
  }

  lemma AloneStaged(env: Env, mode: Reads, stored: Accounts, t: Transaction)
    ensures StageAll(env, mode, stored, [t])
         == match StageTransaction(env, mode, stored, map[], t)
            case Ok(after) => Done(after)
            case Err(e) => Failed(e, 0)
  {
    assert [t][..0] == [];
    assert StageAll(env, mode, stored, []) == Done(map[]);
  }

  lemma {:induction false} ApplyFailureStays(env: Env, accounts: Accounts, ts: seq<Transaction>, n: nat)
    requires n <= |ts| && ApplyAll(env, accounts, ts[..n]).Failed?
    ensures ApplyAll(env, accounts, ts) == ApplyAll(env, accounts, ts[..n])
  {
    if n == |ts| {
      assert ts[..n] == ts;
    } else {
      assert ts[..|ts| - 1][..n] == ts[..n];
      ApplyFailureStays(env, accounts, ts[..|ts| - 1], n);
    }
  }

  // The code store after the deployments among ts, which write to it at once.
  function CodeAfter(env: Env, code: CodeStore, ts: seq<Transaction>): CodeStore {
    if ts == [] then code
    else
      var before := CodeAfter(env, code, ts[..|ts| - 1]);
      var t := ts[|ts| - 1];
      if t.payload.ContractDeploy? then before[CodeId(env, t.sender, t.payload.wasm) := t.payload.wasm] else before
  }

  // ---------- validation ----------

  function CheckSignatures(env: Env, ts: seq<Transaction>): Result<(), LedgerError> {
    if ts == [] then Ok(())
    else
      var t := ts[|ts| - 1];
      match CheckSignatures(env, ts[..|ts| - 1])
      case Err(e) => Err(e)
      case Ok(_) => if VerifySignature(env, t) then Ok(()) else Err(BlockValidation(BadSignature(t.hash)))
  }

  function ValidateBlock(env: Env, blocks: map<Hash, Block>, b: Block, state: ChainState): Result<(), LedgerError> {
    var expected :- Add(env, state.latestIndex, 1, NextIndex);
    if b.index != expected then Err(BlockValidation(WrongIndex(expected, b.index)))
    else if b.prevHash != state.latestHash then Err(BlockValidation(WrongPrevHash))
    else if BlockHash(env, b) != b.hash then Err(BlockValidation(WrongHash))
    else if b.index > 0 && b.prevHash !in blocks then Err(NotFound)
    else if b.index > 0 && b.timestamp <= blocks[b.prevHash].timestamp then Err(BlockValidation(StaleTimestamp))
    else CheckSignatures(env, b.transactions)
  }

  lemma {:induction false} SignaturesChecked(env: Env, ts: seq<Transaction>)
    ensures CheckSignatures(env, ts).Ok? <==> forall t | t in ts :: VerifySignature(env, t)
  {
    if ts != [] {
      var front, t := ts[..|ts| - 1], ts[|ts| - 1];
      SignaturesChecked(env, front);
      assert ts == front + [t];
    }
  }

  lemma {:induction false} SignatureFailureStays(env: Env, ts: seq<Transaction>, n: nat)
    requires n <= |ts| && CheckSignatures(env, ts[..n]).Err?
    ensures CheckSignatures(env, ts) == CheckSignatures(env, ts[..n])
  {
    if n == |ts| {
      assert ts[..n] == ts;
    } else {
      assert ts[..|ts| - 1][..n] == ts[..n];
      SignatureFailureStays(env, ts[..|ts| - 1], n);
    }
  }

  // ---------- a block against the whole stored state ----------

  // What the storage interface holds. A block's transactions are indexed by block hash,
  // transaction hash and position.
  datatype Store = Store(
    accounts: Accounts,
    code: CodeStore,
    blocks: map<Hash, Block>,
    heights: map<u64, Block>,
    chainState: Option<ChainState>,
    txIndex: set<(Hash, Hash, u32)>)

  function IndexEntries(b: Block, n: nat): set<(Hash, Hash, u32)>
    requires n <= |b.transactions|
  {
    set i | 0 <= i < n :: (b.hash, b.transactions[i].hash, i % U32_LIMIT)
  }

  function ApplyBlock(env: Env, mode: Reads, store: Store, b: Block, state: ChainState)
    : (Result<(), LedgerError>, Store, ChainState)
  {
    match StageAll(env, mode, store.accounts, b.transactions)
    case Failed(e, k) =>
      (Err(e), store.(code := CodeAfter(env, store.code, b.transactions[..k])), state)
    case Done(overlay) =>
      var after := state.(latestHash := b.hash, latestIndex := b.index);
      (Ok(()),
       store.(
         accounts := store.accounts + overlay,
         code := CodeAfter(env, store.code, b.transactions),
         chainState := Some(after),
         txIndex := store.txIndex + IndexEntries(b, |b.transactions|)),
       after)
  }

  function PutBlock(store: Store, b: Block): Store {
    store.(blocks := store.blocks[b.hash := b], heights := store.heights[b.index := b])
  }

  // ---------- genesis ----------

  const UNHASHED_GENESIS: Block := Block(0, 0, ZERO_HASH, ZERO_HASH, 0, [], None)

  function Genesis(env: Env): Block {
    UNHASHED_GENESIS.(hash := BlockHash(env, UNHASHED_GENESIS))
  }

  function InitialChainState(env: Env): ChainState {
    ChainState(Genesis(env).hash, 0, ZERO_HASH, 0)
  }

  // Genesis creates no accounts; whatever accounts there are were there before.
  function InitializeChain(env: Env, store: Store): Store {
    if store.chainState.Some? then store
    else PutBlock(store, Genesis(env)).(chainState := Some(InitialChainState(env)))
  }
}
