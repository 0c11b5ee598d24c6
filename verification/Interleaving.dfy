/** Every interleaving of one block producer with any number of submitters over the two locks of
    the runtime: the pool's and the chain state's. The producer takes the pool first, a submitter
    the chain state first. */
module Interleaving {
  import opened Bytes
  import opened Types
  import opened Hashing
  import opened Ledger
  import opened Chain
  import opened Consensus
  import opened Engine
  import Commits

  datatype Actor = Producer | Submitter(id: nat)

  // Where the producer stands. It takes the pool, then the chain state, builds a block, drops
  // the pool, applies the block, takes the pool again and clears it.
  datatype ProducerAt =
    | Idle
    | HasPool
    | HasBoth
    | Built(block: Block)
    | Holding(block: Block)
    | Committed(block: Block)
    | Clearing(block: Block)
    | Finishing

  // Where a submitter stands with its transaction.
  datatype SubmitterAt =
    | Away
    | Verified(tx: Transaction)
    | HasChain(tx: Transaction)
    | Accepting(tx: Transaction)
    | Pushing(tx: Transaction)
    | Leaving

  // The source locks the chain state a second time before applying, while it still holds it;
  // the repaired producer holds it throughout.
  datatype Locking = SecondLock | OneHold

  datatype Node = Node(
    run: Run,
    pool: seq<Transaction>,
    poolLock: Option<Actor>,
    chainLock: Option<Actor>,
    producer: ProducerAt,
    submitters: map<nat, SubmitterAt>,
    accepted: seq<Transaction>, // every transaction accepted so far, in order
    attempts: seq<Block>)       // every block handed to the ledger so far

  datatype Step =
    | LockPool | FindEmpty | LockChain | Build | DropPool | Apply | RelockPool | Clear | Finish
    | Begin(id: nat, tx: Transaction)
    | EnterChain(id: nat) | CheckNonce(id: nat) | EnterPool(id: nat) | Push(id: nat) | Leave(id: nat)

  function At(n: Node, id: nat): SubmitterAt {
    if id in n.submitters then n.submitters[id] else Away
  }

  function Move(n: Node, id: nat, at: SubmitterAt): Node {
    n.(submitters := n.submitters[id := at])
  }

  // One step of one actor, or nothing when it is not enabled.
  function ProducerStep(env: Env, mode: Reads, locking: Locking, n: Node, s: Step): Option<Node> {
    match (s, n.producer)
    case (LockPool, Idle) =>
      if n.poolLock.None? then Some(n.(producer := HasPool, poolLock := Some(Producer))) else None
    case (FindEmpty, HasPool) =>
      if n.pool == [] then Some(n.(producer := Idle, poolLock := None)) else None
    case (LockChain, HasPool) =>
      if n.pool != [] && n.chainLock.None? then Some(n.(producer := HasBoth, chainLock := Some(Producer))) else None
    case (Build, HasBoth) =>
      var state, blocks := n.run.state, n.run.store.blocks;
      if state.latestHash !in blocks then Some(n.(producer := Idle, poolLock := None, chainLock := None))
      else
        match GenerateBlock(env, n.pool, blocks[state.latestHash]) {
          case Err(_) => Some(n.(producer := Idle, poolLock := None, chainLock := None))
          case Ok(b) => Some(n.(producer := Built(b)))
        }
    case (DropPool, Built(b)) => Some(n.(producer := Holding(b), poolLock := None))
    case (Apply, Holding(b)) =>
      if locking.SecondLock? && n.chainLock.Some? then None
      else
        var next := Attempt(env, mode, n.run, b);
        var after := n.(run := next, attempts := n.attempts + [b]);
        if |next.applied| > |n.run.applied| then Some(after.(producer := Committed(b)))
        else Some(after.(producer := Idle, chainLock := None))
    case (RelockPool, Committed(b)) =>
      if n.poolLock.None? then Some(n.(producer := Clearing(b), poolLock := Some(Producer))) else None
    case (Clear, Clearing(_)) => Some(n.(producer := Finishing, pool := [], poolLock := None))
    case (Finish, Finishing) => Some(n.(producer := Idle, chainLock := None))
    case _ => None
  }

  function SubmitterStep(env: Env, n: Node, s: Step): Option<Node> {
    match s
    case Begin(id, t) =>
      if !At(n, id).Away? then None
      else Some(if VerifySignature(env, t) then Move(n, id, Verified(t)) else n)
    case EnterChain(id) =>
      if At(n, id).Verified? && n.chainLock.None?
      then Some(Move(n.(chainLock := Some(Submitter(id))), id, HasChain(At(n, id).tx))) else None
    case CheckNonce(id) =>
      if !At(n, id).HasChain? then None
      else
        var t := At(n, id).tx;
        if t.nonce > SubmissionNonce(n.run.store.accounts, t.sender) then Some(Move(n, id, Accepting(t)))
        else Some(Move(n.(chainLock := None), id, Away))
    case EnterPool(id) =>
      if At(n, id).Accepting? && n.poolLock.None?
      then Some(Move(n.(poolLock := Some(Submitter(id))), id, Pushing(At(n, id).tx))) else None
    case Push(id) =>
      if !At(n, id).Pushing? then None
      else
        var t := At(n, id).tx;
        Some(Move(n.(poolLock := None, pool := n.pool + [t], accepted := n.accepted + [t]), id, Leaving))
    case Leave(id) =>
      if At(n, id).Leaving? then Some(Move(n.(chainLock := None), id, Away)) else None
    case _ => None
  }

  predicate BySubmitter(s: Step) {
    s.Begin? || s.EnterChain? || s.CheckNonce? || s.EnterPool? || s.Push? || s.Leave?
  }

  function Next(env: Env, mode: Reads, locking: Locking, n: Node, s: Step): Option<Node> {
    if BySubmitter(s) then SubmitterStep(env, n, s) else ProducerStep(env, mode, locking, n, s)
  }

  function Boot(env: Env, accounts: Accounts): Node {
    Node(Start(env, accounts), [], None, None, Idle, map[], [], [])
  }

  // The state after a list of steps, if all were enabled.
  function Execute(env: Env, mode: Reads, locking: Locking, n: Node, steps: seq<Step>): Option<Node> {
    if steps == [] then Some(n)
    else
      match Execute(env, mode, locking, n, steps[..|steps| - 1])
      case None => None
      case Some(before) => Next(env, mode, locking, before, steps[|steps| - 1])
  }

  // ---------- who holds what ----------

  predicate ProducerHoldsPool(p: ProducerAt) {
    p.HasPool? || p.HasBoth? || p.Built? || p.Clearing?
  }

  predicate ProducerHoldsChain(p: ProducerAt) {
    p.HasBoth? || p.Built? || p.Holding? || p.Committed? || p.Clearing? || p.Finishing?
  }

  predicate SubmitterHoldsChain(s: SubmitterAt) {
    s.HasChain? || s.Accepting? || s.Pushing? || s.Leaving?
  }

  ghost predicate LocksHeld(n: Node) {
    && (n.poolLock == Some(Producer) <==> ProducerHoldsPool(n.producer))
    && (n.chainLock == Some(Producer) <==> ProducerHoldsChain(n.producer))
    && (forall id: nat :: n.poolLock == Some(Submitter(id)) <==> At(n, id).Pushing?)
    && (forall id: nat :: n.chainLock == Some(Submitter(id)) <==> SubmitterHoldsChain(At(n, id)))
  }

  lemma ProducerKeepsLocks(env: Env, mode: Reads, locking: Locking, n: Node, s: Step)
    requires LocksHeld(n) && ProducerStep(env, mode, locking, n, s).Some?
    ensures LocksHeld(ProducerStep(env, mode, locking, n, s).value)
  {
    hide VerifySignature, Attempt, GenerateBlock, SubmitterHoldsChain;
    var next := ProducerStep(env, mode, locking, n, s).value;
    assert next.submitters == n.submitters;
    assert forall id: nat :: At(next, id) == At(n, id);
  }

  lemma SubmitterKeepsLocks(env: Env, n: Node, s: Step)
    requires LocksHeld(n) && BySubmitter(s) && SubmitterStep(env, n, s).Some?
    ensures LocksHeld(SubmitterStep(env, n, s).value)
  {
    hide VerifySignature, ProducerHoldsChain, ProducerHoldsPool;
    var next := SubmitterStep(env, n, s).value;
    forall id: nat | id != s.id ensures At(next, id) == At(n, id) {
    }
  }

  lemma StepKeepsLocks(env: Env, mode: Reads, locking: Locking, n: Node, s: Step)
    requires LocksHeld(n) && Next(env, mode, locking, n, s).Some?
    ensures LocksHeld(Next(env, mode, locking, n, s).value)
  {
    hide LocksHeld, ProducerStep, SubmitterStep;
    if BySubmitter(s) {
      SubmitterKeepsLocks(env, n, s);
    } else {
      ProducerKeepsLocks(env, mode, locking, n, s);
    }
  }

  // ---------- where the transactions are ----------

  // Between the commit and the clear the committed block and the pool hold the same
  // transactions; otherwise every accepted one is in exactly one of a block and the pool.
  predicate AwaitingClear(p: ProducerAt) {
    p.Committed? || p.Clearing?
  }

  function Pending(n: Node): seq<Transaction> {
    if AwaitingClear(n.producer) then [] else n.pool
  }

  ghost predicate Accounted(n: Node) {
    && n.accepted == Flatten(n.run.applied) + Pending(n)
    && (n.producer.Built? || n.producer.Holding? || AwaitingClear(n.producer) ==> n.producer.block.transactions == n.pool)
  }

  lemma FlattenSnoc(bs: seq<Block>, b: Block)
    ensures Flatten(bs + [b]) == Flatten(bs) + b.transactions
  {
    assert (bs + [b])[..|bs + [b]| - 1] == bs;
  }

  lemma AttemptGrows(env: Env, mode: Reads, r: Run, b: Block)
    ensures var next := Attempt(env, mode, r, b);
      if |next.applied| > |r.applied| then next.applied == r.applied + [b] else next.applied == r.applied
  {
    hide ValidateBlock, StageAll, CodeAfter;
  }

  lemma StepKeepsAccount(env: Env, mode: Reads, locking: Locking, n: Node, s: Step)
    requires LocksHeld(n) && Accounted(n) && Next(env, mode, locking, n, s).Some?
    ensures Accounted(Next(env, mode, locking, n, s).value)
  {
    hide VerifySignature, Attempt, Flatten, BlockHash;
    var next := Next(env, mode, locking, n, s).value;
    if s.Push? {
      assert !ProducerHoldsChain(n.producer);
      Assoc3(Flatten(n.run.applied), n.pool, [At(n, s.id).tx]);
    } else if s.Apply? {
      var b := n.producer.block;
      AttemptGrows(env, mode, n.run, b);
      FlattenSnoc(n.run.applied, b);
      assert Flatten(n.run.applied) + b.transactions == Flatten(n.run.applied) + b.transactions + [];
    } else if s.Clear? {
      assert Flatten(n.run.applied) + [] == Flatten(n.run.applied);
    }
  }

  lemma Assoc3(a: seq<Transaction>, b: seq<Transaction>, c: seq<Transaction>)
    ensures (a + b) + c == a + (b + c)
  {
  }

  // ---------- nonces of pending transactions ----------

  predicate Above(accounts: Accounts, t: Transaction) {
    t.nonce > SubmissionNonce(accounts, t.sender)
  }

  predicate Checked(s: SubmitterAt) {
    s.Accepting? || s.Pushing?
  }

  // A transaction that is pending, or checked and about to be, has a nonce above the one stored
  // now: the chain state stays locked from the check to the push, and a commit takes the pool.
  ghost predicate NoncesAbove(n: Node) {
    && (forall t | t in Pending(n) :: Above(n.run.store.accounts, t))
    && (forall id: nat :: Checked(At(n, id)) ==> Above(n.run.store.accounts, At(n, id).tx))
  }

  lemma AttemptAccounts(env: Env, mode: Reads, r: Run, b: Block)
    ensures |Attempt(env, mode, r, b).applied| <= |r.applied|
      ==> Attempt(env, mode, r, b).store.accounts == r.store.accounts
  {
    hide ValidateBlock, StageAll, CodeAfter;
  }

  lemma SubmitterKeepsNonces(env: Env, n: Node, s: Step)
    requires LocksHeld(n) && NoncesAbove(n) && BySubmitter(s) && SubmitterStep(env, n, s).Some?
    ensures NoncesAbove(SubmitterStep(env, n, s).value)
  {
    hide VerifySignature;
    var next := SubmitterStep(env, n, s).value;
    forall id: nat | id != s.id ensures At(next, id) == At(n, id) {
    }
  }

  lemma ProducerKeepsNonces(env: Env, mode: Reads, locking: Locking, n: Node, s: Step)
    requires LocksHeld(n) && NoncesAbove(n) && ProducerStep(env, mode, locking, n, s).Some?
    ensures NoncesAbove(ProducerStep(env, mode, locking, n, s).value)
  {
    hide Attempt, GenerateBlock, SubmissionNonce;
    var next := ProducerStep(env, mode, locking, n, s).value;
    assert forall id: nat :: At(next, id) == At(n, id);
    if s.Apply? {
      AttemptAccounts(env, mode, n.run, n.producer.block);
      forall id: nat ensures !Checked(At(n, id)) {
        assert n.chainLock == Some(Submitter(id)) <==> SubmitterHoldsChain(At(n, id));
      }
    } else {
      assert next.run == n.run && (Pending(next) == Pending(n) || Pending(next) == []);
    }
  }

  lemma StepKeepsNonces(env: Env, mode: Reads, locking: Locking, n: Node, s: Step)
    requires LocksHeld(n) && NoncesAbove(n) && Next(env, mode, locking, n, s).Some?
    ensures NoncesAbove(Next(env, mode, locking, n, s).value)
  {
    hide LocksHeld, NoncesAbove, ProducerStep, SubmitterStep;
    if BySubmitter(s) {
      SubmitterKeepsNonces(env, n, s);
    } else {
      ProducerKeepsNonces(env, mode, locking, n, s);
    }
  }

  // ---------- what the ledger has seen ----------

  // The run is that of the attempted blocks, and its timestamps equal indices.
  ghost predicate OnRun(env: Env, mode: Reads, accounts: Accounts, n: Node) {
    n.run == RunAll(env, mode, accounts, n.attempts) && Invariant(env, n.run) && Timed(n.run)
  }

  predicate Carries(s: SubmitterAt) {
    s.Verified? || s.HasChain? || s.Accepting? || s.Pushing?
  }

  // Everything in the pool or on its way there verifies.
  ghost predicate PoolVerified(env: Env, n: Node) {
    && (forall t | t in n.pool :: VerifySignature(env, t))
    && (forall id: nat :: Carries(At(n, id)) ==> VerifySignature(env, At(n, id).tx))
  }

  // A built block is what the engine generates from the pool on the current head.
  ghost predicate BuiltOnHead(env: Env, n: Node) {
    && (n.producer.HasBoth? ==> n.pool != [])
    && (n.producer.Built? || n.producer.Holding? ==>
          n.pool != [] && GenerateBlock(env, n.pool, HeadOf(n.run)) == Ok(n.producer.block))
  }

  function HeadOf(r: Run): Block {
    if r.state.latestHash in r.store.blocks then r.store.blocks[r.state.latestHash] else UNHASHED_GENESIS
  }

  ghost predicate Timed(r: Run) {
    && HeadOf(r).timestamp == HeadOf(r).index
    && forall b | b in r.applied :: b.timestamp == b.index
  }

  lemma GeneratedTimes(env: Env, pool: seq<Transaction>, prev: Block, b: Block)
    requires GenerateBlock(env, pool, prev) == Ok(b) && prev.timestamp == prev.index
    ensures b.timestamp == b.index && b.transactions == pool
  {
    hide BlockHash;
  }

  lemma AttemptKeepsTimes(env: Env, mode: Reads, r: Run, b: Block)
    requires Timed(r) && b.timestamp == b.index
    ensures Timed(Attempt(env, mode, r, b))
  {
    hide ValidateBlock, StageAll, CodeAfter;
  }

  lemma StepKeepsRun(env: Env, mode: Reads, locking: Locking, accounts: Accounts, n: Node, s: Step)
    requires OnRun(env, mode, accounts, n) && BuiltOnHead(env, n) && Next(env, mode, locking, n, s).Some?
    requires env.overflowChecks || |n.attempts| + 1 < U64_LIMIT
    ensures OnRun(env, mode, accounts, Next(env, mode, locking, n, s).value)
  {
    hide VerifySignature, Attempt, GenerateBlock, Invariant, Timed;
    var next := Next(env, mode, locking, n, s).value;
    if s.Apply? {
      var b := n.producer.block;
      assert next.attempts[..|next.attempts| - 1] == n.attempts;
      AppliedBound(env, mode, accounts, n.attempts);
      AttemptKeepsInvariant(env, mode, n.run, b);
      HeadTimes(n.run);
      GeneratedTimes(env, n.pool, HeadOf(n.run), b);
      AttemptKeepsTimes(env, mode, n.run, b);
    } else {
      assert next.run == n.run && next.attempts == n.attempts;
    }
  }

  lemma StepKeepsVerified(env: Env, mode: Reads, locking: Locking, n: Node, s: Step)
    requires PoolVerified(env, n) && Next(env, mode, locking, n, s).Some?
    ensures PoolVerified(env, Next(env, mode, locking, n, s).value)
  {
    hide VerifySignature, Attempt, GenerateBlock;
    var next := Next(env, mode, locking, n, s).value;
    if BySubmitter(s) {
      forall id: nat | id != s.id ensures At(next, id) == At(n, id) {
      }
    } else {
      assert next.pool == n.pool || next.pool == [];
      assert forall id: nat :: At(next, id) == At(n, id);
    }
  }

  lemma StepKeepsBuilt(env: Env, mode: Reads, locking: Locking, n: Node, s: Step)
    requires LocksHeld(n) && BuiltOnHead(env, n) && Next(env, mode, locking, n, s).Some?
    ensures BuiltOnHead(env, Next(env, mode, locking, n, s).value)
  {
    hide VerifySignature, Attempt, GenerateBlock;
    if s.Push? {
      assert SubmitterHoldsChain(At(n, s.id));
    }
  }

  lemma HeadTimes(r: Run)
    requires Timed(r)
    ensures HeadOf(r).timestamp == HeadOf(r).index
  {
  }

  // ---------- every interleaving ----------

  ghost predicate Safe(env: Env, mode: Reads, accounts: Accounts, n: Node) {
    && LocksHeld(n)
    && Accounted(n)
    && NoncesAbove(n)
    && OnRun(env, mode, accounts, n)
    && PoolVerified(env, n)
    && BuiltOnHead(env, n)
  }

  lemma StartIsTimed(env: Env, accounts: Accounts)
    ensures Timed(Start(env, accounts)) && Start(env, accounts).applied == []
  {
    hide BlockHash;
  }

  lemma BootIsSafe(env: Env, mode: Reads, accounts: Accounts)
    ensures Safe(env, mode, accounts, Boot(env, accounts))
  {
    StartInvariant(env, accounts);
    StartIsTimed(env, accounts);
    hide Start, Timed, Invariant, VerifySignature, GenerateBlock;
  }

  lemma AttemptsCounted(env: Env, mode: Reads, locking: Locking, n: Node, s: Step)
    requires Next(env, mode, locking, n, s).Some?
    ensures |Next(env, mode, locking, n, s).value.attempts| <= |n.attempts| + 1
  {
    hide VerifySignature, Attempt, GenerateBlock;
  }

  // In every interleaving the locks are held as the code holds them; every accepted transaction
  // is in the pool or in a committed block, in the order of acceptance; the nonce of every
  // pending one is above the stored one; and the committed blocks are a run from genesis.
  lemma {:induction false} AlwaysSafe(env: Env, mode: Reads, locking: Locking, accounts: Accounts, steps: seq<Step>)
    requires env.overflowChecks || |steps| < U64_LIMIT
    requires Execute(env, mode, locking, Boot(env, accounts), steps).Some?
    ensures var n := Execute(env, mode, locking, Boot(env, accounts), steps).value;
      Safe(env, mode, accounts, n) && |n.attempts| <= |steps|
  {
    hide Safe, Next, Boot;
    if steps == [] {
      BootIsSafe(env, mode, accounts);
      BootIsBare(env, accounts);
    } else {
      var last := |steps| - 1;
      AlwaysSafe(env, mode, locking, accounts, steps[..last]);
      var before := Execute(env, mode, locking, Boot(env, accounts), steps[..last]).value;
      SafeStep(env, mode, locking, accounts, before, steps[last]);
      AttemptsCounted(env, mode, locking, before, steps[last]);
    }
  }

  lemma BootIsBare(env: Env, accounts: Accounts)
    ensures Boot(env, accounts).attempts == []
  {
  }

  lemma SafeStep(env: Env, mode: Reads, locking: Locking, accounts: Accounts, n: Node, s: Step)
    requires Safe(env, mode, accounts, n) && Next(env, mode, locking, n, s).Some?
    requires env.overflowChecks || |n.attempts| + 1 < U64_LIMIT
    ensures Safe(env, mode, accounts, Next(env, mode, locking, n, s).value)
  {
    hide Next, LocksHeld, Accounted, NoncesAbove, OnRun, PoolVerified, BuiltOnHead;
    StepKeepsLocks(env, mode, locking, n, s);
    StepKeepsAccount(env, mode, locking, n, s);
    StepKeepsNonces(env, mode, locking, n, s);
    StepKeepsRun(env, mode, locking, accounts, n, s);
    StepKeepsVerified(env, mode, locking, n, s);
    StepKeepsBuilt(env, mode, locking, n, s);
  }

  // In every interleaving everything in the pool, and in every committed block, is signed by its
  // sender.
  lemma EverySigned(env: Env, mode: Reads, locking: Locking, accounts: Accounts, steps: seq<Step>)
    requires env.overflowChecks || |steps| < U64_LIMIT
    requires Execute(env, mode, locking, Boot(env, accounts), steps).Some?
    ensures var n := Execute(env, mode, locking, Boot(env, accounts), steps).value;
      && (forall t | t in n.pool :: SenderSigned(env, t))
      && (forall b | b in n.run.applied :: forall t | t in b.transactions :: SenderSigned(env, t))
  {
    AlwaysSafe(env, mode, locking, accounts, steps);
    hide Execute, Boot, VerifySignature, SenderSigned, LocksHeld, Accounted, NoncesAbove, BuiltOnHead, Invariant, Timed, RunAll;
    var n := Execute(env, mode, locking, Boot(env, accounts), steps).value;
    forall t | t in n.pool ensures SenderSigned(env, t) {
      VerifiedExact(env, t);
    }
    Commits.RunSigned(env, mode, accounts, n.attempts);
  }

  // The clear removes exactly the transactions of the block just committed, and no accepted
  // transaction with them that is not in a committed block.
  lemma ClearIsExact(env: Env, mode: Reads, locking: Locking, accounts: Accounts, n: Node)
    requires Safe(env, mode, accounts, n) && n.producer.Clearing?
    ensures n.pool == n.producer.block.transactions
    ensures n.accepted == Flatten(n.run.applied)
    ensures Next(env, mode, locking, n, Clear) == Some(n.(producer := Finishing, pool := [], poolLock := None))
  {
    hide Attempt, GenerateBlock, Invariant, Timed, VerifySignature, LocksHeld, NoncesAbove, OnRun, PoolVerified, BuiltOnHead;
    assert Flatten(n.run.applied) + [] == Flatten(n.run.applied);
  }

  // Every block the producer builds passes validation; only applying it can fail. Committed
  // timestamps equal indices.
  lemma BuiltValidates(env: Env, mode: Reads, accounts: Accounts, n: Node)
    requires Safe(env, mode, accounts, n) && n.producer.Holding?
    requires |n.run.applied| + 1 < U64_LIMIT
    ensures ValidateBlock(env, n.run.store.blocks, n.producer.block, n.run.state).Ok?
    ensures forall b | b in n.run.applied :: b.timestamp == b.index
  {
    hide GenerateBlock, ValidateBlock, Linked, VerifySignature, BlockHash, Genesis, Indexed, Hashed, Chain.Verified,
         LocksHeld, Accounted;
    HeadIndex(env, n.run);
    HeadTimes(n.run);
    assert HeadOf(n.run) == n.run.store.blocks[n.run.state.latestHash];
    GeneratedValidates(env, n.run, n.pool);
  }

  // ---------- without interference ----------

  // Each step leads from one node to the next.
  ghost predicate Follows(env: Env, mode: Reads, locking: Locking, nodes: seq<Node>, steps: seq<Step>) {
    && |nodes| == |steps| + 1
    && forall i | 0 <= i < |steps| :: Next(env, mode, locking, nodes[i], steps[i]) == Some(nodes[i + 1])
  }

  lemma {:induction false} Traced(env: Env, mode: Reads, locking: Locking, nodes: seq<Node>, steps: seq<Step>)
    requires Follows(env, mode, locking, nodes, steps)
    ensures Execute(env, mode, locking, nodes[0], steps) == Some(nodes[|steps|])
  {
    hide Next;
    if steps != [] {
      var last := |steps| - 1;
      Traced(env, mode, locking, nodes[..last + 1], steps[..last]);
    }
  }

  // The stations of a submission, from the arrival of its transaction to its departure.
  function Submission(n: Node, id: nat, t: Transaction): seq<Node> {
    var actor, pushed := Some(Submitter(id)), n.(pool := n.pool + [t], accepted := n.accepted + [t]);
    [ n,
      Move(n, id, Verified(t)),
      Move(n.(chainLock := actor), id, HasChain(t)),
      Move(n.(chainLock := actor), id, Accepting(t)),
      Move(n.(chainLock := actor, poolLock := actor), id, Pushing(t)),
      Move(pushed.(chainLock := actor), id, Leaving),
      Move(pushed, id, Away) ]
  }

  function SubmissionSteps(id: nat, t: Transaction): seq<Step> {
    [Begin(id, t), EnterChain(id), CheckNonce(id), EnterPool(id), Push(id), Leave(id)]
  }

  lemma SubmissionFollows(env: Env, mode: Reads, locking: Locking, n: Node, id: nat, t: Transaction)
    requires LocksHeld(n) && n.poolLock.None? && n.chainLock.None? && At(n, id).Away?
    requires Acceptable(env, n.run.store.accounts, t)
    ensures Execute(env, mode, locking, n, SubmissionSteps(id, t))
         == Some(Move(n.(pool := n.pool + [t], accepted := n.accepted + [t]), id, Away))
  {
    hide LocksHeld, VerifySignature, Execute, ProducerStep;
    Again(n.submitters, id, Verified(t), HasChain(t));
    Again(n.submitters, id, HasChain(t), Accepting(t));
    Again(n.submitters, id, Accepting(t), Pushing(t));
    Again(n.submitters, id, Pushing(t), Leaving);
    Again(n.submitters, id, Leaving, Away);
    Traced(env, mode, locking, Submission(n, id, t), SubmissionSteps(id, t));
  }

  // A transaction that its sender has not signed does not get past the first step.
  lemma UnsignedStops(env: Env, mode: Reads, locking: Locking, n: Node, id: nat, t: Transaction)
    requires At(n, id).Away? && !VerifySignature(env, t)
    ensures Execute(env, mode, locking, n, SubmissionSteps(id, t)).None?
  {
    hide VerifySignature, Execute, ProducerStep;
    var done, more := [Begin(id, t)], [EnterChain(id), CheckNonce(id), EnterPool(id), Push(id), Leave(id)];
    Traced(env, mode, locking, [n, n], done);
    assert done + more == SubmissionSteps(id, t);
    Disabled(env, mode, locking, n, done, more);
  }

  // One whose nonce is too low not past the third, and gives the lock back.
  lemma LowNonceStops(env: Env, mode: Reads, locking: Locking, n: Node, id: nat, t: Transaction)
    requires n.chainLock.None? && At(n, id).Away?
    requires VerifySignature(env, t) && !NonceAbove(n.run.store.accounts, t)
    ensures Execute(env, mode, locking, n, SubmissionSteps(id, t)).None?
    ensures Execute(env, mode, locking, n, SubmissionSteps(id, t)[..3]) == Some(Move(n, id, Away))
  {
    hide VerifySignature, Execute, ProducerStep;
    var done, more := [Begin(id, t), EnterChain(id), CheckNonce(id)], [EnterPool(id), Push(id), Leave(id)];
    Again(n.submitters, id, Verified(t), HasChain(t));
    Again(n.submitters, id, HasChain(t), Away);
    var nodes := [n, Move(n, id, Verified(t)), Move(n.(chainLock := Some(Submitter(id))), id, HasChain(t)), Move(n, id, Away)];
    assert Follows(env, mode, locking, nodes, done);
    Traced(env, mode, locking, nodes, done);
    assert done + more == SubmissionSteps(id, t) && SubmissionSteps(id, t)[..3] == done;
    Disabled(env, mode, locking, n, done, more);
  }

  // Left alone, a submission reaches its end if and only if its sender has signed the transaction
  // and its nonce is above the stored one; it then is at the end of the pool.
  lemma SubmitAlone(env: Env, mode: Reads, locking: Locking, n: Node, id: nat, t: Transaction)
    requires LocksHeld(n) && n.poolLock.None? && n.chainLock.None? && At(n, id).Away?
    ensures var after := Execute(env, mode, locking, n, SubmissionSteps(id, t));
      && (after.Some? <==> SenderSigned(env, t) && NonceAbove(n.run.store.accounts, t))
      && (after.Some? ==> after == Some(Move(n.(pool := n.pool + [t], accepted := n.accepted + [t]), id, Away)))
  {
    hide LocksHeld, VerifySignature, SenderSigned, Execute, Acceptable, NonceAbove, SubmissionSteps;
    VerifiedExact(env, t);
    AcceptableExact(env, n.run.store.accounts, t);
    if Acceptable(env, n.run.store.accounts, t) {
      SubmissionFollows(env, mode, locking, n, id, t);
    } else if !VerifySignature(env, t) {
      UnsignedStops(env, mode, locking, n, id, t);
    } else {
      LowNonceStops(env, mode, locking, n, id, t);
    }
  }

  // The steps and the runtime object agree: on the same accounts and pool, the steps reach their
  // end exactly when the method answers with success, and leave the same pool.
  method SubmissionsAgree(runtime: Runtime, mode: Reads, locking: Locking, ghost n: Node, ghost id: nat, t: Transaction)
    returns (r: Result<(), RuntimeError>)
    requires runtime.Valid() && runtime.storage.View() == n.run.store && runtime.mempool == n.pool
    requires LocksHeld(n) && n.poolLock.None? && n.chainLock.None? && At(n, id).Away?
    modifies runtime`mempool
    ensures var after := Execute(runtime.env, mode, locking, n, SubmissionSteps(id, t));
      (r.Ok? <==> after.Some?) && runtime.mempool == (if after.Some? then after.value.pool else n.pool)
  {
    hide LocksHeld, VerifySignature, SenderSigned, Execute, SubmissionSteps;
    SubmitAlone(runtime.env, mode, locking, n, id, t);
    r := runtime.SubmitTransaction(t);
  }

  // Moving twice is moving to the last place.
  lemma Again(at: map<nat, SubmitterAt>, id: nat, a: SubmitterAt, b: SubmitterAt)
    ensures at[id := a][id := b] == at[id := b]
  {
  }

  // The stations of a production up to the ledger's answer, and from there to the end.
  function Production(n: Node, b: Block, run: Run): seq<Node> {
    var both := n.(poolLock := Some(Producer), chainLock := Some(Producer));
    [ n,
      n.(producer := HasPool, poolLock := Some(Producer)),
      both.(producer := HasBoth),
      both.(producer := Built(b)),
      n.(producer := Holding(b), chainLock := Some(Producer)),
      if |run.applied| > |n.run.applied|
      then n.(producer := Committed(b), chainLock := Some(Producer), run := run, attempts := n.attempts + [b])
      else n.(run := run, attempts := n.attempts + [b]) ]
  }

  function Clearance(n: Node, b: Block, run: Run): seq<Node> {
    var chain := n.(chainLock := Some(Producer), run := run, attempts := n.attempts + [b]);
    [ chain.(producer := Clearing(b), poolLock := Some(Producer)),
      chain.(producer := Finishing, pool := []),
      n.(run := run, attempts := n.attempts + [b], pool := []) ]
  }

  const TO_LEDGER: seq<Step> := [LockPool, LockChain, Build, DropPool, Apply]
  const TO_END: seq<Step> := [RelockPool, Clear, Finish]

  // On a safe node with an idle producer the pool gives a block that validates, and the ledger
  // commits it exactly when the pool can be staged.
  lemma PoolCommits(env: Env, mode: Reads, accounts: Accounts, n: Node) returns (b: Block)
    requires Safe(env, mode, accounts, n) && n.pool != [] && |n.run.applied| + 1 < U64_LIMIT
    ensures n.run.state.latestHash in n.run.store.blocks
    ensures GenerateBlock(env, n.pool, n.run.store.blocks[n.run.state.latestHash]) == Ok(b) && b.transactions == n.pool
    ensures Attempt(env, mode, n.run, b).applied
         == if StageAll(env, mode, n.run.store.accounts, n.pool).Done? then n.run.applied + [b] else n.run.applied
  {
    hide ValidateBlock, Linked, VerifySignature, BlockHash, Genesis, Indexed, Hashed, Chain.Verified, LocksHeld, Accounted,
         NoncesAbove, BuiltOnHead, StageAll, CodeAfter;
    var head := n.run.store.blocks[n.run.state.latestHash];
    HeadIndex(env, n.run);
    HeadTimes(n.run);
    assert HeadOf(n.run) == head;
    GeneratedValidates(env, n.run, n.pool);
    b := GenerateBlock(env, n.pool, head).value;
    GeneratedTimes(env, n.pool, head, b);
  }

  // A production with a block to build follows its stations.
  lemma ReachesLedger(env: Env, mode: Reads, n: Node, b: Block)
    requires n.producer.Idle? && n.poolLock.None? && n.chainLock.None? && n.pool != []
    requires n.run.state.latestHash in n.run.store.blocks
    requires GenerateBlock(env, n.pool, n.run.store.blocks[n.run.state.latestHash]) == Ok(b)
    ensures Follows(env, mode, OneHold, Production(n, b, Attempt(env, mode, n.run, b)), TO_LEDGER)
  {
    hide Attempt, GenerateBlock, SubmitterStep;
  }

  lemma TurnsBack(env: Env, mode: Reads, n: Node, b: Block)
    requires n.producer.Idle?
    requires Attempt(env, mode, n.run, b).applied == n.run.applied
    requires Follows(env, mode, OneHold, Production(n, b, Attempt(env, mode, n.run, b)), TO_LEDGER)
    ensures Execute(env, mode, OneHold, n, TO_LEDGER)
         == Some(n.(run := Attempt(env, mode, n.run, b), attempts := n.attempts + [b]))
    ensures Execute(env, mode, OneHold, n, TO_LEDGER + TO_END).None?
  {
    hide Attempt, GenerateBlock, Execute, SubmitterStep;
    var nodes := Production(n, b, Attempt(env, mode, n.run, b));
    var back := n.(run := Attempt(env, mode, n.run, b), attempts := n.attempts + [b]);
    assert nodes[0] == n && nodes[5] == back;
    assert Next(env, mode, OneHold, back, TO_END[0]).None?;
    hide Next, Follows, Production;
    Traced(env, mode, OneHold, nodes, TO_LEDGER);
    Disabled(env, mode, OneHold, n, TO_LEDGER, TO_END);
  }

  lemma ReachesEnd(env: Env, mode: Reads, n: Node, b: Block)
    requires n.producer.Idle? && n.poolLock.None? && n.chainLock.None?
    requires Attempt(env, mode, n.run, b).applied == n.run.applied + [b]
    requires Follows(env, mode, OneHold, Production(n, b, Attempt(env, mode, n.run, b)), TO_LEDGER)
    ensures Execute(env, mode, OneHold, n, TO_LEDGER + TO_END)
         == Some(n.(run := Attempt(env, mode, n.run, b), attempts := n.attempts + [b], pool := []))
  {
    hide Attempt, GenerateBlock, Execute, SubmitterStep;
    var run := Attempt(env, mode, n.run, b);
    assert |run.applied| > |n.run.applied|;
    var first, rest := Production(n, b, run), Clearance(n, b, run);
    var nodes, steps := first + rest, TO_LEDGER + TO_END;
    assert Next(env, mode, OneHold, first[5], RelockPool) == Some(rest[0]);
    assert Next(env, mode, OneHold, rest[0], Clear) == Some(rest[1]);
    assert Next(env, mode, OneHold, rest[1], Finish) == Some(rest[2]);
    hide Next;
    forall i | 0 <= i < |steps| ensures Next(env, mode, OneHold, nodes[i], steps[i]) == Some(nodes[i + 1]) {
      if i < 5 {
        assert steps[i] == TO_LEDGER[i] && nodes[i] == first[i] && nodes[i + 1] == first[i + 1];
      }
    }
    Traced(env, mode, OneHold, nodes, steps);
  }

  // Left alone, a production reaches its end if and only if the pool can be staged: it then has
  // committed the whole pool and emptied it. Otherwise the ledger's answer leads straight back
  // to where the producer started, with the pool as it was and nothing committed.
  lemma ProduceAlone(env: Env, mode: Reads, accounts: Accounts, n: Node) returns (b: Block)
    requires Safe(env, mode, accounts, n)
    requires n.producer.Idle? && n.poolLock.None? && n.chainLock.None? && n.pool != []
    requires |n.run.applied| + 1 < U64_LIMIT
    ensures n.run.state.latestHash in n.run.store.blocks
    ensures GenerateBlock(env, n.pool, n.run.store.blocks[n.run.state.latestHash]) == Ok(b) && b.transactions == n.pool
    ensures var run, staged := Attempt(env, mode, n.run, b), StageAll(env, mode, n.run.store.accounts, n.pool);
      && (Execute(env, mode, OneHold, n, TO_LEDGER + TO_END).Some? <==> staged.Done?)
      && (staged.Done? ==>
            && run.applied == n.run.applied + [b]
            && Execute(env, mode, OneHold, n, TO_LEDGER + TO_END)
                 == Some(n.(run := run, attempts := n.attempts + [b], pool := [])))
      && (staged.Failed? ==>
            && run.applied == n.run.applied
            && Execute(env, mode, OneHold, n, TO_LEDGER) == Some(n.(run := run, attempts := n.attempts + [b])))
  {
    hide Safe, Attempt, GenerateBlock, Execute, StageAll, Follows, Production, Next;
    b := PoolCommits(env, mode, accounts, n);
    ReachesLedger(env, mode, n, b);
    if StageAll(env, mode, n.run.store.accounts, n.pool).Done? {
      ReachesEnd(env, mode, n, b);
    } else {
      TurnsBack(env, mode, n, b);
    }
  }

  lemma AttemptIgnoresPast(env: Env, mode: Reads, r: Run, b: Block)
    ensures var next, bare := Attempt(env, mode, r, b), Attempt(env, mode, r.(applied := []), b);
      && bare.store == next.store && bare.state == next.state
      && (bare.applied == [] <==> next.applied == r.applied) && (bare.applied != [] <==> next.applied == r.applied + [b])
  {
    hide ValidateBlock, StageAll, CodeAfter;
    assert |r.applied + [b]| == |r.applied| + 1;
  }

  // Production, too, is the same by steps and by the runtime object: on the same stored state,
  // chain state and pool, the steps reach their end exactly when the method answers with a block,
  // and both leave the same.
  method ProductionsAgree(runtime: Runtime, ghost accounts: Accounts, ghost n: Node)
    returns (r: Result<Block, RuntimeError>)
    requires runtime.Valid() && Safe(runtime.env, runtime.ledger.mode, accounts, n)
    requires runtime.storage.View() == n.run.store && runtime.chainState == n.run.state && runtime.mempool == n.pool
    requires n.producer.Idle? && n.poolLock.None? && n.chainLock.None? && n.pool != []
    requires |n.run.applied| + 1 < U64_LIMIT
    modifies runtime`mempool, runtime`chainState, runtime.storage
    ensures var after := Execute(runtime.env, runtime.ledger.mode, OneHold, n, TO_LEDGER + TO_END);
      && (r.Ok? <==> after.Some?)
      && (after.Some? ==>
            && runtime.storage.View() == after.value.run.store && runtime.chainState == after.value.run.state
            && runtime.mempool == after.value.pool && after.value.run.applied == n.run.applied + [r.value])
  {
    ghost var b := ProduceAlone(runtime.env, runtime.ledger.mode, accounts, n);
    AttemptIgnoresPast(runtime.env, runtime.ledger.mode, n.run, b);
    hide Safe, Attempt, GenerateBlock, Execute, StageAll;
    r := runtime.ProduceBlock();
  }

  // Steps whose first one is not enabled lead nowhere.
  lemma {:induction false} Disabled(env: Env, mode: Reads, locking: Locking, n: Node, done: seq<Step>, more: seq<Step>)
    requires more != [] && Execute(env, mode, locking, n, done).Some?
    requires Next(env, mode, locking, Execute(env, mode, locking, n, done).value, more[0]).None?
    ensures Execute(env, mode, locking, n, done + more).None?
  {
    hide Next;
    var last := |more| - 1;
    assert (done + more)[..|done + more| - 1] == done + more[..last];
    if last == 0 {
      assert done + more[..0] == done;
    } else {
      Disabled(env, mode, locking, n, done, more[..last]);
    }
  }

  // ---------- the second lock ----------

  // With the second lock of the source, no block is ever handed to the ledger.
  lemma {:induction false} SecondLockNeverCommits(env: Env, mode: Reads, accounts: Accounts, steps: seq<Step>)
    requires Execute(env, mode, SecondLock, Boot(env, accounts), steps).Some?
    ensures var n := Execute(env, mode, SecondLock, Boot(env, accounts), steps).value;
      LocksHeld(n) && n.attempts == [] && n.run == Start(env, accounts)
  {
    hide Start, VerifySignature, Attempt, GenerateBlock;
    if steps != [] {
      var last := |steps| - 1;
      SecondLockNeverCommits(env, mode, accounts, steps[..last]);
      var before := Execute(env, mode, SecondLock, Boot(env, accounts), steps[..last]).value;
      StepKeepsLocks(env, mode, SecondLock, before, steps[last]);
    }
  }

  // ---------- no progress ----------

  // The producer holds the pool and waits for the chain state, a submitter the other way round.
  ghost predicate Deadlocked(n: Node, id: nat) {
    && n.producer == HasPool && n.poolLock == Some(Producer) && n.pool != []
    && At(n, id).Accepting? && n.chainLock == Some(Submitter(id))
  }

  // Neither of the two moves again, whatever the others do, and nothing is accepted or committed.
  lemma {:induction false} DeadlockIsForever(env: Env, mode: Reads, locking: Locking, n: Node, id: nat, steps: seq<Step>)
    requires LocksHeld(n) && Deadlocked(n, id)
    requires Execute(env, mode, locking, n, steps).Some?
    ensures var after := Execute(env, mode, locking, n, steps).value;
      && LocksHeld(after) && Deadlocked(after, id)
      && after.run == n.run && after.pool == n.pool && after.accepted == n.accepted
  {
    hide VerifySignature, Attempt, GenerateBlock;
    if steps != [] {
      var last := |steps| - 1;
      DeadlockIsForever(env, mode, locking, n, id, steps[..last]);
      var before := Execute(env, mode, locking, n, steps[..last]).value;
      StepKeepsLocks(env, mode, locking, before, steps[last]);
    }
  }

  // The four steps of the race, one after the other.
  lemma Race(env: Env, mode: Reads, locking: Locking, n: Node, id: nat, t: Transaction)
    returns (n1: Node, n2: Node, n3: Node, n4: Node)
    requires LocksHeld(n) && n.producer.Idle? && n.poolLock.None? && n.chainLock.None? && n.pool != []
    requires At(n, id).Away? && Acceptable(env, n.run.store.accounts, t)
    ensures Next(env, mode, locking, n, Begin(id, t)) == Some(n1)
    ensures Next(env, mode, locking, n1, EnterChain(id)) == Some(n2)
    ensures Next(env, mode, locking, n2, CheckNonce(id)) == Some(n3)
    ensures Next(env, mode, locking, n3, LockPool) == Some(n4)
    ensures Deadlocked(n4, id)
  {
    hide LocksHeld;
    n1 := Move(n, id, Verified(t));
    n2 := Move(n1.(chainLock := Some(Submitter(id))), id, HasChain(t));
    n3 := Move(n2, id, Accepting(t));
    n4 := n3.(producer := HasPool, poolLock := Some(Producer));
    hide VerifySignature;
  }

  // It is reached from any idle node whose pool is not empty by one submission: the two
  // functions take the locks in opposite orders.
  lemma DeadlockIsReachable(env: Env, mode: Reads, locking: Locking, n: Node, id: nat, t: Transaction)
    requires LocksHeld(n) && n.producer.Idle? && n.poolLock.None? && n.chainLock.None? && n.pool != []
    requires At(n, id).Away? && Acceptable(env, n.run.store.accounts, t)
    ensures var steps := [Begin(id, t), EnterChain(id), CheckNonce(id), LockPool];
      && Execute(env, mode, locking, n, steps).Some?
      && Deadlocked(Execute(env, mode, locking, n, steps).value, id)
  {
    var n1, n2, n3, n4 := Race(env, mode, locking, n, id, t);
    hide Next, Deadlocked;
    var s1 := [] + [Begin(id, t)];
    var s2 := s1 + [EnterChain(id)];
    var s3 := s2 + [CheckNonce(id)];
    Then(env, mode, locking, n, [], Begin(id, t), n, n1);
    Then(env, mode, locking, n, s1, EnterChain(id), n1, n2);
    Then(env, mode, locking, n, s2, CheckNonce(id), n2, n3);
    Then(env, mode, locking, n, s3, LockPool, n3, n4);
    assert s3 + [LockPool] == [Begin(id, t), EnterChain(id), CheckNonce(id), LockPool];
  }

  lemma Then(env: Env, mode: Reads, locking: Locking, n: Node, steps: seq<Step>, s: Step, before: Node, after: Node)
    requires Execute(env, mode, locking, n, steps) == Some(before) && Next(env, mode, locking, before, s) == Some(after)
    ensures Execute(env, mode, locking, n, steps + [s]) == Some(after)
  {
    hide Next;
    assert (steps + [s])[..|steps + [s]| - 1] == steps;
  }

  // A pool whose transactions cannot all be applied is never emptied: each later block starts
  // with the same transactions and fails at the same one.
  ghost predicate Stuck(env: Env, mode: Reads, n: Node, store: Store, bad: seq<Transaction>) {
    && n.run.store.accounts == store.accounts
    && StageAll(env, mode, store.accounts, bad).Failed?
    && |bad| <= |n.pool| && n.pool[..|bad|] == bad
    && !AwaitingClear(n.producer) && !n.producer.Finishing?
  }

  // A transaction that the code's own reads can never stage on these accounts: from a sender
  // without an account, or with a nonce that is not the next one.
  predicate Unstageable(env: Env, accounts: Accounts, t: Transaction) {
    t.sender !in accounts || Add(env, accounts[t.sender].nonce, 1, NextNonce) != Ok(t.nonce)
  }

  lemma UnstageableFails(env: Env, accounts: Accounts, pool: seq<Transaction>, t: Transaction)
    requires Unstageable(env, accounts, t)
    ensures StageAll(env, StorageOnly, accounts, pool + [t]).Failed?
  {
    assert (pool + [t])[..|pool|] == pool;
    assert (pool + [t])[..|pool + [t]| - 1] == pool;
  }

  // Such a transaction may well be accepted: the check at submission asks for a higher nonce, and
  // takes that of a missing account for zero. One such submission to an idle node, whatever its
  // pool, leaves it stuck.
  lemma StuckIsReachable(env: Env, locking: Locking, n: Node, id: nat, t: Transaction)
    requires LocksHeld(n) && Accounted(n)
    requires n.producer.Idle? && n.poolLock.None? && n.chainLock.None? && At(n, id).Away?
    requires Acceptable(env, n.run.store.accounts, t) && Unstageable(env, n.run.store.accounts, t)
    ensures var steps := SubmissionSteps(id, t);
      var after := Execute(env, StorageOnly, locking, n, steps);
      && after.Some?
      && after.value.pool == n.pool + [t] && after.value.run == n.run
      && LocksHeld(after.value) && Accounted(after.value)
      && Stuck(env, StorageOnly, after.value, after.value.run.store, after.value.pool)
  {
    hide Execute, VerifySignature, StageAll, Unstageable, LocksHeld, Accounted, SubmissionSteps;
    SubmissionFollows(env, StorageOnly, locking, n, id, t);
    PushedAlone(n, id, t);
    UnstageableFails(env, n.run.store.accounts, n.pool, t);
    var pool := n.pool + [t];
    assert pool[..|pool|] == pool;
  }

  lemma PushedAlone(n: Node, id: nat, t: Transaction)
    requires LocksHeld(n) && Accounted(n) && n.producer.Idle? && At(n, id).Away?
    ensures var after := Move(n.(pool := n.pool + [t], accepted := n.accepted + [t]), id, Away);
      LocksHeld(after) && Accounted(after)
  {
    hide Flatten;
    var after := Move(n.(pool := n.pool + [t], accepted := n.accepted + [t]), id, Away);
    assert forall i: nat :: At(after, i) == At(n, i);
    Assoc3(Flatten(n.run.applied), n.pool, [t]);
  }

  // And for good: nothing is committed after it, whatever anyone does.
  lemma OneSubmissionHalts(env: Env, locking: Locking, n: Node, id: nat, t: Transaction, more: seq<Step>)
    requires LocksHeld(n) && Accounted(n)
    requires n.producer.Idle? && n.poolLock.None? && n.chainLock.None? && At(n, id).Away?
    requires Acceptable(env, n.run.store.accounts, t) && Unstageable(env, n.run.store.accounts, t)
    ensures var steps := SubmissionSteps(id, t);
      var after := Execute(env, StorageOnly, locking, n, steps);
      && after.Some?
      && (Execute(env, StorageOnly, locking, after.value, more).Some?
          ==> Execute(env, StorageOnly, locking, after.value, more).value.run.applied == n.run.applied)
  {
    hide LocksHeld, Accounted, Execute, Stuck, Unstageable, Acceptable, SubmissionSteps;
    StuckIsReachable(env, locking, n, id, t);
    var after := Execute(env, StorageOnly, locking, n, SubmissionSteps(id, t)).value;
    if Execute(env, StorageOnly, locking, after, more).Some? {
      StuckIsForever(env, StorageOnly, locking, after, more, after.pool);
    }
  }

  // An unknown sender's signed transaction with any positive nonce is of that kind.
  lemma UnknownSenderSticks(env: Env, accounts: Accounts, t: Transaction)
    requires t.sender !in accounts && VerifySignature(env, t) && t.nonce > 0
    ensures Acceptable(env, accounts, t) && Unstageable(env, accounts, t)
  {
    hide VerifySignature;
  }

  lemma AttemptFails(env: Env, mode: Reads, r: Run, b: Block, n: nat)
    requires n <= |b.transactions| && StageAll(env, mode, r.store.accounts, b.transactions[..n]).Failed?
    ensures Attempt(env, mode, r, b).applied == r.applied
    ensures Attempt(env, mode, r, b).store.accounts == r.store.accounts
  {
    StageFailureStays(env, mode, r.store.accounts, b.transactions, n);
    hide ValidateBlock, StageAll, CodeAfter;
  }

  lemma {:induction false} StuckIsForever(env: Env, mode: Reads, locking: Locking, n: Node, steps: seq<Step>,
                                          bad: seq<Transaction>)
    requires LocksHeld(n) && Accounted(n) && Stuck(env, mode, n, n.run.store, bad)
    requires Execute(env, mode, locking, n, steps).Some?
    ensures var after := Execute(env, mode, locking, n, steps).value;
      && LocksHeld(after) && Accounted(after) && Stuck(env, mode, after, n.run.store, bad)
      && after.run.applied == n.run.applied
  {
    hide LocksHeld, Accounted, Stuck, Next;
    if steps != [] {
      var last := |steps| - 1;
      StuckIsForever(env, mode, locking, n, steps[..last], bad);
      var before := Execute(env, mode, locking, n, steps[..last]).value;
      StepKeepsLocks(env, mode, locking, before, steps[last]);
      StepKeepsAccount(env, mode, locking, before, steps[last]);
      StuckStep(env, mode, locking, before, steps[last], n.run.store, bad);
    }
  }

  lemma StuckStep(env: Env, mode: Reads, locking: Locking, n: Node, s: Step, store: Store, bad: seq<Transaction>)
    requires LocksHeld(n) && Accounted(n) && Stuck(env, mode, n, store, bad)
    requires Next(env, mode, locking, n, s).Some?
    ensures Stuck(env, mode, Next(env, mode, locking, n, s).value, store, bad)
    ensures Next(env, mode, locking, n, s).value.run.applied == n.run.applied
  {
    hide VerifySignature, Attempt, GenerateBlock, StageAll, LocksHeld, Flatten;
    if s.Apply? {
      AttemptFails(env, mode, n.run, n.producer.block, |bad|);
    }
  }
}
