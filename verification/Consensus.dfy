/** Block generation by the proof-of-authority engine. */
module Consensus {
  import opened Bytes
  import opened Types
  import opened Hashing
  import opened Ledger
  import opened Chain

  datatype ConsensusError = NoPendingTransactions | Overflow(sum: Sum)

  function Increment(env: Env, n: u64, what: Sum): Result<u64, ConsensusError> {
    match Add(env, n, 1, what)
    case Ok(m) => Ok(m)
    case Err(_) => Err(Overflow(what))
  }

  function GenerateBlock(env: Env, pending: seq<Transaction>, prev: Block): Result<Block, ConsensusError> {
    if pending == [] then Err(NoPendingTransactions)
    else
      var index :- Increment(env, prev.index, NextIndex);
      var timestamp :- Increment(env, prev.timestamp, NextTimestamp);
      var unhashed := Block(index, timestamp, prev.hash, ZERO_HASH, 0, pending, None);
      Ok(unhashed.(hash := BlockHash(env, unhashed)))
  }

  // On a run that keeps the chain invariant, generating on the head succeeds and the result
  // passes validation exactly when there is something to include, all of it verifies, and the
  // head's timestamp can be incremented.
  lemma GeneratedValidates(env: Env, r: Run, pending: seq<Transaction>)
    requires Invariant(env, r) && |r.applied| + 1 < U64_LIMIT
    ensures var prev := r.store.blocks[r.state.latestHash];
      (&& GenerateBlock(env, pending, prev).Ok?
       && ValidateBlock(env, r.store.blocks, GenerateBlock(env, pending, prev).value, r.state).Ok?)
      <==> pending != [] && (forall t | t in pending :: VerifySignature(env, t)) && prev.timestamp + 1 < U64_LIMIT
  {
    hide BlockHash, Genesis, VerifySignature, Linked, Indexed, Hashed, Verified;
    HeadIndex(env, r);
    var prev := r.store.blocks[r.state.latestHash];
    if pending != [] {
      match Increment(env, prev.timestamp, NextTimestamp)
      case Err(_) =>
      case Ok(timestamp) =>
        var unhashed := Block(prev.index + 1, timestamp, prev.hash, ZERO_HASH, 0, pending, None);
        HashIgnoresHash(env, unhashed);
        ValidatesWhen(env, r.store.blocks, unhashed.(hash := BlockHash(env, unhashed)), r.state);
    }
  }
}
