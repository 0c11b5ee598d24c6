/** The batch a block is committed with, and the bytes it becomes. */
module Batch {
  import opened Bytes
  import opened Types
  import opened Codec
  import opened Layout
  import opened Text
  import opened Ledger
  import RoundTrip

  // The operations a block stages: its transactions leave the pool, its accounts and the chain
  // state are written.
  datatype BatchOp =
    | DeletePending(hash: Hash)
    | PutAccount(key: PublicKey, account: Account)
    | PutChainState(state: ChainState)

  datatype RawOp = Put(key: Bytes, value: Bytes) | Delete(key: Bytes)

  // "global:current"
  const CURRENT: Bytes := [103, 108, 111, 98, 97, 108, 58, 99, 117, 114, 114, 101, 110, 116]

  function Serialize(op: BatchOp): RawOp {
    match op
    case DeletePending(hash) => Delete(hash)
    case PutAccount(key, account) => Put(EncBytes(key), EncAccount(account))
    case PutChainState(state) => Put(EncBytes(CURRENT), EncChainState(state))
  }

  function SerializeAll(ops: seq<BatchOp>): (raw: seq<RawOp>)
    ensures |raw| == |ops| && forall i | 0 <= i < |ops| :: raw[i] == Serialize(ops[i])
  {
    seq(|ops|, i requires 0 <= i < |ops| => Serialize(ops[i]))
  }

  function Deletions(ts: seq<Transaction>): (ops: seq<BatchOp>)
    ensures forall op | op in ops :: op.DeletePending?
  {
    if ts == [] then [] else Deletions(ts[..|ts| - 1]) + [DeletePending(ts[|ts| - 1].hash)]
  }

  // The overlay's accounts, in key order.
  function AccountWrites(overlay: Accounts, keys: seq<Bytes>): (ops: seq<BatchOp>)
    requires forall k | k in keys :: k in overlay
    ensures forall op | op in ops :: op.PutAccount? && op.key in overlay && op.account == overlay[op.key]
  {
    if keys == [] then []
    else
      var k := keys[|keys| - 1];
      assert k in keys;
      AccountWrites(overlay, keys[..|keys| - 1]) + [PutAccount(k, overlay[k])]
  }

  function BlockBatch(ts: seq<Transaction>, overlay: Accounts, state: ChainState): seq<BatchOp> {
    SortedEnumerates(overlay.Keys);
    Deletions(ts) + AccountWrites(overlay, Sorted(overlay.Keys)) + [PutChainState(state)]
  }

  // ---------- applying a batch to one tree ----------

  function ApplyRaw(tree: map<Bytes, Bytes>, op: RawOp): map<Bytes, Bytes> {
    match op
    case Put(key, value) => tree[key := value]
    case Delete(key) => tree - {key}
  }

  function ApplyRaws(tree: map<Bytes, Bytes>, ops: seq<RawOp>): map<Bytes, Bytes> {
    if ops == [] then tree else ApplyRaw(ApplyRaws(tree, ops[..|ops| - 1]), ops[|ops| - 1])
  }

  // Operations on one key are one and the same operation.
  ghost predicate Consistent(ops: seq<RawOp>) {
    forall o, p | o in ops && p in ops && o.key == p.key :: o == p
  }

  function Lookup(tree: map<Bytes, Bytes>, key: Bytes): Option<Bytes> {
    if key in tree then Some(tree[key]) else None
  }

  function Effect(op: RawOp): Option<Bytes> {
    match op
    case Put(_, value) => Some(value)
    case Delete(_) => None
  }

  lemma {:induction false} ConsistentEffect(tree: map<Bytes, Bytes>, ops: seq<RawOp>, op: RawOp)
    requires Consistent(ops) && op in ops
    ensures Lookup(ApplyRaws(tree, ops), op.key) == Effect(op)
  {
    var front, last := ops[..|ops| - 1], ops[|ops| - 1];
    assert last in ops;
    if last.key != op.key {
      assert ops == front + [last];
      ConsistentEffect(tree, front, op);
    }
  }

  lemma {:induction false} NoEffect(tree: map<Bytes, Bytes>, ops: seq<RawOp>, key: Bytes)
    requires forall op | op in ops :: op.key != key
    ensures Lookup(ApplyRaws(tree, ops), key) == Lookup(tree, key)
  {
    if ops != [] {
      NoEffect(tree, ops[..|ops| - 1], key);
    }
  }

  // Consistent operations may be applied in any order.
  lemma AnyOrder(tree: map<Bytes, Bytes>, ops: seq<RawOp>, perm: seq<RawOp>)
    requires Consistent(ops) && multiset(perm) == multiset(ops)
    ensures ApplyRaws(tree, perm) == ApplyRaws(tree, ops)
  {
    forall op: RawOp ensures op in perm <==> op in ops {
      assert op in multiset(perm) <==> op in multiset(ops);
    }
    var a, b := ApplyRaws(tree, perm), ApplyRaws(tree, ops);
    forall key: Bytes ensures Lookup(a, key) == Lookup(b, key) {
      if op :| op in ops && op.key == key {
        ConsistentEffect(tree, ops, op);
        ConsistentEffect(tree, perm, op);
      } else {
        NoEffect(tree, ops, key);
        NoEffect(tree, perm, key);
      }
    }
    SameTree(a, b);
  }

  lemma SameTree(a: map<Bytes, Bytes>, b: map<Bytes, Bytes>)
    requires forall key: Bytes :: Lookup(a, key) == Lookup(b, key)
    ensures a == b
  {
    forall key: Bytes ensures key in a <==> key in b {
      assert Lookup(a, key) == Lookup(b, key);
    }
    forall key: Bytes | key in a ensures a[key] == b[key] {
      assert Lookup(a, key) == Lookup(b, key);
    }
  }

  // The three kinds of key differ in length, so they never meet.
  lemma KeyLengths(op: BatchOp)
    ensures op.DeletePending? ==> |Serialize(op).key| == 32
    ensures op.PutAccount? ==> |Serialize(op).key| == 40
    ensures op.PutChainState? ==> |Serialize(op).key| == 22
  {
  }

  lemma SameKeySameOp(ts: seq<Transaction>, overlay: Accounts, state: ChainState, o: BatchOp, p: BatchOp)
    requires o in BlockBatch(ts, overlay, state) && p in BlockBatch(ts, overlay, state)
    requires Serialize(o).key == Serialize(p).key
    ensures o == p
  {
    KeyLengths(o);
    KeyLengths(p);
    if o.PutAccount? {
      SameSplit(Le(32, 8), o.key, Le(32, 8), p.key);
    }
  }

  lemma BatchConsistent(ts: seq<Transaction>, overlay: Accounts, state: ChainState)
    ensures Consistent(SerializeAll(BlockBatch(ts, overlay, state)))
  {
    var batch := BlockBatch(ts, overlay, state);
    var raw := SerializeAll(batch);
    hide BlockBatch, Serialize;
    forall o, p | o in raw && p in raw && o.key == p.key ensures o == p {
      var i :| 0 <= i < |raw| && raw[i] == o;
      var j :| 0 <= j < |raw| && raw[j] == p;
      SameKeySameOp(ts, overlay, state, batch[i], batch[j]);
    }
  }

  // The batch of a block leaves the same store in whatever order it is applied.
  lemma BatchOrderIndependent(tree: map<Bytes, Bytes>, ts: seq<Transaction>, overlay: Accounts, state: ChainState,
                              perm: seq<RawOp>)
    requires multiset(perm) == multiset(SerializeAll(BlockBatch(ts, overlay, state)))
    ensures ApplyRaws(tree, perm) == ApplyRaws(tree, SerializeAll(BlockBatch(ts, overlay, state)))
  {
    BatchConsistent(ts, overlay, state);
    AnyOrder(tree, SerializeAll(BlockBatch(ts, overlay, state)), perm);
  }

  lemma {:induction false} InDeletions(ts: seq<Transaction>, op: BatchOp)
    ensures op in Deletions(ts) <==> exists t :: t in ts && op == DeletePending(t.hash)
  {
    if ts != [] {
      InDeletions(ts[..|ts| - 1], op);
      assert ts == ts[..|ts| - 1] + [ts[|ts| - 1]];
    }
  }

  lemma {:induction false} InWrites(overlay: Accounts, keys: seq<Bytes>, key: PublicKey)
    requires forall k | k in keys :: k in overlay
    requires key in keys
    ensures PutAccount(key, overlay[key]) in AccountWrites(overlay, keys)
  {
    var last := |keys| - 1;
    if keys[last] != key {
      assert keys == keys[..last] + [keys[last]];
      InWrites(overlay, keys[..last], key);
    }
  }

  // The operations of a block's batch: a deletion for each transaction, a write for each account
  // of the overlay, and one for the chain state.
  lemma InBatch(ts: seq<Transaction>, overlay: Accounts, state: ChainState, op: BatchOp)
    ensures op in BlockBatch(ts, overlay, state)
       <==> match op
            case DeletePending(hash) => exists t :: t in ts && hash == t.hash
            case PutAccount(key, account) => key in overlay && account == overlay[key]
            case PutChainState(s) => s == state
  {
    SortedEnumerates(overlay.Keys);
    var keys := Sorted(overlay.Keys);
    InDeletions(ts, op);
    if op.PutAccount? && op.key in overlay {
      InWrites(overlay, keys, op.key);
    }
    hide Deletions, AccountWrites, Sorted;
  }

  lemma OpWritten(tree: map<Bytes, Bytes>, ts: seq<Transaction>, overlay: Accounts, state: ChainState, op: BatchOp)
    requires op in BlockBatch(ts, overlay, state)
    ensures Lookup(ApplyRaws(tree, SerializeAll(BlockBatch(ts, overlay, state))), Serialize(op).key) == Effect(Serialize(op))
  {
    BatchConsistent(ts, overlay, state);
    var batch := BlockBatch(ts, overlay, state);
    hide BlockBatch, Serialize, ApplyRaws;
    var i :| 0 <= i < |batch| && batch[i] == op;
    assert SerializeAll(batch)[i] == Serialize(op);
    ConsistentEffect(tree, SerializeAll(batch), Serialize(op));
  }

  lemma AccountWritten(tree: map<Bytes, Bytes>, ts: seq<Transaction>, overlay: Accounts, state: ChainState,
                       key: PublicKey, k: Bytes)
    requires key in overlay && BytesIs(k, key)
    ensures var after := ApplyRaws(tree, SerializeAll(BlockBatch(ts, overlay, state)));
      k in after && AccountIs(after[k], overlay[key]) && ReadAccount(after[k]) == Read.Done(overlay[key], [])
  {
    InBatch(ts, overlay, state, PutAccount(key, overlay[key]));
    OpWritten(tree, ts, overlay, state, PutAccount(key, overlay[key]));
    EncBytesIs(key);
    SameBytes(k, EncBytes(key), key);
    EncAccountIs(overlay[key]);
    RoundTrip.AccountRoundTrip(overlay[key], []);
    assert EncAccount(overlay[key]) + [] == EncAccount(overlay[key]);
    hide BlockBatch, ApplyRaws, EncAccount, ReadAccount, AccountIs, SerializeAll;
  }

  lemma StateWritten(tree: map<Bytes, Bytes>, ts: seq<Transaction>, overlay: Accounts, state: ChainState, name: Bytes, k: Bytes)
    requires Spells(name, "global:current") && BytesIs(k, name)
    ensures var after := ApplyRaws(tree, SerializeAll(BlockBatch(ts, overlay, state)));
      k in after && ChainStateIs(after[k], state) && ReadChainState(after[k]) == Read.Done(state, [])
  {
    assert name == CURRENT;
    InBatch(ts, overlay, state, PutChainState(state));
    OpWritten(tree, ts, overlay, state, PutChainState(state));
    EncBytesIs(name);
    SameBytes(k, EncBytes(name), name);
    EncChainStateIs(state);
    RoundTrip.ChainStateRoundTrip(state, []);
    assert EncChainState(state) + [] == EncChainState(state);
    hide BlockBatch, ApplyRaws, EncChainState, ReadChainState, ChainStateIs, SerializeAll;
  }

  lemma DeletedPending(tree: map<Bytes, Bytes>, ts: seq<Transaction>, overlay: Accounts, state: ChainState, t: Transaction)
    requires t in ts
    ensures t.hash !in ApplyRaws(tree, SerializeAll(BlockBatch(ts, overlay, state)))
  {
    InBatch(ts, overlay, state, DeletePending(t.hash));
    OpWritten(tree, ts, overlay, state, DeletePending(t.hash));
    hide BlockBatch, ApplyRaws, SerializeAll;
  }

  // A key that is none of these keeps what is under it.
  lemma OthersKept(tree: map<Bytes, Bytes>, ts: seq<Transaction>, overlay: Accounts, state: ChainState, k: Bytes)
    requires forall t | t in ts :: k != t.hash
    requires forall key | key in overlay :: !BytesIs(k, key)
    requires forall name | Spells(name, "global:current") :: !BytesIs(k, name)
    ensures Lookup(ApplyRaws(tree, SerializeAll(BlockBatch(ts, overlay, state))), k) == Lookup(tree, k)
  {
    var batch := BlockBatch(ts, overlay, state);
    var raw := SerializeAll(batch);
    hide BlockBatch, ApplyRaws, BytesIs, EncBytes, Spells;
    forall op | op in raw ensures op.key != k {
      var i :| 0 <= i < |raw| && raw[i] == op;
      InBatch(ts, overlay, state, batch[i]);
      assert batch[i] in batch;
      KeyMeans(batch[i]);
    }
    NoEffect(tree, raw, k);
  }

  // The key of an operation: a bare hash, or a length and the account's key or the name.
  lemma KeyMeans(op: BatchOp)
    ensures match op
            case DeletePending(hash) => Serialize(op).key == hash
            case PutAccount(key, _) => BytesIs(Serialize(op).key, key)
            case PutChainState(_) => Spells(CURRENT, "global:current") && BytesIs(Serialize(op).key, CURRENT)
  {
    if op.PutAccount? {
      EncBytesIs(op.key);
    }
    EncBytesIs(CURRENT);
  }

  // For every block: its batch leaves, under the key of each account it touches, the bytes of the
  // overlay's account, under the name of the chain state that state, nothing under the hash of
  // a transaction, and everything else as it was.
  lemma BatchExact(tree: map<Bytes, Bytes>, ts: seq<Transaction>, overlay: Accounts, state: ChainState, k: Bytes)
    ensures var after := ApplyRaws(tree, SerializeAll(BlockBatch(ts, overlay, state)));
      && (forall key | key in overlay && BytesIs(k, key) ::
            k in after && AccountIs(after[k], overlay[key]) && ReadAccount(after[k]) == Read.Done(overlay[key], []))
      && (forall name | Spells(name, "global:current") && BytesIs(k, name) ::
            k in after && ChainStateIs(after[k], state) && ReadChainState(after[k]) == Read.Done(state, []))
      && (forall t | t in ts && k == t.hash :: k !in after)
      && ((forall t | t in ts :: k != t.hash)
          && (forall key | key in overlay :: !BytesIs(k, key))
          && (forall name | Spells(name, "global:current") :: !BytesIs(k, name))
          ==> Lookup(after, k) == Lookup(tree, k))
  {
    var after := ApplyRaws(tree, SerializeAll(BlockBatch(ts, overlay, state)));
    hide BlockBatch, ApplyRaws, BytesIs, Spells, AccountIs, ChainStateIs, ReadAccount, ReadChainState, SerializeAll;
    forall key | key in overlay && BytesIs(k, key)
      ensures k in after && AccountIs(after[k], overlay[key]) && ReadAccount(after[k]) == Read.Done(overlay[key], [])
    {
      AccountWritten(tree, ts, overlay, state, key, k);
    }
    forall name | Spells(name, "global:current") && BytesIs(k, name)
      ensures k in after && ChainStateIs(after[k], state) && ReadChainState(after[k]) == Read.Done(state, [])
    {
      StateWritten(tree, ts, overlay, state, name, k);
    }
    forall t | t in ts && k == t.hash ensures k !in after {
      DeletedPending(tree, ts, overlay, state, t);
    }
    if (forall t | t in ts :: k != t.hash) && (forall key | key in overlay :: !BytesIs(k, key))
       && forall name | Spells(name, "global:current") :: !BytesIs(k, name)
    {
      OthersKept(tree, ts, overlay, state, k);
    }
  }
}
