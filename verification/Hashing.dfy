/** The bytes under block and transaction hashes, and what a hash commits to. */
module Hashing {
  import opened Bytes
  import opened Types
  import opened Codec
  import opened Layout
  import RoundTrip

  // Metadata is hashed without an option tag: nothing at all when it is absent.
  function MetadataTail(o: Option<Metadata>): Bytes {
    match o
    case None => []
    case Some(m) => EncMetadata(m)
  }

  function BlockPreimage(b: Block): Bytes {
    Le(b.index, 8) + (Le(b.timestamp, 8) + (b.prevHash + (Le(b.nonce, 8) + (
      EncVec(EncTransaction, b.transactions) + MetadataTail(b.metadata)))))
  }

  function TransactionPreimage(t: Transaction): Bytes {
    t.sender + (Le(t.nonce, 8) + (Le(t.timestamp, 8) + (EncAddress(t.recipient) + (
      EncPayload(t.payload) + MetadataTail(t.metadata)))))
  }

  function BlockHash(env: Env, b: Block): Hash {
    env.digest(BlockPreimage(b))
  }

  function TransactionHash(env: Env, t: Transaction): Hash {
    env.digest(TransactionPreimage(t))
  }

  lemma BlockPreimageCut(b: Block, s: Bytes, many: Bytes, tail: Bytes)
    requires s == Le(b.index, 8) + (Le(b.timestamp, 8) + (b.prevHash + (Le(b.nonce, 8) + (
      (Le(|b.transactions|, 8) + many) + tail))))
    ensures |s| == 64 + |many| + |tail|
    ensures s[..8] == Le(b.index, 8) && s[8..16] == Le(b.timestamp, 8) && s[16..48] == b.prevHash
    ensures s[48..56] == Le(b.nonce, 8) && s[56..64] == Le(|b.transactions|, 8)
    ensures s[64..64 + |many|] == many && s[64 + |many|..] == tail
  {
    hide Le;
    var r5 := many + tail;
    var r4 := Le(|b.transactions|, 8) + r5;
    var r3 := Le(b.nonce, 8) + r4;
    var r2 := b.prevHash + r3;
    Assoc(Le(|b.transactions|, 8), many, tail);
    assert s[0..] == s;
    Cut(s, 0, Le(b.index, 8), Le(b.timestamp, 8) + r2);
    Cut(s, 8, Le(b.timestamp, 8), r2);
    Cut(s, 16, b.prevHash, r3);
    Cut(s, 48, Le(b.nonce, 8), r4);
    Cut(s, 56, Le(|b.transactions|, 8), r5);
    Cut(s, 64, many, tail);
  }

  lemma BlockPreimageIs(b: Block)
    ensures BlockHashes(BlockPreimage(b), b)
  {
    var many, tail := EncMany(EncTransaction, b.transactions), MetadataTail(b.metadata);
    assert BlockPreimage(b) == Le(b.index, 8) + (Le(b.timestamp, 8) + (b.prevHash + (Le(b.nonce, 8) + (
      (Le(|b.transactions|, 8) + many) + tail))));
    hide LittleEndian, Le, EncMany, MetadataTail, UntaggedIs, TransactionsAre, BlockPreimage;
    BlockPreimageCut(b, BlockPreimage(b), many, tail);
    LeIs(b.index, 8);
    LeIs(b.timestamp, 8);
    LeIs(b.nonce, 8);
    LeIs(|b.transactions|, 8);
    EncTransactionsAre(b.transactions);
    MetadataTailIs(b.metadata);
  }

  // The hashed bytes, by offset: these and no others.
  lemma BlockPreimageExact(p: Bytes, b: Block)
    ensures BlockHashes(p, b) <==> p == BlockPreimage(b)
  {
    hide BlockHashes, BlockPreimage;
    BlockPreimageIs(b);
    if BlockHashes(p, b) {
      SameBlockHashes(p, BlockPreimage(b), b);
    }
  }

  lemma MetadataTailIs(o: Option<Metadata>)
    ensures UntaggedIs(MetadataTail(o), o)
  {
    if o.Some? {
      EncMetadataIs(o.value);
    }
  }

  lemma TransactionPreimageCut(t: Transaction, s: Bytes, to: Bytes, payload: Bytes, tail: Bytes)
    requires s == t.sender + (Le(t.nonce, 8) + (Le(t.timestamp, 8) + (to + (payload + tail))))
    ensures var p := 48 + |to|;
      var q := p + |payload|;
      && |s| == q + |tail| && s[..32] == t.sender && s[32..40] == Le(t.nonce, 8) && s[40..48] == Le(t.timestamp, 8)
      && s[48..p] == to && s[p..q] == payload && s[q..] == tail
  {
    hide Le;
    var r3 := to + (payload + tail);
    var r2 := Le(t.timestamp, 8) + r3;
    assert s[0..] == s;
    Cut(s, 0, t.sender, Le(t.nonce, 8) + r2);
    Cut(s, 32, Le(t.nonce, 8), r2);
    Cut(s, 40, Le(t.timestamp, 8), r3);
    Cut(s, 48, to, payload + tail);
    Cut(s, 48 + |to|, payload, tail);
  }

  lemma TransactionPreimageIs(t: Transaction)
    ensures TransactionHashes(TransactionPreimage(t), t)
  {
    var to, payload, tail := EncAddress(t.recipient), EncPayload(t.payload), MetadataTail(t.metadata);
    assert TransactionPreimage(t) == t.sender + (Le(t.nonce, 8) + (Le(t.timestamp, 8) + (to + (payload + tail))));
    hide LittleEndian, Le, EncAddress, EncPayload, MetadataTail, UntaggedIs, BytesIs, AddressIs, PayloadIs, AddressSize,
         PayloadSize, TransactionPreimage;
    Sizes(t.recipient, t.payload);
    TransactionPreimageCut(t, TransactionPreimage(t), to, payload, tail);
    LeIs(t.nonce, 8);
    LeIs(t.timestamp, 8);
    EncAddressIs(t.recipient);
    EncPayloadIs(t.payload);
    MetadataTailIs(t.metadata);
  }

  lemma TransactionPreimageExact(p: Bytes, t: Transaction)
    ensures TransactionHashes(p, t) <==> p == TransactionPreimage(t)
  {
    hide TransactionHashes, TransactionPreimage;
    TransactionPreimageIs(t);
    if TransactionHashes(p, t) {
      SameTransactionHashes(p, TransactionPreimage(t), t);
    }
  }

  // A digest of the bytes of a block, or of a transaction, laid out as above.
  ghost predicate HashesBlock(env: Env, h: Hash, b: Block) {
    exists p: Bytes :: BlockHashes(p, b) && h == env.digest(p)
  }

  ghost predicate HashesTransaction(env: Env, h: Hash, t: Transaction) {
    exists p: Bytes :: TransactionHashes(p, t) && h == env.digest(p)
  }

  lemma BlockHashExact(env: Env, h: Hash, b: Block)
    ensures HashesBlock(env, h, b) <==> h == BlockHash(env, b)
  {
    hide BlockHashes, BlockPreimage;
    BlockPreimageExact(BlockPreimage(b), b);
    if HashesBlock(env, h, b) {
      var p: Bytes :| BlockHashes(p, b) && h == env.digest(p);
      BlockPreimageExact(p, b);
    }
  }

  lemma TransactionHashExact(env: Env, h: Hash, t: Transaction)
    ensures HashesTransaction(env, h, t) <==> h == TransactionHash(env, t)
  {
    hide TransactionHashes, TransactionPreimage;
    TransactionPreimageExact(TransactionPreimage(t), t);
    if HashesTransaction(env, h, t) {
      var p: Bytes :| TransactionHashes(p, t) && h == env.digest(p);
      TransactionPreimageExact(p, t);
    }
  }

  // The hash is not among the hashed fields, so storing it does not change it.
  lemma HashIgnoresHash(env: Env, b: Block)
    ensures BlockHash(env, b.(hash := BlockHash(env, b))) == BlockHash(env, b)
  {
  }

  // ---------- hashing step by step ----------

  // An incremental hasher: what it has been fed is all that matters.
  class Hasher {
    const env: Env
    var fed: Bytes

    constructor (env: Env)
      ensures this.env == env && fed == []
    {
      this.env := env;
      fed := [];
    }

    method Update(b: Bytes)
      modifies this
      ensures fed == old(fed) + b
    {
      fed := fed + b;
    }

    method Finalize() returns (h: Hash)
      ensures h == env.digest(fed)
    {
      h := env.digest(fed);
    }
  }

  lemma Regroup(a: Bytes, b: Bytes, c: Bytes, d: Bytes, e: Bytes, f: Bytes)
    ensures (((([] + a) + b) + c) + d) + e == a + (b + (c + (d + e)))
    ensures ((((([] + a) + b) + c) + d) + e) + f == a + (b + (c + (d + (e + f))))
  {
    assert [] + a == a;
    Assoc(((a + b) + c) + d, e, f);
    RegroupFour(a, b, c, d, e);
    RegroupFour(a, b, c, d, e + f);
  }

  lemma RegroupFour(a: Bytes, b: Bytes, c: Bytes, d: Bytes, e: Bytes)
    ensures (((a + b) + c) + d) + e == a + (b + (c + (d + e)))
  {
    Assoc(a, b, c + (d + e));
    Assoc(a + b, c, d + e);
    Assoc((a + b) + c, d, e);
  }

  method CalculateBlockHash(env: Env, b: Block) returns (h: Hash)
    ensures h == BlockHash(env, b) && HashesBlock(env, h, b)
  {
    BlockHashExact(env, BlockHash(env, b), b);
    var hasher := new Hasher(env);
    hasher.Update(Le(b.index, 8));
    hasher.Update(Le(b.timestamp, 8));
    hasher.Update(b.prevHash);
    hasher.Update(Le(b.nonce, 8));
    var txns := EncVec(EncTransaction, b.transactions);
    hasher.Update(txns);
    if b.metadata.Some? {
      hasher.Update(EncMetadata(b.metadata.value));
    } else {
      assert hasher.fed + [] == hasher.fed;
    }
    Regroup(Le(b.index, 8), Le(b.timestamp, 8), b.prevHash, Le(b.nonce, 8), txns, MetadataTail(b.metadata));
    h := hasher.Finalize();
  }

  method CalculateTransactionHash(env: Env, t: Transaction) returns (h: Hash)
    ensures h == TransactionHash(env, t) && HashesTransaction(env, h, t)
  {
    TransactionHashExact(env, TransactionHash(env, t), t);
    var hasher := new Hasher(env);
    hasher.Update(t.sender);
    hasher.Update(Le(t.nonce, 8));
    hasher.Update(Le(t.timestamp, 8));
    hasher.Update(EncAddress(t.recipient));
    hasher.Update(EncPayload(t.payload));
    if t.metadata.Some? {
      hasher.Update(EncMetadata(t.metadata.value));
    } else {
      assert hasher.fed + [] == hasher.fed;
    }
    Regroup(t.sender, Le(t.nonce, 8), Le(t.timestamp, 8), EncAddress(t.recipient), EncPayload(t.payload),
            MetadataTail(t.metadata));
    h := hasher.Finalize();
  }

  // ---------- injectivity of the preimages ----------

  // No demand on keys or text: only vector lengths matter to the writers.
  const ANY: Rules := Rules(Prefixed, _ => true, _ => true)

  predicate SizedBlock(b: Block) {
    ValidBlock(ANY, b)
  }

  predicate SizedTransaction(t: Transaction) {
    ValidTransaction(ANY, t)
  }

  lemma U64Prefix(m: u64, x: Bytes, n: u64, y: Bytes)
    requires Le(m, 8) + x == Le(n, 8) + y
    ensures m == n && x == y
  {
    Widths();
    SameSplit(Le(m, 8), x, Le(n, 8), y);
    LeRoundTrip(m, 8);
    LeRoundTrip(n, 8);
  }

  lemma TailInjective(o: Option<Metadata>, p: Option<Metadata>)
    requires ValidOptional(ANY, o) && ValidOptional(ANY, p)
    requires MetadataTail(o) == MetadataTail(p)
    ensures o == p
  {
    if o.Some? && p.Some? {
      RoundTrip.MetadataStep(ANY, o.value, [], []);
      RoundTrip.MetadataStep(ANY, p.value, [], []);
    }
  }

  lemma VecPrefix(ts: seq<Transaction>, x: Bytes, us: seq<Transaction>, y: Bytes)
    requires |ts| < U64_LIMIT && forall t | t in ts :: SizedTransaction(t)
    requires |us| < U64_LIMIT && forall u | u in us :: SizedTransaction(u)
    requires EncVec(EncTransaction, ts) + x == EncVec(EncTransaction, us) + y
    ensures ts == us && x == y
  {
    RoundTrip.TransactionsReadBack(ANY, ts);
    RoundTrip.TransactionsReadBack(ANY, us);
    RoundTrip.VecStep(EncTransaction, TransactionReader(ANY), ts, x, []);
    RoundTrip.VecStep(EncTransaction, TransactionReader(ANY), us, y, []);
    assert x + [] == x && y + [] == y;
  }

  lemma BlockPreimageInjective(a: Block, b: Block)
    requires SizedBlock(a) && SizedBlock(b)
    ensures BlockPreimage(a) == BlockPreimage(b) <==> a.(hash := b.hash) == b
  {
    if BlockPreimage(a) == BlockPreimage(b) {
      var a5 := EncVec(EncTransaction, a.transactions) + MetadataTail(a.metadata);
      var b5 := EncVec(EncTransaction, b.transactions) + MetadataTail(b.metadata);
      var a4, b4 := Le(a.nonce, 8) + a5, Le(b.nonce, 8) + b5;
      var a3, b3 := a.prevHash + a4, b.prevHash + b4;
      U64Prefix(a.index, Le(a.timestamp, 8) + a3, b.index, Le(b.timestamp, 8) + b3);
      U64Prefix(a.timestamp, a3, b.timestamp, b3);
      SameSplit(a.prevHash, a4, b.prevHash, b4);
      U64Prefix(a.nonce, a5, b.nonce, b5);
      VecPrefix(a.transactions, MetadataTail(a.metadata), b.transactions, MetadataTail(b.metadata));
      TailInjective(a.metadata, b.metadata);
    }
  }

  // The fields under a transaction hash: all but hash, signature, gas limit and priority.
  predicate SameHashedFields(t: Transaction, u: Transaction) {
    t.(hash := u.hash, signature := u.signature, gasLimit := u.gasLimit, priority := u.priority) == u
  }

  lemma TransactionPreimageInjective(t: Transaction, u: Transaction)
    requires SizedTransaction(t) && SizedTransaction(u)
    ensures TransactionPreimage(t) == TransactionPreimage(u) <==> SameHashedFields(t, u)
  {
    if TransactionPreimage(t) == TransactionPreimage(u) {
      var t5, u5 := EncPayload(t.payload) + MetadataTail(t.metadata), EncPayload(u.payload) + MetadataTail(u.metadata);
      var t4, u4 := EncAddress(t.recipient) + t5, EncAddress(u.recipient) + u5;
      var t3, u3 := Le(t.timestamp, 8) + t4, Le(u.timestamp, 8) + u4;
      SameSplit(t.sender, Le(t.nonce, 8) + t3, u.sender, Le(u.nonce, 8) + u3);
      U64Prefix(t.nonce, t3, u.nonce, u3);
      U64Prefix(t.timestamp, t4, u.timestamp, u4);
      RoundTrip.AddressStep(ANY, t.recipient, t5, []);
      RoundTrip.AddressStep(ANY, u.recipient, u5, []);
      assert t5 + [] == t5 && u5 + [] == u5;
      RoundTrip.PayloadStep(ANY, t.payload, MetadataTail(t.metadata), []);
      RoundTrip.PayloadStep(ANY, u.payload, MetadataTail(u.metadata), []);
      assert MetadataTail(t.metadata) + [] == MetadataTail(t.metadata);
      assert MetadataTail(u.metadata) + [] == MetadataTail(u.metadata);
      TailInjective(t.metadata, u.metadata);
    }
  }

  // ---------- signatures ----------

  function Signed(env: Env, sign: Bytes -> Signature, t: Transaction): Transaction {
    var hash := TransactionHash(env, t);
    t.(hash := hash, signature := sign(hash))
  }

  predicate VerifySignature(env: Env, t: Transaction) {
    t.hash == TransactionHash(env, t) && env.verify(t.sender, t.hash, t.signature)
  }

  // The stored hash is that of the transaction, and the sender's key verifies the signature on it.
  ghost predicate SenderSigned(env: Env, t: Transaction) {
    HashesTransaction(env, t.hash, t) && env.verify(t.sender, t.hash, t.signature)
  }

  lemma VerifiedExact(env: Env, t: Transaction)
    ensures VerifySignature(env, t)
       <==> && t.hash == env.digest(TransactionPreimage(t))
            && env.verify(t.sender, env.digest(TransactionPreimage(t)), t.signature)
    ensures VerifySignature(env, t) <==> SenderSigned(env, t)
  {
    TransactionHashExact(env, t.hash, t);
    hide HashesTransaction, TransactionPreimage;
  }

  method Sign(env: Env, sign: Bytes -> Signature, t: Transaction) returns (signed: Transaction)
    ensures signed == Signed(env, sign, t)
    ensures HashesTransaction(env, signed.hash, t) && signed == t.(hash := signed.hash, signature := sign(signed.hash))
  {
    hide HashesTransaction;
    var hash := CalculateTransactionHash(env, t);
    signed := t.(hash := hash);
    signed := signed.(signature := sign(hash));
  }

  method Verify(env: Env, t: Transaction) returns (ok: bool)
    ensures ok <==> VerifySignature(env, t)
    ensures ok <==> SenderSigned(env, t)
  {
    VerifiedExact(env, t);
    hide HashesTransaction;
    var expected := CalculateTransactionHash(env, t);
    if t.hash != expected {
      return false;
    }
    ok := env.verify(t.sender, t.hash, t.signature);
  }

  // Signing with a key whose signatures verify gives a transaction that verifies.
  lemma SignThenVerify(env: Env, sign: Bytes -> Signature, t: Transaction)
    requires forall m: Bytes :: env.verify(t.sender, m, sign(m))
    ensures VerifySignature(env, Signed(env, sign, t))
    ensures SameHashedFields(Signed(env, sign, t), t)
  {
    var s := Signed(env, sign, t);
    assert TransactionPreimage(s) == TransactionPreimage(t);
  }

  // What a signature covers: a transaction carrying the hash and signature of a verified one
  // verifies exactly when it agrees with it on the hashed fields, unless the two preimages
  // collide. Gas limit and priority can therefore be changed freely.
  lemma SignatureCovers(env: Env, t: Transaction, u: Transaction)
    requires SizedTransaction(t) && SizedTransaction(u)
    requires VerifySignature(env, t)
    requires u.hash == t.hash && u.signature == t.signature
    requires !Collision(env, TransactionPreimage(t), TransactionPreimage(u))
    ensures VerifySignature(env, u) <==> SameHashedFields(t, u)
  {
    TransactionPreimageInjective(t, u);
  }
}
