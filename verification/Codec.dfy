/** The binary layout of bincode 1.3 with its default options: fixed-width little-endian
    integers, 8-byte lengths, 4-byte enum tags, 1-byte option tags, and maps in key order.
    Writers come first, then readers. */
module Codec {
  import opened Bytes
  import opened Types

  // ---------- writers ----------

  function EncBytes(v: Bytes): Bytes {
    Le(|v|, 8) + v
  }

  function Tag(n: nat): Bytes {
    Le(n, 4)
  }

  function EncAddress(a: Address): Bytes {
    match a
    case Wallet(key) => Tag(0) + EncBytes(key)
    case Contract(id) => Tag(1) + id
  }

  function EncPayload(p: Payload): Bytes {
    match p
    case Transfer(amount) => Tag(0) + Le(amount, 8)
    case ContractDeploy(wasm) => Tag(1) + EncBytes(wasm)
    case ContractCall(name, args) => Tag(2) + (EncBytes(name) + EncBytes(args))
    case Data(data) => Tag(3) + EncBytes(data)
  }

  function EncMany<T>(enc: T -> Bytes, xs: seq<T>): Bytes {
    if xs == [] then [] else enc(xs[0]) + EncMany(enc, xs[1..])
  }

  function EncVec<T>(enc: T -> Bytes, xs: seq<T>): Bytes {
    Le(|xs|, 8) + EncMany(enc, xs)
  }

  function EncEntry(e: (Text, Text)): Bytes {
    EncBytes(e.0) + EncBytes(e.1)
  }

  // The entries of a map in key order.
  function Entries(m: Metadata): (es: seq<(Text, Text)>)
    ensures |es| == |m|
  {
    var keys := Sorted(m.Keys);
    SortedEnumerates(m.Keys);
    assert |m.Keys| == |m|;
    seq(|keys|, i requires 0 <= i < |keys| => assert keys[i] in keys; (keys[i], m[keys[i]]))
  }

  function EncMetadata(m: Metadata): Bytes {
    EncVec(EncEntry, Entries(m))
  }

  function EncOptional(o: Option<Metadata>): Bytes {
    match o
    case None => [0]
    case Some(m) => [1] + EncMetadata(m)
  }

  function EncTransaction(t: Transaction): Bytes {
    t.hash + (EncBytes(t.sender) + (Le(t.nonce, 8) + (Le(t.timestamp, 8) + (EncAddress(t.recipient) + (
      EncPayload(t.payload) + (EncBytes(t.signature) + (Le(t.gasLimit, 8) + (
        [t.priority] + EncOptional(t.metadata)))))))))
  }

  function EncBlock(b: Block): Bytes {
    Le(b.index, 8) + (Le(b.timestamp, 8) + (b.prevHash + (b.hash + (Le(b.nonce, 8) + (
      EncVec(EncTransaction, b.transactions) + EncOptional(b.metadata))))))
  }

  function EncAccount(a: Account): Bytes {
    match a
    case WalletAccount(balance, nonce) => Tag(0) + (Le(balance, 8) + Le(nonce, 8))
    case ContractAccount(code, root, nonce) => Tag(1) + (code + (root + Le(nonce, 8)))
  }

  function EncChainState(s: ChainState): Bytes {
    s.latestHash + (Le(s.latestIndex, 8) + (s.accountsRoot + Le(s.totalSupply, 8)))
  }

  // ---------- readers ----------

  // A value and the bytes after it, or a rejection.
  datatype Read<+T> = Done(value: T, rest: Bytes) | Malformed {
    predicate IsFailure() {
      Malformed?
    }

    function PropagateFailure<U>(): Read<U>
      requires Malformed?
    {
      Malformed
    }

    function Extract(): (T, Bytes)
      requires Done?
    {
      (value, rest)
    }
  }

  function ReadRaw(n: nat, b: Bytes): (r: Read<Bytes>)
    ensures r.Done? ==> |r.value| == n && |r.rest| <= |b|
  {
    if |b| < n then Malformed else Done(b[..n], b[n..])
  }

  function ReadHash(b: Bytes): (r: Read<Bytes32>)
    ensures r.Done? ==> |r.rest| <= |b|
  {
    var (h, b1) :- ReadRaw(32, b);
    Done(h, b1)
  }

  function ReadU64(b: Bytes): (r: Read<u64>)
    ensures r.Done? ==> |r.rest| <= |b|
  {
    var (raw, b1) :- ReadRaw(8, b);
    Widths();
    Done(FromLe(raw), b1)
  }

  function ReadTag(b: Bytes): (r: Read<u32>)
    ensures r.Done? ==> |r.rest| <= |b|
  {
    var (raw, b1) :- ReadRaw(4, b);
    Widths();
    Done(FromLe(raw), b1)
  }

  function ReadByte(b: Bytes): (r: Read<byte>)
    ensures r.Done? ==> |r.rest| <= |b|
  {
    if b == [] then Malformed else Done(b[0], b[1..])
  }

  function ReadBytes(b: Bytes): (r: Read<Bytes>)
    ensures r.Done? ==> |r.rest| <= |b|
  {
    var (n, b1) :- ReadU64(b);
    ReadRaw(n, b1)
  }

  function ReadText(rules: Rules, b: Bytes): (r: Read<Text>)
    ensures r.Done? ==> |r.rest| <= |b|
  {
    var (v, b1) :- ReadBytes(b);
    if rules.validText(v) then Done(v, b1) else Malformed
  }

  // The reader of the source takes 32 bare bytes; the one that matches the writer takes the
  // length first, and the length must be 32.
  function ReadKey(rules: Rules, b: Bytes): (r: Read<PublicKey>)
    ensures r.Done? ==> |r.rest| <= |b|
  {
    var (v, b1) :- match rules.keys { case Bare => ReadRaw(32, b) case Prefixed => ReadBytes(b) };
    if |v| == 32 && rules.validKey(v) then Done(v, b1) else Malformed
  }

  function ReadSignature(b: Bytes): (r: Read<Signature>)
    ensures r.Done? ==> |r.rest| <= |b|
  {
    var (v, b1) :- ReadBytes(b);
    if |v| == 64 then Done(v, b1) else Malformed
  }

  function ReadAddress(rules: Rules, b: Bytes): (r: Read<Address>)
    ensures r.Done? ==> |r.rest| <= |b|
  {
    var (tag, b1) :- ReadTag(b);
    if tag == 0 then
      var (key, b2) :- ReadKey(rules, b1);
      Done(Wallet(key), b2)
    else if tag == 1 then
      var (id, b2) :- ReadHash(b1);
      Done(Contract(id), b2)
    else
      Malformed
  }

  function ReadPayload(rules: Rules, b: Bytes): (r: Read<Payload>)
    ensures r.Done? ==> |r.rest| <= |b|
  {
    var (tag, b1) :- ReadTag(b);
    if tag == 0 then
      var (amount, b2) :- ReadU64(b1);
      Done(Transfer(amount), b2)
    else if tag == 1 then
      var (wasm, b2) :- ReadBytes(b1);
      Done(ContractDeploy(wasm), b2)
    else if tag == 2 then
      var (name, b2) :- ReadText(rules, b1);
      var (args, b3) :- ReadBytes(b2);
      Done(ContractCall(name, args), b3)
    else if tag == 3 then
      var (data, b2) :- ReadBytes(b1);
      Done(Data(data), b2)
    else
      Malformed
  }

  function ReadMany<T>(read: Bytes -> Read<T>, n: nat, b: Bytes): Read<seq<T>> {
    if n == 0 then
      Done([], b)
    else
      var (x, b1) :- read(b);
      var (xs, b2) :- ReadMany(read, n - 1, b1);
      Done([x] + xs, b2)
  }

  function ReadVec<T>(read: Bytes -> Read<T>, b: Bytes): Read<seq<T>> {
    var (n, b1) :- ReadU64(b);
    ReadMany(read, n, b1)
  }

  function ReadEntry(rules: Rules, b: Bytes): (r: Read<(Text, Text)>)
    ensures r.Done? ==> |r.rest| <= |b|
  {
    var (k, b1) :- ReadText(rules, b);
    var (v, b2) :- ReadText(rules, b1);
    Done((k, v), b2)
  }

  function EntryReader(rules: Rules): Bytes -> Read<(Text, Text)> {
    b => ReadEntry(rules, b)
  }

  // Entries go into the map one after the other; a later one replaces an earlier one.
  function InsertAll(es: seq<(Text, Text)>): Metadata {
    if es == [] then map[] else
      var last := es[|es| - 1];
      InsertAll(es[..|es| - 1])[last.0 := last.1]
  }

  function ReadMetadata(rules: Rules, b: Bytes): Read<Metadata> {
    var (es, b1) :- ReadVec(EntryReader(rules), b);
    Done(InsertAll(es), b1)
  }

  function ReadOptional(rules: Rules, b: Bytes): Read<Option<Metadata>> {
    var (tag, b1) :- ReadByte(b);
    if tag == 0 then
      Done(None, b1)
    else if tag == 1 then
      var (m, b2) :- ReadMetadata(rules, b1);
      Done(Some(m), b2)
    else
      Malformed
  }

  function ReadTransaction(rules: Rules, b: Bytes): Read<Transaction> {
    var (hash, b1) :- ReadHash(b);
    var (sender, b2) :- ReadKey(rules, b1);
    var (nonce, b3) :- ReadU64(b2);
    var (timestamp, b4) :- ReadU64(b3);
    var (recipient, b5) :- ReadAddress(rules, b4);
    var (payload, b6) :- ReadPayload(rules, b5);
    var (signature, b7) :- ReadSignature(b6);
    var (gasLimit, b8) :- ReadU64(b7);
    var (priority, b9) :- ReadByte(b8);
    var (metadata, b10) :- ReadOptional(rules, b9);
    Done(Transaction(hash, sender, nonce, timestamp, recipient, payload, signature, gasLimit, priority, metadata), b10)
  }

  function TransactionReader(rules: Rules): Bytes -> Read<Transaction> {
    b => ReadTransaction(rules, b)
  }

  function ReadBlock(rules: Rules, b: Bytes): Read<Block> {
    var (index, b1) :- ReadU64(b);
    var (timestamp, b2) :- ReadU64(b1);
    var (prevHash, b3) :- ReadHash(b2);
    var (hash, b4) :- ReadHash(b3);
    var (nonce, b5) :- ReadU64(b4);
    var (transactions, b6) :- ReadVec(TransactionReader(rules), b5);
    var (metadata, b7) :- ReadOptional(rules, b6);
    Done(Block(index, timestamp, prevHash, hash, nonce, transactions, metadata), b7)
  }

  function BlockReader(rules: Rules): Bytes -> Read<Block> {
    b => ReadBlock(rules, b)
  }

  function ReadAccount(b: Bytes): Read<Account> {
    var (tag, b1) :- ReadTag(b);
    if tag == 0 then
      var (balance, b2) :- ReadU64(b1);
      var (nonce, b3) :- ReadU64(b2);
      Done(WalletAccount(balance, nonce), b3)
    else if tag == 1 then
      var (code, b2) :- ReadHash(b1);
      var (root, b3) :- ReadHash(b2);
      var (nonce, b4) :- ReadU64(b3);
      Done(ContractAccount(code, root, nonce), b4)
    else
      Malformed
  }

  function ReadChainState(b: Bytes): Read<ChainState> {
    var (hash, b1) :- ReadHash(b);
    var (index, b2) :- ReadU64(b1);
    var (root, b3) :- ReadHash(b2);
    var (supply, b4) :- ReadU64(b3);
    Done(ChainState(hash, index, root, supply), b4)
  }

  // ---------- values the program can hold ----------

  // Lengths of vectors and strings fit a machine word, keys are points of the curve, text is
  // UTF-8: what the types of the source guarantee.
  predicate Sized(v: Bytes) {
    |v| < U64_LIMIT
  }

  predicate ValidText(rules: Rules, v: Text) {
    Sized(v) && rules.validText(v)
  }

  predicate ValidAddress(rules: Rules, a: Address) {
    a.Wallet? ==> rules.validKey(a.key)
  }

  predicate ValidPayload(rules: Rules, p: Payload) {
    match p
    case Transfer(_) => true
    case ContractDeploy(wasm) => Sized(wasm)
    case ContractCall(name, args) => ValidText(rules, name) && Sized(args)
    case Data(data) => Sized(data)
  }

  predicate ValidMetadata(rules: Rules, m: Metadata) {
    |m| < U64_LIMIT && forall k | k in m :: ValidText(rules, k) && ValidText(rules, m[k])
  }

  predicate ValidOptional(rules: Rules, o: Option<Metadata>) {
    o.Some? ==> ValidMetadata(rules, o.value)
  }

  predicate ValidTransaction(rules: Rules, t: Transaction) {
    && rules.validKey(t.sender)
    && ValidAddress(rules, t.recipient)
    && ValidPayload(rules, t.payload)
    && ValidOptional(rules, t.metadata)
  }

  predicate ValidBlock(rules: Rules, b: Block) {
    && |b.transactions| < U64_LIMIT
    && (forall t | t in b.transactions :: ValidTransaction(rules, t))
    && ValidOptional(rules, b.metadata)
  }
}
