/** The stored and hashed bytes, described by offset: where each field of a value lies in its
    encoding, byte for byte. */
module Layout {
  import opened Bytes
  import opened Types
  import opened Codec

  // ---------- integers and byte strings ----------

  // w bytes that hold n, the least significant first.
  predicate LittleEndian(s: Bytes, n: nat, w: nat) {
    |s| == w && forall i | 0 <= i < w :: s[i] == n / Pow256(i) % 256
  }

  predicate U64Is(s: Bytes, n: nat) {
    LittleEndian(s, n, 8)
  }

  predicate U32Is(s: Bytes, n: nat) {
    LittleEndian(s, n, 4)
  }

  // Eight bytes of length, and the bytes themselves.
  predicate BytesIs(s: Bytes, v: Bytes) {
    |s| == 8 + |v| && U64Is(s[..8], |v|) && s[8..] == v
  }

  lemma {:induction false} LeIs(n: nat, w: nat)
    ensures LittleEndian(Le(n, w), n, w)
  {
    if w > 0 {
      LeIs(n / 256, w - 1);
      forall i | 0 <= i < w ensures Le(n, w)[i] == n / Pow256(i) % 256 {
        if i > 0 {
          assert Le(n, w)[i] == Le(n / 256, w - 1)[i - 1];
          DivideTwice(n, Pow256(i - 1));
        } else {
          assert Pow256(0) == 1;
        }
      }
    }
  }

  // A piece at an offset, and what follows it.
  lemma Cut(s: Bytes, at: nat, piece: Bytes, rest: Bytes)
    requires at <= |s| && s[at..] == piece + rest
    ensures at + |piece| <= |s| && s[at..at + |piece|] == piece && s[at + |piece|..] == rest
  {
    assert s[at..][..|piece|] == piece && s[at..][|piece|..] == rest;
  }

  lemma EncBytesIs(v: Bytes)
    ensures BytesIs(EncBytes(v), v)
  {
    LeIs(|v|, 8);
  }

  // ---------- accounts and the chain state ----------

  predicate AccountIs(s: Bytes, a: Account) {
    match a
    case WalletAccount(balance, nonce) =>
      |s| == 20 && U32Is(s[..4], 0) && U64Is(s[4..12], balance) && U64Is(s[12..], nonce)
    case ContractAccount(code, root, nonce) =>
      |s| == 76 && U32Is(s[..4], 1) && s[4..36] == code && s[36..68] == root && U64Is(s[68..], nonce)
  }

  lemma EncAccountIs(a: Account)
    ensures AccountIs(EncAccount(a), a)
  {
    var s := EncAccount(a);
    LeIs(0, 4);
    LeIs(1, 4);
    LeIs(a.nonce, 8);
    assert s[0..] == s;
    match a
    case WalletAccount(balance, nonce) =>
      LeIs(balance, 8);
      hide LittleEndian, Le;
      Cut(s, 0, Tag(0), Le(balance, 8) + Le(nonce, 8));
      Cut(s, 4, Le(balance, 8), Le(nonce, 8));
    case ContractAccount(code, root, nonce) =>
      hide LittleEndian, Le;
      Cut(s, 0, Tag(1), code + (root + Le(nonce, 8)));
      Cut(s, 4, code, root + Le(nonce, 8));
      Cut(s, 36, root, Le(nonce, 8));
  }

  predicate ChainStateIs(s: Bytes, c: ChainState) {
    && |s| == 80
    && s[..32] == c.latestHash
    && U64Is(s[32..40], c.latestIndex)
    && s[40..72] == c.accountsRoot
    && U64Is(s[72..], c.totalSupply)
  }

  lemma EncChainStateIs(c: ChainState)
    ensures ChainStateIs(EncChainState(c), c)
  {
    var s := EncChainState(c);
    LeIs(c.latestIndex, 8);
    LeIs(c.totalSupply, 8);
    hide LittleEndian, Le;
    assert s[0..] == s;
    Cut(s, 0, c.latestHash, Le(c.latestIndex, 8) + (c.accountsRoot + Le(c.totalSupply, 8)));
    Cut(s, 32, Le(c.latestIndex, 8), c.accountsRoot + Le(c.totalSupply, 8));
    Cut(s, 40, c.accountsRoot, Le(c.totalSupply, 8));
  }

  // ---------- addresses and payloads ----------

  function AddressSize(a: Address): nat {
    match a
    case Wallet(_) => 44
    case Contract(_) => 36
  }

  predicate AddressIs(s: Bytes, a: Address) {
    && |s| == AddressSize(a)
    && match a {
         case Wallet(key) => U32Is(s[..4], 0) && BytesIs(s[4..], key)
         case Contract(id) => U32Is(s[..4], 1) && s[4..] == id
       }
  }

  lemma EncAddressIs(a: Address)
    ensures AddressIs(EncAddress(a), a)
  {
    LeIs(0, 4);
    LeIs(1, 4);
    if a.Wallet? {
      EncBytesIs(a.key);
    }
    hide LittleEndian, Le;
  }

  function PayloadSize(p: Payload): nat {
    match p
    case Transfer(_) => 12
    case ContractDeploy(wasm) => 12 + |wasm|
    case ContractCall(name, args) => 20 + |name| + |args|
    case Data(data) => 12 + |data|
  }

  predicate PayloadIs(s: Bytes, p: Payload) {
    && |s| == PayloadSize(p)
    && match p {
         case Transfer(amount) => U32Is(s[..4], 0) && U64Is(s[4..], amount)
         case ContractDeploy(wasm) => U32Is(s[..4], 1) && BytesIs(s[4..], wasm)
         case ContractCall(name, args) =>
           U32Is(s[..4], 2) && BytesIs(s[4..12 + |name|], name) && BytesIs(s[12 + |name|..], args)
         case Data(data) => U32Is(s[..4], 3) && BytesIs(s[4..], data)
       }
  }

  lemma EncPayloadIs(p: Payload)
    ensures PayloadIs(EncPayload(p), p)
  {
    var s := EncPayload(p);
    assert s[0..] == s;
    match p
    case Transfer(amount) =>
      LeIs(0, 4);
      LeIs(amount, 8);
      hide LittleEndian, Le;
    case ContractDeploy(wasm) =>
      LeIs(1, 4);
      EncBytesIs(wasm);
      hide LittleEndian, Le;
    case ContractCall(name, args) =>
      LeIs(2, 4);
      EncBytesIs(name);
      EncBytesIs(args);
      hide LittleEndian, Le;
      Cut(s, 0, Tag(2), EncBytes(name) + EncBytes(args));
      Cut(s, 4, EncBytes(name), EncBytes(args));
    case Data(data) =>
      LeIs(3, 4);
      EncBytesIs(data);
      hide LittleEndian, Le;
  }

  lemma Sizes(a: Address, p: Payload)
    ensures |EncAddress(a)| == AddressSize(a) && |EncPayload(p)| == PayloadSize(p)
  {
    EncAddressIs(a);
    EncPayloadIs(p);
    hide EncAddress, EncPayload;
  }

  // ---------- metadata ----------

  // The entries of a map, each once, by ascending key.
  ghost predicate SortedEntries(m: Metadata, es: seq<(Text, Text)>) {
    && (forall i, j | 0 <= i < j < |es| :: LexLt(es[i].0, es[j].0))
    && (forall i | 0 <= i < |es| :: es[i].0 in m && m[es[i].0] == es[i].1)
    && (forall k | k in m :: (k, m[k]) in es)
  }

  predicate EntriesAre(s: Bytes, es: seq<(Text, Text)>) {
    if es == [] then s == []
    else
      var k, v := es[0].0, es[0].1;
      var n := 16 + |k| + |v|;
      && |s| >= n
      && BytesIs(s[..8 + |k|], k)
      && BytesIs(s[8 + |k|..n], v)
      && EntriesAre(s[n..], es[1..])
  }

  // Eight bytes of count, then the entries by ascending key.
  ghost predicate MapIs(s: Bytes, m: Metadata) {
    && |s| >= 8
    && U64Is(s[..8], |m|)
    && exists es :: SortedEntries(m, es) && EntriesAre(s[8..], es)
  }

  lemma EntriesSorted(m: Metadata)
    ensures SortedEntries(m, Entries(m))
  {
    var keys := Sorted(m.Keys);
    SortedEnumerates(m.Keys);
    forall k | k in m ensures (k, m[k]) in Entries(m) {
      var i :| 0 <= i < |keys| && keys[i] == k;
      assert Entries(m)[i] == (k, m[k]);
    }
    forall i | 0 <= i < |keys| ensures keys[i] in m {
      assert keys[i] in keys;
    }
  }

  lemma {:induction false} EncEntriesAre(es: seq<(Text, Text)>)
    ensures EntriesAre(EncMany(EncEntry, es), es)
  {
    if es != [] {
      var k, v := es[0].0, es[0].1;
      var s := EncMany(EncEntry, es);
      EncEntriesAre(es[1..]);
      EncBytesIs(k);
      EncBytesIs(v);
      hide LittleEndian, Le, BytesIs;
      var rest := EncMany(EncEntry, es[1..]);
      Assoc(EncBytes(k), EncBytes(v), rest);
      assert s[0..] == s;
      Cut(s, 0, EncBytes(k), EncBytes(v) + rest);
      Cut(s, 8 + |k|, EncBytes(v), rest);
    }
  }

  lemma EncMetadataIs(m: Metadata)
    ensures MapIs(EncMetadata(m), m)
  {
    EntriesSorted(m);
    EncEntriesAre(Entries(m));
    LeIs(|m|, 8);
    hide LittleEndian, Le, Entries, SortedEntries, EntriesAre;
    var s := EncMetadata(m);
    assert s[0..] == s;
    Cut(s, 0, Le(|m|, 8), EncMany(EncEntry, Entries(m)));
  }

  // With an option tag, as in stored values.
  ghost predicate OptionalIs(s: Bytes, o: Option<Metadata>) {
    match o
    case None => s == [0]
    case Some(m) => s != [] && s[0] == 1 && MapIs(s[1..], m)
  }

  // Without one, as in hashed bytes.
  ghost predicate UntaggedIs(s: Bytes, o: Option<Metadata>) {
    match o
    case None => s == []
    case Some(m) => MapIs(s, m)
  }

  lemma EncOptionalIs(o: Option<Metadata>)
    ensures OptionalIs(EncOptional(o), o)
  {
    if o.Some? {
      EncMetadataIs(o.value);
      assert EncOptional(o)[1..] == EncMetadata(o.value);
    }
    hide MapIs, EncMetadata;
  }

  // ---------- transactions and blocks ----------

  ghost predicate TransactionIs(s: Bytes, t: Transaction) {
    var p := 88 + AddressSize(t.recipient);
    var q := p + PayloadSize(t.payload);
    && |s| >= q + 81
    && s[..32] == t.hash
    && BytesIs(s[32..72], t.sender)
    && U64Is(s[72..80], t.nonce)
    && U64Is(s[80..88], t.timestamp)
    && AddressIs(s[88..p], t.recipient)
    && PayloadIs(s[p..q], t.payload)
    && BytesIs(s[q..q + 72], t.signature)
    && U64Is(s[q + 72..q + 80], t.gasLimit)
    && s[q + 80] == t.priority
    && OptionalIs(s[q + 81..], t.metadata)
  }

  lemma EncTransactionIs(t: Transaction)
    ensures TransactionIs(EncTransaction(t), t)
  {
    hide LittleEndian, Le, BytesIs, EncAddress, EncPayload, EncOptional, OptionalIs, AddressIs, PayloadIs, AddressSize,
         PayloadSize, EncTransaction;
    LeIs(t.nonce, 8);
    LeIs(t.timestamp, 8);
    LeIs(t.gasLimit, 8);
    EncBytesIs(t.sender);
    EncBytesIs(t.signature);
    EncAddressIs(t.recipient);
    EncPayloadIs(t.payload);
    EncOptionalIs(t.metadata);
    Sizes(t.recipient, t.payload);
    TransactionCut(t, EncTransaction(t));
  }

  // The ten pieces of an encoded transaction.
  lemma TransactionCut(t: Transaction, s: Bytes)
    requires s == EncTransaction(t)
    ensures var p := 88 + |EncAddress(t.recipient)|;
      var q := p + |EncPayload(t.payload)|;
      && |s| >= q + 81
      && s[..32] == t.hash && s[32..72] == EncBytes(t.sender) && s[72..80] == Le(t.nonce, 8)
      && s[80..88] == Le(t.timestamp, 8) && s[88..p] == EncAddress(t.recipient) && s[p..q] == EncPayload(t.payload)
      && s[q..q + 72] == EncBytes(t.signature) && s[q + 72..q + 80] == Le(t.gasLimit, 8)
      && s[q + 80] == t.priority && s[q + 81..] == EncOptional(t.metadata)
  {
    var r9 := EncOptional(t.metadata);
    var r8 := [t.priority] + r9;
    var r7 := Le(t.gasLimit, 8) + r8;
    var r6 := EncBytes(t.signature) + r7;
    var r5 := EncPayload(t.payload) + r6;
    var r4 := EncAddress(t.recipient) + r5;
    var r3 := Le(t.timestamp, 8) + r4;
    var r2 := Le(t.nonce, 8) + r3;
    var r1 := EncBytes(t.sender) + r2;
    assert s[0..] == s == t.hash + r1;
    assert |EncBytes(t.sender)| == 40 && |EncBytes(t.signature)| == 72;
    hide Le, EncBytes, EncAddress, EncPayload, EncOptional, EncTransaction;
    Cut(s, 0, t.hash, r1);
    Cut(s, 32, EncBytes(t.sender), r2);
    Cut(s, 72, Le(t.nonce, 8), r3);
    Cut(s, 80, Le(t.timestamp, 8), r4);
    Cut(s, 88, EncAddress(t.recipient), r5);
    var p := 88 + |EncAddress(t.recipient)|;
    Cut(s, p, EncPayload(t.payload), r6);
    var q := p + |EncPayload(t.payload)|;
    Cut(s, q, EncBytes(t.signature), r7);
    Cut(s, q + 72, Le(t.gasLimit, 8), r8);
    Cut(s, q + 80, [t.priority], r9);
  }

  // One transaction after the other.
  ghost predicate TransactionsAre(s: Bytes, ts: seq<Transaction>) {
    if ts == [] then s == []
    else exists n | 0 <= n <= |s| :: TransactionIs(s[..n], ts[0]) && TransactionsAre(s[n..], ts[1..])
  }

  lemma {:induction false} EncTransactionsAre(ts: seq<Transaction>)
    ensures TransactionsAre(EncMany(EncTransaction, ts), ts)
  {
    if ts != [] {
      var s, n := EncMany(EncTransaction, ts), |EncTransaction(ts[0])|;
      EncTransactionsAre(ts[1..]);
      EncTransactionIs(ts[0]);
      hide EncTransaction, TransactionIs;
      assert s[..n] == EncTransaction(ts[0]) && s[n..] == EncMany(EncTransaction, ts[1..]);
    }
  }

  ghost predicate BlockIs(s: Bytes, b: Block) {
    && |s| >= 96
    && U64Is(s[..8], b.index)
    && U64Is(s[8..16], b.timestamp)
    && s[16..48] == b.prevHash
    && s[48..80] == b.hash
    && U64Is(s[80..88], b.nonce)
    && U64Is(s[88..96], |b.transactions|)
    && exists n | 96 <= n <= |s| :: TransactionsAre(s[96..n], b.transactions) && OptionalIs(s[n..], b.metadata)
  }

  lemma EncBlockIs(b: Block)
    ensures BlockIs(EncBlock(b), b)
  {
    LeIs(b.index, 8);
    LeIs(b.timestamp, 8);
    LeIs(b.nonce, 8);
    LeIs(|b.transactions|, 8);
    EncTransactionsAre(b.transactions);
    EncOptionalIs(b.metadata);
    var many := EncMany(EncTransaction, b.transactions);
    var s, r7 := EncBlock(b), EncOptional(b.metadata);
    var r6 := many + r7;
    var r5 := Le(|b.transactions|, 8) + r6;
    var r4 := Le(b.nonce, 8) + r5;
    var r3 := b.hash + r4;
    var r2 := b.prevHash + r3;
    Assoc(Le(|b.transactions|, 8), many, r7);
    assert s[0..] == s == Le(b.index, 8) + (Le(b.timestamp, 8) + r2);
    hide LittleEndian, Le, EncMany, EncOptional, OptionalIs, TransactionsAre, EncBlock;
    Cut(s, 0, Le(b.index, 8), Le(b.timestamp, 8) + r2);
    Cut(s, 8, Le(b.timestamp, 8), r2);
    Cut(s, 16, b.prevHash, r3);
    Cut(s, 48, b.hash, r4);
    Cut(s, 80, Le(b.nonce, 8), r5);
    Cut(s, 88, Le(|b.transactions|, 8), r6);
    Cut(s, 96, many, r7);
  }

  // ---------- hashed bytes ----------

  // Index, timestamp, previous hash, nonce, the number of transactions, the transactions, and
  // the metadata without a tag.
  ghost predicate BlockHashes(s: Bytes, b: Block) {
    && |s| >= 64
    && U64Is(s[..8], b.index)
    && U64Is(s[8..16], b.timestamp)
    && s[16..48] == b.prevHash
    && U64Is(s[48..56], b.nonce)
    && U64Is(s[56..64], |b.transactions|)
    && exists n | 64 <= n <= |s| :: TransactionsAre(s[64..n], b.transactions) && UntaggedIs(s[n..], b.metadata)
  }

  // Sender, without a length, nonce, timestamp, recipient, payload, and the metadata without a
  // tag.
  ghost predicate TransactionHashes(s: Bytes, t: Transaction) {
    var p := 48 + AddressSize(t.recipient);
    var q := p + PayloadSize(t.payload);
    && |s| >= q
    && s[..32] == t.sender
    && U64Is(s[32..40], t.nonce)
    && U64Is(s[40..48], t.timestamp)
    && AddressIs(s[48..p], t.recipient)
    && PayloadIs(s[p..q], t.payload)
    && UntaggedIs(s[q..], t.metadata)
  }

  // ---------- the layout determines the bytes ----------

  // Bytes that agree up to a and from a to b agree up to b.
  lemma Extend(s: Bytes, r: Bytes, a: nat, b: nat)
    requires a <= b <= |s| && b <= |r|
    requires s[..a] == r[..a] && s[a..b] == r[a..b]
    ensures s[..b] == r[..b]
  {
    assert s[..b] == s[..a] + s[a..b] && r[..b] == r[..a] + r[a..b];
  }

  lemma Whole(s: Bytes, r: Bytes, a: nat)
    requires a <= |s| && a <= |r|
    requires s[..a] == r[..a] && s[a..] == r[a..]
    ensures s == r
  {
    assert s == s[..a] + s[a..] && r == r[..a] + r[a..];
  }

  lemma SameLe(s: Bytes, r: Bytes, n: nat, w: nat)
    requires LittleEndian(s, n, w) && LittleEndian(r, n, w)
    ensures s == r
  {
  }

  lemma SameBytes(s: Bytes, r: Bytes, v: Bytes)
    requires BytesIs(s, v) && BytesIs(r, v)
    ensures s == r
  {
    SameLe(s[..8], r[..8], |v|, 8);
    Whole(s, r, 8);
  }

  lemma AccountExact(s: Bytes, a: Account)
    ensures AccountIs(s, a) <==> s == EncAccount(a)
  {
    EncAccountIs(a);
    if AccountIs(s, a) {
      var r := EncAccount(a);
      hide LittleEndian, EncAccount;
      match a
      case WalletAccount(balance, nonce) =>
        SameLe(s[..4], r[..4], 0, 4);
        SameLe(s[4..12], r[4..12], balance, 8);
        SameLe(s[12..], r[12..], nonce, 8);
        Extend(s, r, 4, 12);
        Whole(s, r, 12);
      case ContractAccount(code, root, nonce) =>
        SameLe(s[..4], r[..4], 1, 4);
        SameLe(s[68..], r[68..], nonce, 8);
        Extend(s, r, 4, 36);
        Extend(s, r, 36, 68);
        Whole(s, r, 68);
    }
  }

  lemma ChainStateExact(s: Bytes, c: ChainState)
    ensures ChainStateIs(s, c) <==> s == EncChainState(c)
  {
    EncChainStateIs(c);
    if ChainStateIs(s, c) {
      var r := EncChainState(c);
      hide LittleEndian, EncChainState;
      SameLe(s[32..40], r[32..40], c.latestIndex, 8);
      SameLe(s[72..], r[72..], c.totalSupply, 8);
      Extend(s, r, 32, 40);
      Extend(s, r, 40, 72);
      Whole(s, r, 72);
    }
  }

  lemma SameAddress(s: Bytes, r: Bytes, a: Address)
    requires AddressIs(s, a) && AddressIs(r, a)
    ensures s == r
  {
    SameLe(s[..4], r[..4], if a.Wallet? then 0 else 1, 4);
    if a.Wallet? {
      SameBytes(s[4..], r[4..], a.key);
    }
    Whole(s, r, 4);
  }

  lemma SamePayload(s: Bytes, r: Bytes, p: Payload)
    requires PayloadIs(s, p) && PayloadIs(r, p)
    ensures s == r
  {
    hide LittleEndian, BytesIs;
    match p
    case Transfer(amount) =>
      SameLe(s[..4], r[..4], 0, 4);
      SameLe(s[4..], r[4..], amount, 8);
      Whole(s, r, 4);
    case ContractDeploy(wasm) =>
      SameLe(s[..4], r[..4], 1, 4);
      SameBytes(s[4..], r[4..], wasm);
      Whole(s, r, 4);
    case ContractCall(name, args) =>
      var n := 12 + |name|;
      SameLe(s[..4], r[..4], 2, 4);
      SameBytes(s[4..n], r[4..n], name);
      SameBytes(s[n..], r[n..], args);
      Extend(s, r, 4, n);
      Whole(s, r, n);
    case Data(data) =>
      SameLe(s[..4], r[..4], 3, 4);
      SameBytes(s[4..], r[4..], data);
      Whole(s, r, 4);
  }

  lemma {:induction false} SameEntries(s: Bytes, r: Bytes, es: seq<(Text, Text)>)
    requires EntriesAre(s, es) && EntriesAre(r, es)
    ensures s == r
  {
    if es != [] {
      var k, v := es[0].0, es[0].1;
      var m, n := 8 + |k|, 16 + |k| + |v|;
      SameBytes(s[..m], r[..m], k);
      SameBytes(s[m..n], r[m..n], v);
      SameEntries(s[n..], r[n..], es[1..]);
      hide BytesIs, EntriesAre;
      Extend(s, r, m, n);
      Whole(s, r, n);
    }
  }

  // A map has one list of entries by ascending key.
  lemma {:induction false} OneSorting(es: seq<(Text, Text)>, fs: seq<(Text, Text)>)
    requires forall i, j | 0 <= i < j < |es| :: LexLt(es[i].0, es[j].0)
    requires forall i, j | 0 <= i < j < |fs| :: LexLt(fs[i].0, fs[j].0)
    requires forall e :: e in es <==> e in fs
    ensures es == fs
  {
    assert (es == [] || es[0] in es) && (fs == [] || fs[0] in fs);
    if es != [] {
      var j :| 0 <= j < |fs| && fs[j] == es[0];
      var i :| 0 <= i < |es| && es[i] == fs[0];
      LexTrichotomy(es[0].0, fs[0].0);
      assert i == 0 || j == 0;
      TailElements(es, fs);
      OneSorting(es[1..], fs[1..]);
    }
  }

  lemma TailElements(es: seq<(Text, Text)>, fs: seq<(Text, Text)>)
    requires es != [] && fs != [] && es[0] == fs[0]
    requires forall i, j | 0 <= i < j < |es| :: LexLt(es[i].0, es[j].0)
    requires forall i, j | 0 <= i < j < |fs| :: LexLt(fs[i].0, fs[j].0)
    requires forall e :: e in es <==> e in fs
    ensures forall e :: e in es[1..] <==> e in fs[1..]
  {
    LexIrreflexive(es[0].0);
    forall e | e in es[1..] ensures e in fs[1..] {
      assert e in fs;
    }
    forall e | e in fs[1..] ensures e in es[1..] {
      assert e in es;
    }
  }

  lemma SortedOnce(m: Metadata, es: seq<(Text, Text)>)
    requires SortedEntries(m, es)
    ensures es == Entries(m)
  {
    EntriesSorted(m);
    hide Entries;
    var fs := Entries(m);
    forall e ensures e in es <==> e in fs {
      if e in es {
        var i :| 0 <= i < |es| && es[i] == e;
        assert e.0 in m && m[e.0] == e.1;
      }
      if e in fs {
        var i :| 0 <= i < |fs| && fs[i] == e;
        assert e.0 in m && m[e.0] == e.1;
      }
    }
    OneSorting(es, fs);
  }

  lemma SameMap(s: Bytes, r: Bytes, m: Metadata)
    requires MapIs(s, m) && MapIs(r, m)
    ensures s == r
  {
    hide LittleEndian, SortedEntries, EntriesAre, Entries;
    var es :| SortedEntries(m, es) && EntriesAre(s[8..], es);
    var fs :| SortedEntries(m, fs) && EntriesAre(r[8..], fs);
    SortedOnce(m, es);
    SortedOnce(m, fs);
    SameLe(s[..8], r[..8], |m|, 8);
    SameEntries(s[8..], r[8..], es);
    Whole(s, r, 8);
  }

  lemma SameOptional(s: Bytes, r: Bytes, o: Option<Metadata>)
    requires OptionalIs(s, o) && OptionalIs(r, o)
    ensures s == r
  {
    hide MapIs;
    if o.Some? {
      SameMap(s[1..], r[1..], o.value);
      Whole(s, r, 1);
    }
  }

  lemma SameUntagged(s: Bytes, r: Bytes, o: Option<Metadata>)
    requires UntaggedIs(s, o) && UntaggedIs(r, o)
    ensures s == r
  {
    hide MapIs;
    if o.Some? {
      SameMap(s, r, o.value);
    }
  }

  lemma SameTransaction(s: Bytes, r: Bytes, t: Transaction)
    requires TransactionIs(s, t) && TransactionIs(r, t)
    ensures s == r
  {
    hide LittleEndian, BytesIs, AddressIs, PayloadIs, OptionalIs, AddressSize, PayloadSize;
    var p := 88 + AddressSize(t.recipient);
    var q := p + PayloadSize(t.payload);
    SameBytes(s[32..72], r[32..72], t.sender);
    SameLe(s[72..80], r[72..80], t.nonce, 8);
    SameLe(s[80..88], r[80..88], t.timestamp, 8);
    SameAddress(s[88..p], r[88..p], t.recipient);
    SamePayload(s[p..q], r[p..q], t.payload);
    SameBytes(s[q..q + 72], r[q..q + 72], t.signature);
    SameLe(s[q + 72..q + 80], r[q + 72..q + 80], t.gasLimit, 8);
    SameOptional(s[q + 81..], r[q + 81..], t.metadata);
    Extend(s, r, 32, 72);
    Extend(s, r, 72, 80);
    Extend(s, r, 80, 88);
    Extend(s, r, 88, p);
    Extend(s, r, p, q);
    Extend(s, r, q, q + 72);
    Extend(s, r, q + 72, q + 80);
    assert s[q + 80..q + 81] == [t.priority] == r[q + 80..q + 81];
    Extend(s, r, q + 80, q + 81);
    Whole(s, r, q + 81);
  }

  lemma TransactionExact(s: Bytes, t: Transaction)
    ensures TransactionIs(s, t) <==> s == EncTransaction(t)
  {
    hide TransactionIs, EncTransaction;
    EncTransactionIs(t);
    if TransactionIs(s, t) {
      SameTransaction(s, EncTransaction(t), t);
    }
  }

  lemma {:induction false} TransactionsExact(s: Bytes, ts: seq<Transaction>)
    requires TransactionsAre(s, ts)
    ensures s == EncMany(EncTransaction, ts)
  {
    hide TransactionIs, EncTransaction;
    if ts != [] {
      var n :| 0 <= n <= |s| && TransactionIs(s[..n], ts[0]) && TransactionsAre(s[n..], ts[1..]);
      TransactionExact(s[..n], ts[0]);
      TransactionsExact(s[n..], ts[1..]);
      assert s == s[..n] + s[n..];
    }
  }

  // Transactions followed by something else.
  lemma SameTail(s: Bytes, r: Bytes, ts: seq<Transaction>, m: nat, n: nat, at: nat)
    requires at <= m <= |s| && at <= n <= |r|
    requires TransactionsAre(s[at..m], ts) && TransactionsAre(r[at..n], ts)
    ensures m == n && s[at..m] == r[at..n]
  {
    TransactionsExact(s[at..m], ts);
    TransactionsExact(r[at..n], ts);
    hide TransactionsAre, EncMany;
    assert |s[at..m]| == |r[at..n]|;
  }

  lemma SameBlock(s: Bytes, r: Bytes, b: Block)
    requires BlockIs(s, b) && BlockIs(r, b)
    ensures s == r
  {
    hide LittleEndian, TransactionsAre, OptionalIs;
    var m :| 96 <= m <= |s| && TransactionsAre(s[96..m], b.transactions) && OptionalIs(s[m..], b.metadata);
    var n :| 96 <= n <= |r| && TransactionsAre(r[96..n], b.transactions) && OptionalIs(r[n..], b.metadata);
    SameLe(s[..8], r[..8], b.index, 8);
    SameLe(s[8..16], r[8..16], b.timestamp, 8);
    SameLe(s[80..88], r[80..88], b.nonce, 8);
    SameLe(s[88..96], r[88..96], |b.transactions|, 8);
    SameTail(s, r, b.transactions, m, n, 96);
    SameOptional(s[m..], r[n..], b.metadata);
    Extend(s, r, 8, 16);
    Extend(s, r, 16, 48);
    Extend(s, r, 48, 80);
    Extend(s, r, 80, 88);
    Extend(s, r, 88, 96);
    Extend(s, r, 96, m);
    Whole(s, r, m);
  }

  lemma BlockExact(s: Bytes, b: Block)
    ensures BlockIs(s, b) <==> s == EncBlock(b)
  {
    hide BlockIs, EncBlock;
    EncBlockIs(b);
    if BlockIs(s, b) {
      SameBlock(s, EncBlock(b), b);
    }
  }

  lemma SameBlockHashes(s: Bytes, r: Bytes, b: Block)
    requires BlockHashes(s, b) && BlockHashes(r, b)
    ensures s == r
  {
    hide LittleEndian, TransactionsAre, UntaggedIs;
    var m :| 64 <= m <= |s| && TransactionsAre(s[64..m], b.transactions) && UntaggedIs(s[m..], b.metadata);
    var n :| 64 <= n <= |r| && TransactionsAre(r[64..n], b.transactions) && UntaggedIs(r[n..], b.metadata);
    SameLe(s[..8], r[..8], b.index, 8);
    SameLe(s[8..16], r[8..16], b.timestamp, 8);
    SameLe(s[48..56], r[48..56], b.nonce, 8);
    SameLe(s[56..64], r[56..64], |b.transactions|, 8);
    SameTail(s, r, b.transactions, m, n, 64);
    SameUntagged(s[m..], r[n..], b.metadata);
    Extend(s, r, 8, 16);
    Extend(s, r, 16, 48);
    Extend(s, r, 48, 56);
    Extend(s, r, 56, 64);
    Extend(s, r, 64, m);
    Whole(s, r, m);
  }

  lemma SameTransactionHashes(s: Bytes, r: Bytes, t: Transaction)
    requires TransactionHashes(s, t) && TransactionHashes(r, t)
    ensures s == r
  {
    hide LittleEndian, BytesIs, AddressIs, PayloadIs, UntaggedIs, AddressSize, PayloadSize;
    var p := 48 + AddressSize(t.recipient);
    var q := p + PayloadSize(t.payload);
    SameLe(s[32..40], r[32..40], t.nonce, 8);
    SameLe(s[40..48], r[40..48], t.timestamp, 8);
    SameAddress(s[48..p], r[48..p], t.recipient);
    SamePayload(s[p..q], r[p..q], t.payload);
    SameUntagged(s[q..], r[q..], t.metadata);
    Extend(s, r, 32, 40);
    Extend(s, r, 40, 48);
    Extend(s, r, 48, p);
    Extend(s, r, p, q);
    Whole(s, r, q);
  }
}
