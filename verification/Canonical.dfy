/** Readers accept what writers write and nothing else: whatever a reader takes is the encoding of
    the value it returns. Only maps leave a choice, since their entries may come in any order and
    a later one replaces an earlier one. */
module Canonical {
  import opened Bytes
  import opened Types
  import opened Codec
  import Frames
  import RoundTrip

  lemma {:induction false} LeOf(b: Bytes)
    ensures Le(FromLe(b), |b|) == b
  {
    if b != [] {
      var n := FromLe(b);
      LeOf(b[1..]);
      assert n % 256 == b[0] && n / 256 == FromLe(b[1..]);
      assert b == [b[0]] + b[1..];
    }
  }

  lemma U64Of(b: Bytes)
    requires ReadU64(b).Done?
    ensures b == Le(ReadU64(b).value, 8) + ReadU64(b).rest
  {
    LeOf(b[..8]);
    assert b == b[..8] + b[8..];
  }

  lemma TagOf(b: Bytes)
    requires ReadTag(b).Done?
    ensures b == Tag(ReadTag(b).value) + ReadTag(b).rest
  {
    LeOf(b[..4]);
    assert b == b[..4] + b[4..];
  }

  lemma RawOf(n: nat, b: Bytes)
    requires ReadRaw(n, b).Done?
    ensures b == ReadRaw(n, b).value + ReadRaw(n, b).rest
  {
  }

  lemma BytesOf(b: Bytes)
    requires ReadBytes(b).Done?
    ensures b == EncBytes(ReadBytes(b).value) + ReadBytes(b).rest
  {
    U64Of(b);
    var (n, b1) := ReadU64(b).Extract();
    hide Le, ReadU64;
    RawOf(n, b1);
    Assoc(Le(n, 8), ReadRaw(n, b1).value, ReadRaw(n, b1).rest);
  }

  // The bytes a reader takes for a key: bare, or with their length.
  function KeyBytes(rules: Rules, key: PublicKey): Bytes {
    if rules.keys.Bare? then key else EncBytes(key)
  }

  lemma KeyOf(rules: Rules, b: Bytes)
    requires ReadKey(rules, b).Done?
    ensures b == KeyBytes(rules, ReadKey(rules, b).value) + ReadKey(rules, b).rest
  {
    match rules.keys
    case Bare => RawOf(32, b);
    case Prefixed =>
      BytesOf(b);
      hide EncBytes, ReadBytes;
  }

  function AddressBytes(rules: Rules, a: Address): Bytes {
    match a
    case Wallet(key) => Tag(0) + KeyBytes(rules, key)
    case Contract(id) => Tag(1) + id
  }

  lemma AddressOf(rules: Rules, b: Bytes)
    requires ReadAddress(rules, b).Done?
    ensures b == AddressBytes(rules, ReadAddress(rules, b).value) + ReadAddress(rules, b).rest
  {
    TagOf(b);
    var (tag, b1) := ReadTag(b).Extract();
    hide Tag, ReadTag, ReadKey, KeyBytes;
    if tag == 0 {
      KeyOf(rules, b1);
      Assoc(Tag(0), KeyBytes(rules, ReadKey(rules, b1).value), ReadKey(rules, b1).rest);
    } else {
      RawOf(32, b1);
      Assoc(Tag(1), ReadHash(b1).value, ReadHash(b1).rest);
    }
  }

  lemma PayloadOf(rules: Rules, b: Bytes)
    requires ReadPayload(rules, b).Done?
    ensures b == EncPayload(ReadPayload(rules, b).value) + ReadPayload(rules, b).rest
  {
    TagOf(b);
    var (tag, b1) := ReadTag(b).Extract();
    hide Tag, ReadTag, ReadU64, ReadBytes, EncBytes, Le;
    if tag == 0 {
      U64Of(b1);
      Assoc(Tag(0), Le(ReadU64(b1).value, 8), ReadU64(b1).rest);
    } else {
      BytesOf(b1);
      var (v, b2) := ReadBytes(b1).Extract();
      Assoc(Tag(tag), EncBytes(v), b2);
      if tag == 2 {
        BytesOf(b2);
        var (w, b3) := ReadBytes(b2).Extract();
        Assoc(EncBytes(v), EncBytes(w), b3);
        Assoc(Tag(2), EncBytes(v) + EncBytes(w), b3);
      }
    }
  }

  // For all bytes: an account is read, with a rest left, exactly from its encoding and that rest.
  lemma AccountCanonical(b: Bytes, a: Account, rest: Bytes)
    ensures ReadAccount(b) == Done(a, rest) <==> b == EncAccount(a) + rest
  {
    RoundTrip.AccountRoundTrip(a, rest);
    if ReadAccount(b) == Done(a, rest) {
      TagOf(b);
      var (tag, b1) := ReadTag(b).Extract();
      hide Tag, ReadTag, ReadU64, ReadHash, Le;
      if tag == 0 {
        U64Of(b1);
        var (balance, b2) := ReadU64(b1).Extract();
        U64Of(b2);
        var (nonce, b3) := ReadU64(b2).Extract();
        Assoc(Le(balance, 8), Le(nonce, 8), b3);
        Assoc(Tag(0), Le(balance, 8) + Le(nonce, 8), b3);
      } else {
        HashOf(b1);
        var (code, b2) := ReadHash(b1).Extract();
        HashOf(b2);
        var (root, b3) := ReadHash(b2).Extract();
        U64Of(b3);
        var (nonce, b4) := ReadU64(b3).Extract();
        Assoc(root, Le(nonce, 8), b4);
        Assoc(code, root + Le(nonce, 8), b4);
        Assoc(Tag(1), code + (root + Le(nonce, 8)), b4);
      }
    }
  }

  lemma HashOf(b: Bytes)
    requires ReadHash(b).Done?
    ensures b == ReadHash(b).value + ReadHash(b).rest
  {
  }

  // The same for a chain state.
  lemma ChainStateCanonical(b: Bytes, s: ChainState, rest: Bytes)
    ensures ReadChainState(b) == Done(s, rest) <==> b == EncChainState(s) + rest
  {
    RoundTrip.ChainStateRoundTrip(s, rest);
    if ReadChainState(b) == Done(s, rest) {
      HashOf(b);
      var b1 := ReadHash(b).rest;
      U64Of(b1);
      var b2 := ReadU64(b1).rest;
      HashOf(b2);
      var b3 := ReadHash(b2).rest;
      U64Of(b3);
      hide ReadU64, ReadHash, Le;
      Assoc(s.accountsRoot, Le(s.totalSupply, 8), rest);
      Assoc(Le(s.latestIndex, 8), s.accountsRoot + Le(s.totalSupply, 8), rest);
      Assoc(s.latestHash, Le(s.latestIndex, 8) + (s.accountsRoot + Le(s.totalSupply, 8)), rest);
    }
  }

  // ---------- metadata, transactions and blocks ----------

  // What a reader takes for a map: a list of entries that makes it.
  ghost predicate OptionalTaken(s: Bytes, o: Option<Metadata>) {
    match o
    case None => s == [0]
    case Some(m) => exists es :: |es| < U64_LIMIT && InsertAll(es) == m && s == [1] + EncVec(EncEntry, es)
  }

  lemma EntryOf(rules: Rules, b: Bytes)
    requires ReadEntry(rules, b).Done?
    ensures b == EncEntry(ReadEntry(rules, b).value) + ReadEntry(rules, b).rest
  {
    BytesOf(b);
    var (k, b1) := ReadBytes(b).Extract();
    BytesOf(b1);
    var (v, b2) := ReadBytes(b1).Extract();
    hide EncBytes, ReadBytes;
    Assoc(EncBytes(k), EncBytes(v), b2);
  }

  ghost predicate Reverses<T(!new)>(enc: T -> Bytes, read: Bytes -> Read<T>) {
    forall b: Bytes | read(b).Done? :: b == enc(read(b).value) + read(b).rest
  }

  lemma {:induction false} ManyOf<T(!new)>(enc: T -> Bytes, read: Bytes -> Read<T>, n: nat, b: Bytes)
    requires Reverses(enc, read) && ReadMany(read, n, b).Done?
    ensures |ReadMany(read, n, b).value| == n
    ensures b == EncMany(enc, ReadMany(read, n, b).value) + ReadMany(read, n, b).rest
  {
    if n > 0 {
      var (x, b1) := read(b).Extract();
      ManyOf(enc, read, n - 1, b1);
      var (xs, b2) := ReadMany(read, n - 1, b1).Extract();
      assert ([x] + xs)[1..] == xs;
      Assoc(enc(x), EncMany(enc, xs), b2);
    }
  }

  lemma EntriesOf(rules: Rules)
    ensures Reverses(EncEntry, EntryReader(rules))
  {
    hide ReadEntry, EncEntry;
    forall b: Bytes | EntryReader(rules)(b).Done?
      ensures b == EncEntry(EntryReader(rules)(b).value) + EntryReader(rules)(b).rest
    {
      EntryOf(rules, b);
    }
  }

  lemma OptionalOf(rules: Rules, b: Bytes) returns (s: Bytes)
    requires ReadOptional(rules, b).Done?
    ensures OptionalTaken(s, ReadOptional(rules, b).value) && b == s + ReadOptional(rules, b).rest
  {
    var (tag, b1) := ReadByte(b).Extract();
    if tag == 0 {
      s := [0];
    } else {
      U64Of(b1);
      var (n, b2) := ReadU64(b1).Extract();
      EntriesOf(rules);
      ManyOf(EncEntry, EntryReader(rules), n, b2);
      var (es, rest) := ReadMany(EntryReader(rules), n, b2).Extract();
      hide ReadU64, EncMany, Le, ReadMany, EncEntry, EntryReader;
      s := [1] + EncVec(EncEntry, es);
      Assoc(Le(n, 8), EncMany(EncEntry, es), rest);
      Assoc([1], EncVec(EncEntry, es), rest);
    }
  }

  // What a reader takes for a transaction: the fields in order, the last one as above.
  ghost predicate TransactionTaken(rules: Rules, s: Bytes, t: Transaction) {
    exists o :: OptionalTaken(o, t.metadata) && s == TransactionFront(rules, t) + o
  }

  function TransactionFront(rules: Rules, t: Transaction): Bytes {
    t.hash + (KeyBytes(rules, t.sender) + (Le(t.nonce, 8) + (Le(t.timestamp, 8) + (AddressBytes(rules, t.recipient) + (
      EncPayload(t.payload) + (EncBytes(t.signature) + (Le(t.gasLimit, 8) + [t.priority])))))))
  }

  lemma SignatureOf(b: Bytes)
    requires ReadSignature(b).Done?
    ensures b == EncBytes(ReadSignature(b).value) + ReadSignature(b).rest
  {
    BytesOf(b);
    hide EncBytes, ReadBytes;
  }

  lemma ByteOf(b: Bytes)
    requires ReadByte(b).Done?
    ensures b == [ReadByte(b).value] + ReadByte(b).rest
  {
  }

  // A piece in front of something already split.
  lemma Before(a: Bytes, front: Bytes, o: Bytes, b: Bytes, rest: Bytes)
    requires b == (front + o) + rest
    ensures a + b == ((a + front) + o) + rest
  {
    Assoc(a + front, o, rest);
    Assoc(a, front, o + rest);
    Assoc(front, o, rest);
  }

  lemma TransactionOf(rules: Rules, b: Bytes) returns (o: Bytes)
    requires ReadTransaction(rules, b).Done?
    ensures var t := ReadTransaction(rules, b).value;
      OptionalTaken(o, t.metadata) && b == (TransactionFront(rules, t) + o) + ReadTransaction(rules, b).rest
  {
    hide ReadHash, ReadKey, ReadU64, ReadAddress, ReadPayload, ReadSignature, ReadByte, ReadOptional, OptionalTaken;
    var (t, rest) := ReadTransaction(rules, b).Extract();
    var b1 := ReadHash(b).rest;
    var b2 := ReadKey(rules, b1).rest;
    var b3 := ReadU64(b2).rest;
    var b4 := ReadU64(b3).rest;
    var b5 := ReadAddress(rules, b4).rest;
    var b6 := ReadPayload(rules, b5).rest;
    var b7 := ReadSignature(b6).rest;
    var b8 := ReadU64(b7).rest;
    var b9 := ReadByte(b8).rest;
    HashOf(b);
    KeyOf(rules, b1);
    U64Of(b2);
    U64Of(b3);
    AddressOf(rules, b4);
    PayloadOf(rules, b5);
    SignatureOf(b6);
    U64Of(b7);
    ByteOf(b8);
    o := OptionalOf(rules, b9);
    hide ReadTransaction, KeyBytes, Le, AddressBytes, EncPayload, EncBytes;
    Regroup(t.hash, KeyBytes(rules, t.sender), Le(t.nonce, 8), Le(t.timestamp, 8), AddressBytes(rules, t.recipient),
            EncPayload(t.payload), EncBytes(t.signature), Le(t.gasLimit, 8), [t.priority], o, rest);
  }

  lemma Regroup(a: Bytes, b: Bytes, c: Bytes, d: Bytes, e: Bytes, f: Bytes, g: Bytes, h: Bytes, i: Bytes, o: Bytes, r: Bytes)
    ensures a + (b + (c + (d + (e + (f + (g + (h + (i + (o + r)))))))))
         == ((a + (b + (c + (d + (e + (f + (g + (h + i)))))))) + o) + r
  {
    Assoc(i, o, r);
    Before(h, i, o, i + (o + r), r);
    Before(g, h + i, o, h + (i + (o + r)), r);
    Before(f, g + (h + i), o, g + (h + (i + (o + r))), r);
    Before(e, f + (g + (h + i)), o, f + (g + (h + (i + (o + r)))), r);
    Before(d, e + (f + (g + (h + i))), o, e + (f + (g + (h + (i + (o + r))))), r);
    Before(c, d + (e + (f + (g + (h + i)))), o, d + (e + (f + (g + (h + (i + (o + r)))))), r);
    Before(b, c + (d + (e + (f + (g + (h + i))))), o, c + (d + (e + (f + (g + (h + (i + (o + r))))))), r);
    Before(a, b + (c + (d + (e + (f + (g + (h + i)))))), o, b + (c + (d + (e + (f + (g + (h + (i + (o + r)))))))), r);
  }

  // For all bytes and either reader of keys: whatever is read as a transaction is its fields in
  // order, byte for byte, and then bytes that make its metadata.
  lemma TransactionCanonical(rules: Rules, b: Bytes, t: Transaction, rest: Bytes)
    requires ReadTransaction(rules, b) == Done(t, rest)
    ensures exists s :: TransactionTaken(rules, s, t) && b == s + rest
    ensures rules.keys.Prefixed? && t.metadata.None? ==> b == EncTransaction(t) + rest
  {
    hide ReadTransaction, TransactionFront, EncTransaction;
    var o := TransactionOf(rules, b);
    assert TransactionTaken(rules, TransactionFront(rules, t) + o, t);
    if rules.keys.Prefixed? && t.metadata.None? {
      PlainTransaction(rules, t, rest);
    }
  }

  lemma PlainTransaction(rules: Rules, t: Transaction, rest: Bytes)
    requires rules.keys.Prefixed? && t.metadata.None?
    ensures TransactionFront(rules, t) + [0] == EncTransaction(t)
  {
    assert AddressBytes(rules, t.recipient) == EncAddress(t.recipient);
    hide Le, EncBytes, EncAddress, EncPayload, AddressBytes;
    Regroup(t.hash, EncBytes(t.sender), Le(t.nonce, 8), Le(t.timestamp, 8), EncAddress(t.recipient),
            EncPayload(t.payload), EncBytes(t.signature), Le(t.gasLimit, 8), [t.priority], [0], []);
    assert [0] + [] == [0];
    assert (TransactionFront(rules, t) + [0]) + [] == TransactionFront(rules, t) + [0];
  }

  ghost predicate TransactionsTaken(rules: Rules, s: Bytes, ts: seq<Transaction>) {
    if ts == [] then s == []
    else exists n | 0 <= n <= |s| :: TransactionTaken(rules, s[..n], ts[0]) && TransactionsTaken(rules, s[n..], ts[1..])
  }

  lemma {:induction false} TransactionsOf(rules: Rules, n: nat, b: Bytes) returns (s: Bytes)
    requires ReadMany(TransactionReader(rules), n, b).Done?
    ensures var (ts, rest) := ReadMany(TransactionReader(rules), n, b).Extract();
      |ts| == n && TransactionsTaken(rules, s, ts) && b == s + rest
  {
    hide ReadTransaction, TransactionTaken;
    if n == 0 {
      s := [];
    } else {
      var (t, b1) := ReadTransaction(rules, b).Extract();
      var s1 := TransactionTakenFrom(rules, b, t, b1);
      var s2 := TransactionsOf(rules, n - 1, b1);
      var (ts, rest) := ReadMany(TransactionReader(rules), n - 1, b1).Extract();
      s := s1 + s2;
      Assoc(s1, s2, rest);
      assert ([t] + ts)[1..] == ts;
      assert s[..|s1|] == s1 && s[|s1|..] == s2;
    }
  }

  lemma TransactionTakenFrom(rules: Rules, b: Bytes, t: Transaction, rest: Bytes) returns (s: Bytes)
    requires ReadTransaction(rules, b) == Done(t, rest)
    ensures TransactionTaken(rules, s, t) && b == s + rest
  {
    hide ReadTransaction, TransactionTaken;
    TransactionCanonical(rules, b, t, rest);
    s :| TransactionTaken(rules, s, t) && b == s + rest;
  }

  // And whatever is read as a block is its header, its transactions, and bytes that make its
  // metadata.
  lemma BlockCanonical(rules: Rules, b: Bytes, k: Block, rest: Bytes)
    requires ReadBlock(rules, b) == Done(k, rest)
    ensures exists s, o ::
      && TransactionsTaken(rules, s, k.transactions)
      && OptionalTaken(o, k.metadata)
      && b == Le(k.index, 8) + (Le(k.timestamp, 8) + (k.prevHash + (k.hash + (Le(k.nonce, 8) + (
           Le(|k.transactions|, 8) + (s + (o + rest)))))))
  {
    hide ReadHash, ReadU64, ReadMany, ReadOptional, OptionalTaken, TransactionsTaken, Le;
    var b1 := ReadU64(b).rest;
    var b2 := ReadU64(b1).rest;
    var b3 := ReadHash(b2).rest;
    var b4 := ReadHash(b3).rest;
    var b5 := ReadU64(b4).rest;
    var b6 := ReadU64(b5).rest;
    var n := ReadU64(b5).value;
    U64Of(b);
    U64Of(b1);
    HashOf(b2);
    HashOf(b3);
    U64Of(b4);
    U64Of(b5);
    var s := TransactionsOf(rules, n, b6);
    var o := OptionalOf(rules, ReadMany(TransactionReader(rules), n, b6).rest);
  }

  // ---------- messages ----------

  // What a reader takes for a list of blocks.
  ghost predicate BlocksTaken(rules: Rules, s: Bytes, ks: seq<Block>) {
    if ks == [] then s == []
    else exists n | 0 <= n <= |s| :: BlockTaken(rules, s[..n], ks[0]) && BlocksTaken(rules, s[n..], ks[1..])
  }

  ghost predicate BlockTaken(rules: Rules, s: Bytes, k: Block) {
    exists ts, o ::
      && TransactionsTaken(rules, ts, k.transactions)
      && OptionalTaken(o, k.metadata)
      && s == Le(k.index, 8) + (Le(k.timestamp, 8) + (k.prevHash + (k.hash + (Le(k.nonce, 8) + (
           Le(|k.transactions|, 8) + (ts + o))))))
  }

  lemma BlockTakenFrom(rules: Rules, b: Bytes, k: Block, rest: Bytes) returns (s: Bytes)
    requires ReadBlock(rules, b) == Done(k, rest)
    ensures BlockTaken(rules, s, k) && b == s + rest
  {
    hide ReadBlock, TransactionsTaken, OptionalTaken, Le;
    BlockCanonical(rules, b, k, rest);
    var ts, o :| TransactionsTaken(rules, ts, k.transactions) && OptionalTaken(o, k.metadata)
      && b == Le(k.index, 8) + (Le(k.timestamp, 8) + (k.prevHash + (k.hash + (Le(k.nonce, 8) + (
           Le(|k.transactions|, 8) + (ts + (o + rest)))))));
    var n5 := Le(|k.transactions|, 8) + (ts + o);
    var n4 := Le(k.nonce, 8) + n5;
    var n3 := k.hash + n4;
    var n2 := k.prevHash + n3;
    var n1 := Le(k.timestamp, 8) + n2;
    s := Le(k.index, 8) + n1;
    Assoc(ts, o, rest);
    Assoc(Le(|k.transactions|, 8), ts + o, rest);
    Assoc(Le(k.nonce, 8), n5, rest);
    Assoc(k.hash, n4, rest);
    Assoc(k.prevHash, n3, rest);
    Assoc(Le(k.timestamp, 8), n2, rest);
    Assoc(Le(k.index, 8), n1, rest);
  }

  lemma {:induction false} BlocksOf(rules: Rules, n: nat, b: Bytes) returns (s: Bytes)
    requires ReadMany(BlockReader(rules), n, b).Done?
    ensures var (ks, rest) := ReadMany(BlockReader(rules), n, b).Extract();
      |ks| == n && BlocksTaken(rules, s, ks) && b == s + rest
  {
    hide ReadBlock, BlockTaken;
    if n == 0 {
      s := [];
    } else {
      var (k, b1) := ReadBlock(rules, b).Extract();
      var s1 := BlockTakenFrom(rules, b, k, b1);
      var s2 := BlocksOf(rules, n - 1, b1);
      var (ks, rest) := ReadMany(BlockReader(rules), n - 1, b1).Extract();
      s := s1 + s2;
      Assoc(s1, s2, rest);
      assert ([k] + ks)[1..] == ks;
      assert s[..|s1|] == s1 && s[|s1|..] == s2;
    }
  }

  // What a reader takes for a message: the tag of its variant, and its fields in order.
  ghost predicate MessageTaken(rules: Rules, s: Bytes, m: Frames.Message) {
    match m
    case Handshake(peer, version) => s == Tag(0) + (KeyBytes(rules, peer) + Le(version, 4))
    case HandshakeAck(peer, version) => s == Tag(1) + (KeyBytes(rules, peer) + Le(version, 4))
    case GetChainHead => s == Tag(2)
    case ChainHeadResponse(hash, height) => s == Tag(3) + (hash + Le(height, 8))
    case GetBlocks(lo, hi) => s == Tag(4) + (Le(lo, 8) + Le(hi, 8))
    case BlocksResponse(blocks) => exists t :: BlocksTaken(rules, t, blocks) && s == Tag(5) + (Le(|blocks|, 8) + t)
    case NewBlockAnnouncement(hash, height) => s == Tag(6) + (hash + Le(height, 8))
    case Ping => s == Tag(7)
    case Pong => s == Tag(8)
  }

  lemma BodyOf(rules: Rules, tag: u32, b: Bytes) returns (s: Bytes)
    requires Frames.ReadBody(rules, tag, b).Done?
    ensures MessageTaken(rules, Tag(tag) + s, Frames.ReadBody(rules, tag, b).value)
    ensures b == s + Frames.ReadBody(rules, tag, b).rest
  {
    hide ReadKey, ReadTag, ReadHash, ReadU64, Tag, Le, KeyBytes, BlocksTaken;
    if tag == 0 || tag == 1 {
      KeyOf(rules, b);
      var (key, b1) := ReadKey(rules, b).Extract();
      TagOf(b1);
      VersionOf(b1);
      var (version, b2) := ReadTag(b1).Extract();
      s := KeyBytes(rules, key) + Le(version, 4);
      Assoc(KeyBytes(rules, key), Le(version, 4), b2);
    } else if tag == 3 || tag == 6 {
      HashOf(b);
      var (hash, b1) := ReadHash(b).Extract();
      U64Of(b1);
      var (height, b2) := ReadU64(b1).Extract();
      s := hash + Le(height, 8);
      Assoc(hash, Le(height, 8), b2);
    } else if tag == 4 {
      U64Of(b);
      var (lo, b1) := ReadU64(b).Extract();
      U64Of(b1);
      var (hi, b2) := ReadU64(b1).Extract();
      s := Le(lo, 8) + Le(hi, 8);
      Assoc(Le(lo, 8), Le(hi, 8), b2);
    } else if tag == 5 {
      U64Of(b);
      var (n, b1) := ReadU64(b).Extract();
      var t := BlocksOf(rules, n, b1);
      s := Le(n, 8) + t;
      Assoc(Le(n, 8), t, ReadMany(BlockReader(rules), n, b1).rest);
    } else {
      s := [];
      assert Tag(tag) + [] == Tag(tag);
    }
  }

  lemma VersionOf(b: Bytes)
    requires ReadTag(b).Done?
    ensures b == Le(ReadTag(b).value, 4) + ReadTag(b).rest
  {
    TagOf(b);
    hide ReadTag;
  }

  // For all bytes and either reader of keys: whatever is read as a message is the tag of that kind
  // of message and its fields, and nothing else is read as one.
  lemma MessageCanonical(rules: Rules, b: Bytes, m: Frames.Message, rest: Bytes)
    requires Frames.ReadMessage(rules, b) == Done(m, rest)
    ensures exists s :: MessageTaken(rules, s, m) && b == s + rest
  {
    hide ReadTag, Frames.ReadBody, Tag, MessageTaken;
    TagOf(b);
    var (tag, b1) := ReadTag(b).Extract();
    var s := BodyOf(rules, tag, b1);
    Assoc(Tag(tag), s, rest);
  }

  // ---------- what is read is valid ----------

  lemma {:induction false} ManyValid(rules: Rules, n: nat, b: Bytes)
    requires ReadMany(EntryReader(rules), n, b).Done?
    ensures var es := ReadMany(EntryReader(rules), n, b).value;
      |es| == n && forall e | e in es :: ValidText(rules, e.0) && ValidText(rules, e.1)
  {
    hide ReadBytes;
    if n > 0 {
      ManyValid(rules, n - 1, ReadEntry(rules, b).rest);
      EntryValid(rules, b);
      hide ReadEntry;
    }
  }

  lemma SizedRead(b: Bytes)
    requires ReadBytes(b).Done?
    ensures Sized(ReadBytes(b).value)
  {
  }

  lemma EntryValid(rules: Rules, b: Bytes)
    requires ReadEntry(rules, b).Done?
    ensures var e := ReadEntry(rules, b).value; ValidText(rules, e.0) && ValidText(rules, e.1)
  {
    SizedRead(b);
    SizedRead(ReadBytes(b).rest);
    hide ReadBytes;
  }

  lemma {:induction false} InsertedValid(rules: Rules, es: seq<(Text, Text)>)
    requires forall e | e in es :: ValidText(rules, e.0) && ValidText(rules, e.1)
    ensures |InsertAll(es)| <= |es|
    ensures forall k | k in InsertAll(es) :: ValidText(rules, k) && ValidText(rules, InsertAll(es)[k])
  {
    if es != [] {
      var front, last := es[..|es| - 1], es[|es| - 1];
      assert last in es && forall e | e in front :: e in es;
      InsertedValid(rules, front);
      var before := InsertAll(front);
      assert before[last.0 := last.1].Keys == before.Keys + {last.0};
      assert |before.Keys| == |before| && |InsertAll(es).Keys| == |InsertAll(es)|;
    }
  }

  lemma OptionalValid(rules: Rules, b: Bytes)
    requires ReadOptional(rules, b).Done?
    ensures ValidOptional(rules, ReadOptional(rules, b).value)
  {
    var (tag, b1) := ReadByte(b).Extract();
    if tag == 1 {
      var (n, b2) := ReadU64(b1).Extract();
      ManyValid(rules, n, b2);
      InsertedValid(rules, ReadMany(EntryReader(rules), n, b2).value);
      hide ReadU64, ReadMany, EntryReader;
    }
  }

  lemma PayloadValid(rules: Rules, b: Bytes)
    requires ReadPayload(rules, b).Done?
    ensures ValidPayload(rules, ReadPayload(rules, b).value)
  {
    var (tag, b1) := ReadTag(b).Extract();
    if tag != 0 {
      SizedRead(b1);
      if tag == 2 {
        SizedRead(ReadBytes(b1).rest);
      }
    }
    hide ReadTag, ReadBytes, ReadU64;
  }

  // Whatever is read as a transaction has valid keys, valid text, and lengths below 2^64.
  lemma TransactionValid(rules: Rules, b: Bytes, t: Transaction, rest: Bytes)
    requires ReadTransaction(rules, b) == Done(t, rest)
    ensures ValidTransaction(rules, t)
  {
    hide ReadHash, ReadU64, ReadPayload, ReadSignature, ReadByte, ReadOptional, ReadTag, ReadBytes, ReadRaw;
    var b1 := ReadHash(b).rest;
    var b2 := ReadKey(rules, b1).rest;
    var b3 := ReadU64(b2).rest;
    var b4 := ReadU64(b3).rest;
    var b5 := ReadAddress(rules, b4).rest;
    var b6 := ReadPayload(rules, b5).rest;
    var b7 := ReadSignature(b6).rest;
    var b8 := ReadU64(b7).rest;
    PayloadValid(rules, b5);
    OptionalValid(rules, ReadByte(b8).rest);
    hide ValidPayload, ValidOptional;
  }
}
