/** Reading what was written gives the value back and leaves the bytes that follow, so every
    encoding is prefix-free. Each step lemma handles one field in front of a tail. A value with
    a public key in it is read back exactly when keys are read with their length. */
module RoundTrip {
  import opened Bytes
  import opened Types
  import opened Codec

  // ---------- single fields, followed by any tail ----------

  lemma RawStep(v: Bytes, tail: Bytes, rest: Bytes)
    ensures ReadRaw(|v|, (v + tail) + rest) == Done(v, tail + rest)
  {
    Assoc(v, tail, rest);
    SplitAt(v, tail + rest);
  }

  lemma HashStep(h: Hash, tail: Bytes, rest: Bytes)
    ensures ReadHash((h + tail) + rest) == Done(h, tail + rest)
  {
    RawStep(h, tail, rest);
  }

  lemma U64Step(n: u64, tail: Bytes, rest: Bytes)
    ensures ReadU64((Le(n, 8) + tail) + rest) == Done(n, tail + rest)
  {
    Widths();
    LeRoundTrip(n, 8);
    RawStep(Le(n, 8), tail, rest);
  }

  lemma TagStep(n: u32, tail: Bytes, rest: Bytes)
    ensures ReadTag((Tag(n) + tail) + rest) == Done(n, tail + rest)
  {
    Widths();
    LeRoundTrip(n, 4);
    RawStep(Tag(n), tail, rest);
  }

  lemma ByteStep(n: byte, tail: Bytes, rest: Bytes)
    ensures ReadByte(([n] + tail) + rest) == Done(n, tail + rest)
  {
    Assoc([n], tail, rest);
  }

  lemma BytesStep(v: Bytes, tail: Bytes, rest: Bytes)
    requires Sized(v)
    ensures ReadBytes((EncBytes(v) + tail) + rest) == Done(v, tail + rest)
  {
    Assoc(Le(|v|, 8), v, tail);
    U64Step(|v|, v + tail, rest);
    RawStep(v, tail, rest);
  }

  // ---------- public keys ----------

  // A key is written as its length, 32 in eight bytes, and then its own bytes.
  const KEY_LENGTH: Bytes := Le(32, 8)

  // The 32 bytes a bare reader takes: the length and three quarters of the key.
  function Misread(key: PublicKey): Bytes32 {
    KEY_LENGTH + key[..24]
  }

  predicate FourLengths(key: PublicKey) {
    key == KEY_LENGTH + (KEY_LENGTH + (KEY_LENGTH + KEY_LENGTH))
  }

  // Eight bytes in front of 24 others shift them into place exactly when all are those eight.
  lemma FourTimes(n: Bytes, key: Bytes)
    requires |n| == 8 && |key| == 32
    ensures n + key[..24] == key ==> key == n + (n + (n + n))
  {
    if n + key[..24] == key {
      assert forall i | 8 <= i < 32 :: key[i] == (n + key[..24])[i] == key[i - 8];
      assert key[0..8] == n;
      assert key[8..16] == key[0..8] && key[16..24] == key[8..16] && key[24..32] == key[16..24];
      assert key == key[0..8] + (key[8..16] + (key[16..24] + key[24..32]));
    }
  }

  lemma FourTimesBack(n: Bytes)
    requires |n| == 8
    ensures var four := n + (n + (n + n));
      four[..24] == n + (n + n) && four[24..] == n && n + four[..24] == four
  {
    Assoc(n, n + n, n);
    Assoc(n, n, n);
    var three := n + (n + n);
    assert n + (n + (n + n)) == three + n;
    assert (three + n)[..24] == three;
  }

  lemma MisreadFixed(key: PublicKey)
    ensures Misread(key) == key <==> FourLengths(key)
    ensures FourLengths(key) ==> key[24..] == KEY_LENGTH
  {
    FourTimes(KEY_LENGTH, key);
    FourTimesBack(KEY_LENGTH);
  }

  lemma BareKey(rules: Rules, key: PublicKey, rest: Bytes)
    requires rules.keys.Bare?
    ensures ReadKey(rules, EncBytes(key) + rest)
         == if rules.validKey(Misread(key)) then Done(Misread(key), key[24..] + rest) else Malformed
  {
    assert |KEY_LENGTH| == 8;
    hide Le;
    var front, back := key[..24], key[24..];
    assert key == front + back;
    Assoc(KEY_LENGTH, front, back);
    Assoc(KEY_LENGTH + front, back, rest);
    SplitAt(KEY_LENGTH + front, back + rest);
  }

  // The reader of the source never leaves the right bytes behind, and returns the key exactly
  // when that is the encoded length four times over.
  lemma BareReaderMisreads(rules: Rules, key: PublicKey, rest: Bytes)
    requires rules.keys.Bare?
    ensures var r := ReadKey(rules, EncBytes(key) + rest);
      && r != Done(key, rest)
      && (r.Done? && r.value == key <==> rules.validKey(key) && FourLengths(key))
  {
    BareKey(rules, key, rest);
    MisreadFixed(key);
    assert |key[24..] + rest| == 8 + |rest|;
  }

  lemma KeyStep(rules: Rules, key: PublicKey, tail: Bytes, rest: Bytes)
    requires rules.validKey(key)
    ensures ReadKey(rules, (EncBytes(key) + tail) + rest) == Done(key, tail + rest) <==> rules.keys.Prefixed?
  {
    match rules.keys
    case Prefixed => BytesStep(key, tail, rest);
    case Bare =>
      Assoc(EncBytes(key), tail, rest);
      BareReaderMisreads(rules, key, tail + rest);
  }

  // A public key is read back, with the bytes that follow, exactly by the reader that matches
  // the writer.
  lemma KeyRoundTrip(rules: Rules, key: PublicKey, rest: Bytes)
    requires rules.validKey(key)
    ensures ReadKey(rules, EncBytes(key) + rest) == Done(key, rest) <==> rules.keys.Prefixed?
  {
    KeyStep(rules, key, [], rest);
    assert EncBytes(key) + [] == EncBytes(key) && [] + rest == rest;
  }

  lemma AddressStep(rules: Rules, a: Address, tail: Bytes, rest: Bytes)
    requires ValidAddress(rules, a)
    ensures ReadAddress(rules, (EncAddress(a) + tail) + rest) == Done(a, tail + rest)
       <==> rules.keys.Prefixed? || a.Contract?
  {
    match a
    case Wallet(key) =>
      Assoc(Tag(0), EncBytes(key), tail);
      TagStep(0, EncBytes(key) + tail, rest);
      KeyStep(rules, key, tail, rest);
    case Contract(id) =>
      Assoc(Tag(1), id, tail);
      TagStep(1, id + tail, rest);
      HashStep(id, tail, rest);
  }

  // ---------- payloads ----------

  lemma PayloadStep(rules: Rules, p: Payload, tail: Bytes, rest: Bytes)
    requires ValidPayload(rules, p)
    ensures ReadPayload(rules, (EncPayload(p) + tail) + rest) == Done(p, tail + rest)
  {
    match p
    case Transfer(amount) =>
      Assoc(Tag(0), Le(amount, 8), tail);
      TagStep(0, Le(amount, 8) + tail, rest);
      U64Step(amount, tail, rest);
    case ContractDeploy(wasm) =>
      Assoc(Tag(1), EncBytes(wasm), tail);
      TagStep(1, EncBytes(wasm) + tail, rest);
      BytesStep(wasm, tail, rest);
    case ContractCall(name, args) =>
      Assoc(Tag(2), EncBytes(name) + EncBytes(args), tail);
      Assoc(EncBytes(name), EncBytes(args), tail);
      TagStep(2, EncBytes(name) + (EncBytes(args) + tail), rest);
      BytesStep(name, EncBytes(args) + tail, rest);
      BytesStep(args, tail, rest);
    case Data(data) =>
      Assoc(Tag(3), EncBytes(data), tail);
      TagStep(3, EncBytes(data) + tail, rest);
      BytesStep(data, tail, rest);
  }

  // ---------- sequences ----------

  // The reader gives back every element of xs, whatever follows it.
  ghost predicate ReadsBack<T(!new)>(enc: T -> Bytes, read: Bytes -> Read<T>, xs: seq<T>) {
    forall x, rest: Bytes | x in xs :: read(enc(x) + rest) == Done(x, rest)
  }

  lemma {:induction false} ManyRoundTrip<T(!new)>(enc: T -> Bytes, read: Bytes -> Read<T>, xs: seq<T>, rest: Bytes)
    requires ReadsBack(enc, read, xs)
    ensures ReadMany(read, |xs|, EncMany(enc, xs) + rest) == Done(xs, rest)
  {
    if xs == [] {
      assert EncMany(enc, xs) + rest == rest;
    } else {
      var tail := EncMany(enc, xs[1..]);
      Assoc(enc(xs[0]), tail, rest);
      assert xs[0] in xs;
      assert ReadsBack(enc, read, xs[1..]) by {
        assert forall x | x in xs[1..] :: x in xs;
      }
      ManyRoundTrip(enc, read, xs[1..], rest);
      assert [xs[0]] + xs[1..] == xs;
    }
  }

  lemma VecStep<T(!new)>(enc: T -> Bytes, read: Bytes -> Read<T>, xs: seq<T>, tail: Bytes, rest: Bytes)
    requires |xs| < U64_LIMIT && ReadsBack(enc, read, xs)
    ensures ReadVec(read, (EncVec(enc, xs) + tail) + rest) == Done(xs, tail + rest)
  {
    Assoc(Le(|xs|, 8), EncMany(enc, xs), tail);
    U64Step(|xs|, EncMany(enc, xs) + tail, rest);
    Assoc(EncMany(enc, xs), tail, rest);
    ManyRoundTrip(enc, read, xs, tail + rest);
  }

  // ---------- metadata ----------

  lemma EntryRoundTrip(rules: Rules, e: (Text, Text), rest: Bytes)
    requires ValidText(rules, e.0) && ValidText(rules, e.1)
    ensures ReadEntry(rules, EncEntry(e) + rest) == Done(e, rest)
  {
    BytesStep(e.0, EncBytes(e.1), rest);
    BytesStep(e.1, [], rest);
    assert EncBytes(e.1) + [] == EncBytes(e.1) && [] + rest == rest;
  }

  lemma EntryAt(m: Metadata, i: nat)
    requires i < |m|
    ensures Entries(m)[i].0 == Sorted(m.Keys)[i]
    ensures Entries(m)[i].0 in m && Entries(m)[i].1 == m[Entries(m)[i].0]
  {
    SortedEnumerates(m.Keys);
    assert Sorted(m.Keys)[i] in Sorted(m.Keys);
  }

  lemma {:induction false} InsertedKeys(es: seq<(Text, Text)>, k: Text)
    ensures k in InsertAll(es) <==> exists i :: 0 <= i < |es| && es[i].0 == k
  {
    if es != [] {
      var front := es[..|es| - 1];
      InsertedKeys(front, k);
      if k in InsertAll(es) && es[|es| - 1].0 != k {
        var i :| 0 <= i < |front| && front[i].0 == k;
        assert es[i].0 == k;
      }
      if i :| 0 <= i < |es| && es[i].0 == k {
        assert i < |front| ==> front[i].0 == k;
      }
    }
  }

  // A list whose entries all come from a map inserts values of that map.
  lemma {:induction false} InsertedValues(m: Metadata, es: seq<(Text, Text)>, k: Text)
    requires forall i | 0 <= i < |es| :: es[i].0 in m && es[i].1 == m[es[i].0]
    requires k in InsertAll(es)
    ensures k in m && InsertAll(es)[k] == m[k]
  {
    if es != [] && es[|es| - 1].0 != k {
      InsertedValues(m, es[..|es| - 1], k);
    }
  }

  lemma EntriesRoundTrip(m: Metadata)
    ensures InsertAll(Entries(m)) == m
  {
    var es, keys := Entries(m), Sorted(m.Keys);
    SortedEnumerates(m.Keys);
    forall i | 0 <= i < |es| ensures es[i].0 in m && es[i].1 == m[es[i].0] {
      EntryAt(m, i);
    }
    forall k ensures k in InsertAll(es) <==> k in m {
      InsertedKeys(es, k);
      if k in m {
        assert k in keys;
        var i :| 0 <= i < |keys| && keys[i] == k;
        EntryAt(m, i);
      }
    }
    forall k | k in InsertAll(es) ensures InsertAll(es)[k] == m[k] {
      InsertedValues(m, es, k);
    }
  }

  lemma MetadataStep(rules: Rules, m: Metadata, tail: Bytes, rest: Bytes)
    requires ValidMetadata(rules, m)
    ensures ReadMetadata(rules, (EncMetadata(m) + tail) + rest) == Done(m, tail + rest)
  {
    forall e, r: Bytes | e in Entries(m) ensures EntryReader(rules)(EncEntry(e) + r) == Done(e, r) {
      var i :| 0 <= i < |m| && Entries(m)[i] == e;
      EntryAt(m, i);
      EntryRoundTrip(rules, e, r);
    }
    assert ReadsBack(EncEntry, EntryReader(rules), Entries(m));
    VecStep(EncEntry, EntryReader(rules), Entries(m), tail, rest);
    EntriesRoundTrip(m);
  }

  lemma OptionalStep(rules: Rules, o: Option<Metadata>, tail: Bytes, rest: Bytes)
    requires ValidOptional(rules, o)
    ensures ReadOptional(rules, (EncOptional(o) + tail) + rest) == Done(o, tail + rest)
  {
    match o
    case None => ByteStep(0, tail, rest);
    case Some(m) =>
      Assoc([1], EncMetadata(m), tail);
      ByteStep(1, EncMetadata(m) + tail, rest);
      MetadataStep(rules, m, tail, rest);
  }

  lemma OptionalRoundTrip(rules: Rules, o: Option<Metadata>, rest: Bytes)
    requires ValidOptional(rules, o)
    ensures ReadOptional(rules, EncOptional(o) + rest) == Done(o, rest)
  {
    OptionalStep(rules, o, [], rest);
    assert EncOptional(o) + [] == EncOptional(o) && [] + rest == rest;
  }

  // ---------- whole values ----------

  // The bytes of a transaction behind its sender.
  function AfterSender(t: Transaction): Bytes {
    Le(t.nonce, 8) + AfterNonce(t)
  }

  function AfterNonce(t: Transaction): Bytes {
    Le(t.timestamp, 8) + (EncAddress(t.recipient) + (EncPayload(t.payload) + (EncBytes(t.signature) + (
      Le(t.gasLimit, 8) + ([t.priority] + EncOptional(t.metadata))))))
  }

  lemma PrefixedTransaction(rules: Rules, t: Transaction, rest: Bytes)
    requires ValidTransaction(rules, t) && rules.keys.Prefixed?
    ensures ReadTransaction(rules, EncTransaction(t) + rest) == Done(t, rest)
  {
    var t10 := EncOptional(t.metadata);
    var t9 := [t.priority] + t10;
    var t8 := Le(t.gasLimit, 8) + t9;
    var t7 := EncBytes(t.signature) + t8;
    var t6 := EncPayload(t.payload) + t7;
    var t5 := EncAddress(t.recipient) + t6;
    var t4 := Le(t.timestamp, 8) + t5;
    var t3 := Le(t.nonce, 8) + t4;
    var t2 := EncBytes(t.sender) + t3;
    HashStep(t.hash, t2, rest);
    KeyStep(rules, t.sender, t3, rest);
    U64Step(t.nonce, t4, rest);
    U64Step(t.timestamp, t5, rest);
    AddressStep(rules, t.recipient, t6, rest);
    PayloadStep(rules, t.payload, t7, rest);
    BytesStep(t.signature, t8, rest);
    U64Step(t.gasLimit, t9, rest);
    ByteStep(t.priority, t10, rest);
    OptionalRoundTrip(rules, t.metadata, rest);
  }

  // The first fields a transaction reader reads, one behind the other.
  lemma FirstFields(rules: Rules, b: Bytes)
    requires ReadTransaction(rules, b).Done?
    ensures var t := ReadTransaction(rules, b).value;
      var sender := ReadKey(rules, ReadHash(b).rest);
      var nonce := ReadU64(sender.rest);
      var timestamp := ReadU64(nonce.rest);
      && ReadHash(b).Done? && sender.Done? && nonce.Done? && timestamp.Done?
      && sender.value == t.sender && nonce.value == t.nonce && timestamp.value == t.timestamp
      && ReadAddress(rules, timestamp.rest).Done?
  {
    hide ReadAddress, ReadPayload, ReadSignature, ReadOptional, ReadKey, ReadHash, ReadU64, ReadByte;
  }

  // After a bare sender every later field is read eight bytes early. To come out right the
  // sender must be the length four times over, nonce and timestamp must then be that length
  // too, and it is no recipient.
  lemma BareTransactionLost(rules: Rules, t: Transaction, rest: Bytes)
    requires rules.keys.Bare?
    ensures var r := ReadTransaction(rules, EncTransaction(t) + rest); !(r.Done? && r.value == t)
  {
    var r := ReadTransaction(rules, EncTransaction(t) + rest);
    HashStep(t.hash, EncBytes(t.sender) + AfterSender(t), rest);
    Assoc(EncBytes(t.sender), AfterSender(t), rest);
    BareKey(rules, t.sender, AfterSender(t) + rest);
    MisreadFixed(t.sender);
    if r.Done? && r.value == t {
      FirstFields(rules, EncTransaction(t) + rest);
      hide ReadTransaction, EncTransaction, ReadKey, ReadHash, Misread, FourLengths, EncBytes, ReadAddress, ReadU64;
      EarlyFields(rules, t, rest);
    }
  }

  // What is read from the third field on, behind a sender that is the length four times over.
  lemma EarlyFields(rules: Rules, t: Transaction, rest: Bytes)
    ensures var nonce := ReadU64(KEY_LENGTH + (AfterSender(t) + rest));
      var timestamp := ReadU64(nonce.rest);
      && nonce.Done? && nonce.value == 32
      && timestamp.Done? && timestamp.value == t.nonce
      && (t.timestamp == 32 ==> ReadAddress(rules, timestamp.rest).Malformed?)
  {
    var x2 := AfterNonce(t) + rest;
    U64Front(32, AfterSender(t) + rest);
    Assoc(Le(t.nonce, 8), AfterNonce(t), rest);
    U64Front(t.nonce, x2);
    var behind := EncAddress(t.recipient) + (EncPayload(t.payload) + (EncBytes(t.signature) + (
      Le(t.gasLimit, 8) + ([t.priority] + EncOptional(t.metadata)))));
    Assoc(Le(t.timestamp, 8), behind, rest);
    LengthIsNoTag(rules, behind + rest);
    hide Le, ReadU64, ReadAddress, EncAddress, EncPayload, EncBytes, EncOptional;
  }

  lemma LowDigits(n: nat, n1: nat, n2: nat, n3: nat, n4: nat, a: byte, b: byte, c: byte, d: byte)
    requires n == 256 * n1 + a && n1 == 256 * n2 + b && n2 == 256 * n3 + c && n3 == 256 * n4 + d
    ensures n % U32_LIMIT == a + 256 * (b + 256 * (c + 256 * d))
  {
    var low: nat := a + 256 * (b + 256 * (c + 256 * d));
    assert n == n4 * U32_LIMIT + low;
    Quotient(n, U32_LIMIT, n4, low);
  }

  lemma LowHalf(n: nat)
    ensures n % U32_LIMIT
         == n % 256 + 256 * (n / 256 % 256 + 256 * (n / 256 / 256 % 256 + 256 * (n / 256 / 256 / 256 % 256)))
  {
    var n1 := n / 256;
    var n2 := n1 / 256;
    var n3 := n2 / 256;
    LowDigits(n, n1, n2, n3, n3 / 256, n % 256, n1 % 256, n2 % 256, n3 % 256);
  }

  // The four low bytes of a number, read as one.
  lemma LowBytes(n: nat, x: Bytes)
    ensures ReadTag(Le(n, 8) + x).Done? && ReadTag(Le(n, 8) + x).value == n % U32_LIMIT
  {
    var n1 := n / 256;
    var n2 := n1 / 256;
    var n3 := n2 / 256;
    LowHalf(n);
    assert Le(n, 8) == [n % 256] + Le(n1, 7) && Le(n1, 7) == [n1 % 256] + Le(n2, 6);
    assert Le(n2, 6) == [n2 % 256] + Le(n3, 5) && Le(n3, 5) == [n3 % 256] + Le(n3 / 256, 4);
    hide Le;
    FourBytes(n % 256, n1 % 256, n2 % 256, n3 % 256);
    hide FromLe;
    assert (Le(n, 8) + x)[..4] == [n % 256, n1 % 256, n2 % 256, n3 % 256];
  }

  lemma FourBytes(a: byte, b: byte, c: byte, d: byte)
    ensures FromLe([a, b, c, d]) == a + 256 * (b + 256 * (c + 256 * d))
  {
    assert [a, b, c, d][1..] == [b, c, d] && [b, c, d][1..] == [c, d] && [c, d][1..] == [d] && [d][1..] == [];
    assert FromLe([d]) == d && FromLe([c, d]) == c + 256 * d;
  }

  // Eight bytes holding 32 are no address tag.
  lemma LengthIsNoTag(rules: Rules, x: Bytes)
    ensures ReadAddress(rules, KEY_LENGTH + x).Malformed?
  {
    LowBytes(32, x);
    hide Le, ReadTag;
  }

  // What a bare reader cannot get past in a transaction: a key that it takes wrongly and that is
  // no point of the curve, or a timestamp whose low half, which it takes for the tag of the
  // recipient, is neither zero nor one. Seconds since 1970 are never that small.
  predicate Unparsable(rules: Rules, t: Transaction) {
    rules.keys.Bare? && (!rules.validKey(Misread(t.sender)) || t.timestamp % U32_LIMIT > 1)
  }

  lemma UnparsableMalformed(rules: Rules, t: Transaction, rest: Bytes)
    requires Unparsable(rules, t)
    ensures ReadTransaction(rules, EncTransaction(t) + rest).Malformed?
  {
    var r := ReadTransaction(rules, EncTransaction(t) + rest);
    HashStep(t.hash, EncBytes(t.sender) + AfterSender(t), rest);
    Assoc(EncBytes(t.sender), AfterSender(t), rest);
    BareKey(rules, t.sender, AfterSender(t) + rest);
    if r.Done? {
      FirstFields(rules, EncTransaction(t) + rest);
      hide ReadTransaction, EncTransaction, ReadKey, ReadHash, Misread, EncBytes, ReadAddress;
      LateTag(rules, t, t.sender[24..], rest);
    }
  }

  // Behind the last eight bytes of the sender come nonce and timestamp, the latter in the place
  // of the recipient.
  lemma LateTag(rules: Rules, t: Transaction, last: Bytes, rest: Bytes)
    requires |last| == 8 && t.timestamp % U32_LIMIT > 1
    ensures var nonce := ReadU64(last + (AfterSender(t) + rest));
      && nonce.Done?
      && ReadAddress(rules, ReadU64(nonce.rest).rest).Malformed?
  {
    var behind := EncAddress(t.recipient) + (EncPayload(t.payload) + (EncBytes(t.signature) + (
      Le(t.gasLimit, 8) + ([t.priority] + EncOptional(t.metadata)))));
    SplitAt(last, AfterSender(t) + rest);
    Assoc(Le(t.nonce, 8), AfterNonce(t), rest);
    U64Front(t.nonce, AfterNonce(t) + rest);
    Assoc(Le(t.timestamp, 8), behind, rest);
    LowBytes(t.timestamp, behind + rest);
    hide Le, EncAddress, EncPayload, EncBytes, EncOptional, ReadTag;
  }

  lemma U64Front(n: u64, x: Bytes)
    ensures ReadU64(Le(n, 8) + x) == Done(n, x)
  {
    U64Step(n, x, []);
    assert (Le(n, 8) + x) + [] == Le(n, 8) + x && x + [] == x;
  }

  // A transaction is read back exactly when keys are read with their length; bare, not even the
  // value comes out.
  lemma TransactionRoundTrip(rules: Rules, t: Transaction, rest: Bytes)
    requires ValidTransaction(rules, t)
    ensures var r := ReadTransaction(rules, EncTransaction(t) + rest);
      && (r == Done(t, rest) <==> rules.keys.Prefixed?)
      && (r.Done? && r.value == t <==> rules.keys.Prefixed?)
  {
    hide ReadTransaction, EncTransaction, ValidTransaction;
    match rules.keys
    case Prefixed => PrefixedTransaction(rules, t, rest);
    case Bare => BareTransactionLost(rules, t, rest);
  }

  lemma TransactionsReadBack(rules: Rules, ts: seq<Transaction>)
    requires rules.keys.Prefixed? && forall t | t in ts :: ValidTransaction(rules, t)
    ensures ReadsBack(EncTransaction, TransactionReader(rules), ts)
  {
    hide ReadTransaction, EncTransaction, ValidTransaction;
    forall t, r: Bytes | t in ts ensures TransactionReader(rules)(EncTransaction(t) + r) == Done(t, r) {
      TransactionRoundTrip(rules, t, r);
    }
  }

  // What a reader can give back of a block: all of it, or any block without transactions.
  predicate Readable(rules: Rules, b: Block) {
    rules.keys.Prefixed? || b.transactions == []
  }

  lemma TransactionsStep(rules: Rules, ts: seq<Transaction>, tail: Bytes, rest: Bytes)
    requires |ts| < U64_LIMIT && forall t | t in ts :: ValidTransaction(rules, t)
    ensures var r := ReadVec(TransactionReader(rules), (EncVec(EncTransaction, ts) + tail) + rest);
      && (rules.keys.Prefixed? || ts == [] ==> r == Done(ts, tail + rest))
      && (r.Done? && r.value == ts ==> rules.keys.Prefixed? || ts == [])
  {
    hide ReadTransaction, EncTransaction, ValidTransaction;
    if rules.keys.Prefixed? || ts == [] {
      assert ReadsBack(EncTransaction, TransactionReader(rules), ts) by {
        if ts != [] {
          TransactionsReadBack(rules, ts);
        }
      }
      VecStep(EncTransaction, TransactionReader(rules), ts, tail, rest);
    } else {
      var behind := EncMany(EncTransaction, ts[1..]) + (tail + rest);
      Assoc(Le(|ts|, 8), EncMany(EncTransaction, ts), tail);
      U64Step(|ts|, EncMany(EncTransaction, ts) + tail, rest);
      Assoc(EncMany(EncTransaction, ts), tail, rest);
      Assoc(EncTransaction(ts[0]), EncMany(EncTransaction, ts[1..]), tail + rest);
      TransactionRoundTrip(rules, ts[0], behind);
      assert ts[0] in ts;
    }
  }

  // The header of a block is read right with either form of keys, if the block is read at all;
  // the block is read back exactly when keys are read with their length or it has no
  // transactions.
  lemma BlockRoundTrip(rules: Rules, b: Block, rest: Bytes)
    requires ValidBlock(rules, b)
    ensures var r := ReadBlock(rules, EncBlock(b) + rest);
      && (r == Done(b, rest) <==> Readable(rules, b))
      && (r.Done? && r.value == b <==> Readable(rules, b))
      && (r.Done? ==> r.value.(transactions := b.transactions, metadata := b.metadata) == b)
  {
    var b7 := EncOptional(b.metadata);
    var b6 := EncVec(EncTransaction, b.transactions) + b7;
    var b5 := Le(b.nonce, 8) + b6;
    var b4 := b.hash + b5;
    var b3 := b.prevHash + b4;
    var b2 := Le(b.timestamp, 8) + b3;
    U64Step(b.index, b2, rest);
    U64Step(b.timestamp, b3, rest);
    HashStep(b.prevHash, b4, rest);
    HashStep(b.hash, b5, rest);
    U64Step(b.nonce, b6, rest);
    TransactionsStep(rules, b.transactions, b7, rest);
    OptionalRoundTrip(rules, b.metadata, rest);
    hide ReadVec, EncVec, ReadOptional, EncOptional, ReadU64, ReadHash, Le, ValidTransaction;
  }

  lemma TransactionsMalformed(rules: Rules, ts: seq<Transaction>, tail: Bytes, rest: Bytes)
    requires 0 < |ts| < U64_LIMIT && Unparsable(rules, ts[0])
    ensures ReadVec(TransactionReader(rules), (EncVec(EncTransaction, ts) + tail) + rest).Malformed?
  {
    hide ReadTransaction, EncTransaction, Unparsable;
    var behind := EncMany(EncTransaction, ts[1..]) + (tail + rest);
    Assoc(Le(|ts|, 8), EncMany(EncTransaction, ts), tail);
    U64Step(|ts|, EncMany(EncTransaction, ts) + tail, rest);
    Assoc(EncMany(EncTransaction, ts), tail, rest);
    Assoc(EncTransaction(ts[0]), EncMany(EncTransaction, ts[1..]), tail + rest);
    UnparsableMalformed(rules, ts[0], behind);
  }

  // A block whose first transaction is of that kind is not read at all, with its header or without.
  lemma UnparsableBlock(rules: Rules, b: Block, rest: Bytes)
    requires 0 < |b.transactions| < U64_LIMIT && Unparsable(rules, b.transactions[0])
    ensures ReadBlock(rules, EncBlock(b) + rest).Malformed?
  {
    var b7 := EncOptional(b.metadata);
    var b6 := EncVec(EncTransaction, b.transactions) + b7;
    var b5 := Le(b.nonce, 8) + b6;
    var b4 := b.hash + b5;
    var b3 := b.prevHash + b4;
    var b2 := Le(b.timestamp, 8) + b3;
    U64Step(b.index, b2, rest);
    U64Step(b.timestamp, b3, rest);
    HashStep(b.prevHash, b4, rest);
    HashStep(b.hash, b5, rest);
    U64Step(b.nonce, b6, rest);
    TransactionsMalformed(rules, b.transactions, b7, rest);
    hide ReadVec, EncVec, ReadOptional, EncOptional, ReadU64, ReadHash, Le, Unparsable;
  }

  lemma AccountRoundTrip(a: Account, rest: Bytes)
    ensures ReadAccount(EncAccount(a) + rest) == Done(a, rest)
  {
    var last := Le(a.nonce, 8);
    assert last + [] == last && [] + rest == rest;
    U64Step(a.nonce, [], rest);
    match a
    case WalletAccount(balance, nonce) =>
      TagStep(0, Le(balance, 8) + last, rest);
      U64Step(balance, last, rest);
    case ContractAccount(code, root, nonce) =>
      TagStep(1, code + (root + last), rest);
      HashStep(code, root + last, rest);
      HashStep(root, last, rest);
  }

  lemma ChainStateRoundTrip(s: ChainState, rest: Bytes)
    ensures ReadChainState(EncChainState(s) + rest) == Done(s, rest)
  {
    var last := Le(s.totalSupply, 8);
    assert last + [] == last && [] + rest == rest;
    HashStep(s.latestHash, Le(s.latestIndex, 8) + (s.accountsRoot + last), rest);
    U64Step(s.latestIndex, s.accountsRoot + last, rest);
    HashStep(s.accountsRoot, last, rest);
    U64Step(s.totalSupply, [], rest);
  }
}
