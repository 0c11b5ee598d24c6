/** Readers decide on the bytes they consume: more bytes behind them change nothing, whatever the
    form of keys. A value that is read back leaving nothing has therefore no readable strict
    prefix. */
module Streaming {
  import opened Bytes
  import opened Types
  import opened Codec

  // The reading of b, with x left over as well.
  function With<T>(r: Read<T>, x: Bytes): Read<T> {
    match r
    case Done(value, rest) => Done(value, rest + x)
    case Malformed => Malformed
  }

  lemma RawStreams(n: nat, b: Bytes, x: Bytes)
    requires ReadRaw(n, b).Done?
    ensures ReadRaw(n, b + x) == With(ReadRaw(n, b), x)
  {
    assert (b + x)[..n] == b[..n] && (b + x)[n..] == b[n..] + x;
  }

  lemma HashStreams(b: Bytes, x: Bytes)
    requires ReadHash(b).Done?
    ensures ReadHash(b + x) == With(ReadHash(b), x)
  {
    RawStreams(32, b, x);
  }

  lemma U64Streams(b: Bytes, x: Bytes)
    requires ReadU64(b).Done?
    ensures ReadU64(b + x) == With(ReadU64(b), x)
  {
    RawStreams(8, b, x);
  }

  lemma TagStreams(b: Bytes, x: Bytes)
    requires ReadTag(b).Done?
    ensures ReadTag(b + x) == With(ReadTag(b), x)
  {
    RawStreams(4, b, x);
  }

  lemma ByteStreams(b: Bytes, x: Bytes)
    requires ReadByte(b).Done?
    ensures ReadByte(b + x) == With(ReadByte(b), x)
  {
    assert (b + x)[1..] == b[1..] + x;
  }

  lemma BytesStreams(b: Bytes, x: Bytes)
    requires ReadBytes(b).Done?
    ensures ReadBytes(b + x) == With(ReadBytes(b), x)
  {
    U64Streams(b, x);
    RawStreams(ReadU64(b).value, ReadU64(b).rest, x);
  }

  lemma KeyStreams(rules: Rules, b: Bytes, x: Bytes)
    requires ReadKey(rules, b).Done?
    ensures ReadKey(rules, b + x) == With(ReadKey(rules, b), x)
  {
    match rules.keys
    case Bare => RawStreams(32, b, x);
    case Prefixed => BytesStreams(b, x);
  }

  lemma AddressStreams(rules: Rules, b: Bytes, x: Bytes)
    requires ReadAddress(rules, b).Done?
    ensures ReadAddress(rules, b + x) == With(ReadAddress(rules, b), x)
  {
    TagStreams(b, x);
    var (tag, b1) := ReadTag(b).Extract();
    if tag == 0 {
      KeyStreams(rules, b1, x);
    } else {
      HashStreams(b1, x);
    }
  }

  lemma PayloadStreams(rules: Rules, b: Bytes, x: Bytes)
    requires ReadPayload(rules, b).Done?
    ensures ReadPayload(rules, b + x) == With(ReadPayload(rules, b), x)
  {
    TagStreams(b, x);
    var (tag, b1) := ReadTag(b).Extract();
    if tag == 0 {
      U64Streams(b1, x);
    } else {
      BytesStreams(b1, x);
      if tag == 2 {
        BytesStreams(ReadBytes(b1).rest, x);
      }
    }
  }

  ghost predicate Streams<T(!new)>(read: Bytes -> Read<T>) {
    forall b: Bytes, x: Bytes | read(b).Done? :: read(b + x) == With(read(b), x)
  }

  lemma {:induction false} ManyStreams<T(!new)>(read: Bytes -> Read<T>, n: nat, b: Bytes, x: Bytes)
    requires Streams(read) && ReadMany(read, n, b).Done?
    ensures ReadMany(read, n, b + x) == With(ReadMany(read, n, b), x)
  {
    if n > 0 {
      assert read(b + x) == With(read(b), x);
      ManyStreams(read, n - 1, read(b).rest, x);
    }
  }

  lemma VecStreams<T(!new)>(read: Bytes -> Read<T>, b: Bytes, x: Bytes)
    requires Streams(read) && ReadVec(read, b).Done?
    ensures ReadVec(read, b + x) == With(ReadVec(read, b), x)
  {
    U64Streams(b, x);
    ManyStreams(read, ReadU64(b).value, ReadU64(b).rest, x);
  }

  lemma EntryStreams(rules: Rules, b: Bytes, x: Bytes)
    requires ReadEntry(rules, b).Done?
    ensures ReadEntry(rules, b + x) == With(ReadEntry(rules, b), x)
  {
    BytesStreams(b, x);
    BytesStreams(ReadText(rules, b).rest, x);
    hide ReadBytes;
  }

  lemma EntriesStream(rules: Rules)
    ensures Streams(EntryReader(rules))
  {
    hide ReadEntry;
    forall b: Bytes, x: Bytes | EntryReader(rules)(b).Done?
      ensures EntryReader(rules)(b + x) == With(EntryReader(rules)(b), x)
    {
      EntryStreams(rules, b, x);
    }
  }

  lemma OptionalStreams(rules: Rules, b: Bytes, x: Bytes)
    requires ReadOptional(rules, b).Done?
    ensures ReadOptional(rules, b + x) == With(ReadOptional(rules, b), x)
  {
    ByteStreams(b, x);
    var (tag, b1) := ReadByte(b).Extract();
    if tag == 1 {
      EntriesStream(rules);
      VecStreams(EntryReader(rules), b1, x);
    }
  }

  lemma TransactionStreams(rules: Rules, b: Bytes, x: Bytes)
    requires ReadTransaction(rules, b).Done?
    ensures ReadTransaction(rules, b + x) == With(ReadTransaction(rules, b), x)
  {
    var (_, b1) := ReadHash(b).Extract();
    var (_, b2) := ReadKey(rules, b1).Extract();
    var (_, b3) := ReadU64(b2).Extract();
    var (_, b4) := ReadU64(b3).Extract();
    var (_, b5) := ReadAddress(rules, b4).Extract();
    var (_, b6) := ReadPayload(rules, b5).Extract();
    var (_, b7) := ReadSignature(b6).Extract();
    var (_, b8) := ReadU64(b7).Extract();
    var (_, b9) := ReadByte(b8).Extract();
    HashStreams(b, x);
    KeyStreams(rules, b1, x);
    U64Streams(b2, x);
    U64Streams(b3, x);
    AddressStreams(rules, b4, x);
    PayloadStreams(rules, b5, x);
    BytesStreams(b6, x);
    U64Streams(b7, x);
    ByteStreams(b8, x);
    OptionalStreams(rules, b9, x);
    hide ReadAddress, ReadPayload, ReadOptional, ReadU64, ReadHash, ReadByte, ReadBytes;
  }

  lemma TransactionsStream(rules: Rules)
    ensures Streams(TransactionReader(rules))
  {
    hide ReadTransaction;
    forall b: Bytes, x: Bytes | TransactionReader(rules)(b).Done?
      ensures TransactionReader(rules)(b + x) == With(TransactionReader(rules)(b), x)
    {
      TransactionStreams(rules, b, x);
    }
  }

  lemma BlockStreams(rules: Rules, b: Bytes, x: Bytes)
    requires ReadBlock(rules, b).Done?
    ensures ReadBlock(rules, b + x) == With(ReadBlock(rules, b), x)
  {
    var (_, b1) := ReadU64(b).Extract();
    var (_, b2) := ReadU64(b1).Extract();
    var (_, b3) := ReadHash(b2).Extract();
    var (_, b4) := ReadHash(b3).Extract();
    var (_, b5) := ReadU64(b4).Extract();
    var (_, b6) := ReadVec(TransactionReader(rules), b5).Extract();
    U64Streams(b, x);
    U64Streams(b1, x);
    HashStreams(b2, x);
    HashStreams(b3, x);
    U64Streams(b4, x);
    TransactionsStream(rules);
    VecStreams(TransactionReader(rules), b5, x);
    OptionalStreams(rules, b6, x);
    hide ReadVec, ReadOptional, ReadU64, ReadHash;
  }

  lemma BlocksStream(rules: Rules)
    ensures Streams(BlockReader(rules))
  {
    hide ReadBlock;
    forall b: Bytes, x: Bytes | BlockReader(rules)(b).Done?
      ensures BlockReader(rules)(b + x) == With(BlockReader(rules)(b), x)
    {
      BlockStreams(rules, b, x);
    }
  }
}
