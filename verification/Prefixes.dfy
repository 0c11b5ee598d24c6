/** Where readers stop: they consume a prefix of what they are given, and need no more than that.
    So a prefix of any bytes is a message exactly when it holds what the message reader consumes. */
module Prefixes {
  import opened Bytes
  import opened Types
  import opened Codec
  import opened Streaming
  import Frames
  import RoundTrip

  // ---------- readers consume ----------

  ghost predicate Shrinks<T(!new)>(read: Bytes -> Read<T>) {
    forall b: Bytes | read(b).Done? :: |read(b).rest| <= |b|
  }

  lemma {:induction false} ManyShrinks<T(!new)>(read: Bytes -> Read<T>, n: nat, b: Bytes)
    requires Shrinks(read) && ReadMany(read, n, b).Done?
    ensures |ReadMany(read, n, b).rest| <= |b|
  {
    if n > 0 {
      ManyShrinks(read, n - 1, read(b).rest);
    }
  }

  lemma EntriesShrink(rules: Rules)
    ensures Shrinks(EntryReader(rules))
  {
    hide ReadEntry;
  }

  lemma OptionalShrinks(rules: Rules, b: Bytes)
    requires ReadOptional(rules, b).Done?
    ensures |ReadOptional(rules, b).rest| <= |b|
  {
    var (tag, b1) := ReadByte(b).Extract();
    if tag == 1 {
      EntriesShrink(rules);
      ManyShrinks(EntryReader(rules), ReadU64(b1).value, ReadU64(b1).rest);
    }
    hide EntryReader;
  }

  lemma TransactionShrinks(rules: Rules, b: Bytes)
    requires ReadTransaction(rules, b).Done?
    ensures |ReadTransaction(rules, b).rest| <= |b|
  {
    hide ReadKey, ReadAddress, ReadPayload, ReadSignature, ReadOptional, ReadHash, ReadU64, ReadByte;
    var (_, b1) := ReadHash(b).Extract();
    var (_, b2) := ReadKey(rules, b1).Extract();
    var (_, b3) := ReadU64(b2).Extract();
    var (_, b4) := ReadU64(b3).Extract();
    var (_, b5) := ReadAddress(rules, b4).Extract();
    var (_, b6) := ReadPayload(rules, b5).Extract();
    var (_, b7) := ReadSignature(b6).Extract();
    var (_, b8) := ReadU64(b7).Extract();
    var (_, b9) := ReadByte(b8).Extract();
    OptionalShrinks(rules, b9);
  }

  lemma TransactionsShrink(rules: Rules)
    ensures Shrinks(TransactionReader(rules))
  {
    hide ReadTransaction;
    forall b: Bytes | TransactionReader(rules)(b).Done? ensures |TransactionReader(rules)(b).rest| <= |b| {
      TransactionShrinks(rules, b);
    }
  }

  lemma VecShrinks<T(!new)>(read: Bytes -> Read<T>, b: Bytes)
    requires Shrinks(read) && ReadVec(read, b).Done?
    ensures |ReadVec(read, b).rest| <= |b|
  {
    ManyShrinks(read, ReadU64(b).value, ReadU64(b).rest);
  }

  lemma BlockShrinks(rules: Rules, b: Bytes)
    requires ReadBlock(rules, b).Done?
    ensures |ReadBlock(rules, b).rest| <= |b|
  {
    hide ReadVec, ReadOptional, ReadU64, ReadHash;
    var (_, b1) := ReadU64(b).Extract();
    var (_, b2) := ReadU64(b1).Extract();
    var (_, b3) := ReadHash(b2).Extract();
    var (_, b4) := ReadHash(b3).Extract();
    var (_, b5) := ReadU64(b4).Extract();
    var (_, b6) := ReadVec(TransactionReader(rules), b5).Extract();
    TransactionsShrink(rules);
    VecShrinks(TransactionReader(rules), b5);
    OptionalShrinks(rules, b6);
  }

  lemma BlocksShrink(rules: Rules)
    ensures Shrinks(BlockReader(rules))
  {
    hide ReadBlock;
    forall b: Bytes | BlockReader(rules)(b).Done? ensures |BlockReader(rules)(b).rest| <= |b| {
      BlockShrinks(rules, b);
    }
  }

  // ---------- what is not consumed is not needed ----------

  // A reading of b + x that stops before x.
  predicate StopsBefore<T>(r: Read<T>, x: Bytes) {
    r.Done? && |r.rest| >= |x|
  }

  lemma BytesCut(b: Bytes, x: Bytes)
    requires StopsBefore(ReadBytes(b + x), x)
    ensures ReadBytes(b).Done?
  {
    U64Cut(b, x);
    U64Streams(b, x);
    hide ReadU64;
  }

  lemma U64Cut(b: Bytes, x: Bytes)
    requires StopsBefore(ReadU64(b + x), x)
    ensures ReadU64(b).Done?
  {
  }

  lemma KeyCut(rules: Rules, b: Bytes, x: Bytes)
    requires StopsBefore(ReadKey(rules, b + x), x)
    ensures ReadKey(rules, b).Done?
  {
    match rules.keys
    case Bare => RawStreams(32, b, x);
    case Prefixed =>
      BytesCut(b, x);
      BytesStreams(b, x);
      hide ReadBytes;
  }

  lemma AddressCut(rules: Rules, b: Bytes, x: Bytes)
    requires StopsBefore(ReadAddress(rules, b + x), x)
    ensures ReadAddress(rules, b).Done?
  {
    assert ReadTag(b).Done?;
    TagStreams(b, x);
    var (tag, b1) := ReadTag(b).Extract();
    hide ReadKey, ReadTag;
    if tag == 0 {
      KeyCut(rules, b1, x);
    }
  }

  lemma PayloadCut(rules: Rules, b: Bytes, x: Bytes)
    requires StopsBefore(ReadPayload(rules, b + x), x)
    ensures ReadPayload(rules, b).Done?
  {
    assert ReadTag(b).Done?;
    TagStreams(b, x);
    var (tag, b1) := ReadTag(b).Extract();
    hide ReadTag, ReadBytes;
    if tag == 0 {
      U64Cut(b1, x);
    } else {
      BytesCut(b1, x);
      BytesStreams(b1, x);
      if tag == 2 {
        BytesCut(ReadBytes(b1).rest, x);
        BytesStreams(ReadBytes(b1).rest, x);
      }
    }
  }

  ghost predicate Cuts<T(!new)>(read: Bytes -> Read<T>) {
    forall b: Bytes, x: Bytes | StopsBefore(read(b + x), x) :: read(b).Done?
  }

  lemma {:induction false} ManyCut<T(!new)>(read: Bytes -> Read<T>, n: nat, b: Bytes, x: Bytes)
    requires Streams(read) && Shrinks(read) && Cuts(read)
    requires StopsBefore(ReadMany(read, n, b + x), x)
    ensures ReadMany(read, n, b).Done?
  {
    if n > 0 {
      ManyShrinks(read, n - 1, read(b + x).rest);
      assert StopsBefore(read(b + x), x);
      assert read(b + x) == With(read(b), x);
      ManyCut(read, n - 1, read(b).rest, x);
    }
  }

  lemma VecCut<T(!new)>(read: Bytes -> Read<T>, b: Bytes, x: Bytes)
    requires Streams(read) && Shrinks(read) && Cuts(read)
    requires StopsBefore(ReadVec(read, b + x), x)
    ensures ReadVec(read, b).Done?
  {
    ManyShrinks(read, ReadU64(b + x).value, ReadU64(b + x).rest);
    U64Cut(b, x);
    U64Streams(b, x);
    hide ReadU64;
    ManyCut(read, ReadU64(b).value, ReadU64(b).rest, x);
  }

  lemma TextCut(rules: Rules, b: Bytes, x: Bytes)
    requires StopsBefore(ReadText(rules, b + x), x)
    ensures ReadText(rules, b).Done? && ReadText(rules, b + x) == With(ReadText(rules, b), x)
  {
    BytesCut(b, x);
    BytesStreams(b, x);
    hide ReadBytes;
  }

  lemma EntryCut(rules: Rules, b: Bytes, x: Bytes)
    requires StopsBefore(ReadEntry(rules, b + x), x)
    ensures ReadEntry(rules, b).Done?
  {
    hide ReadText;
    TextCut(rules, b, x);
    TextCut(rules, ReadText(rules, b).rest, x);
  }

  lemma EntriesCut(rules: Rules)
    ensures Cuts(EntryReader(rules))
  {
    hide ReadEntry;
    forall b: Bytes, x: Bytes | StopsBefore(EntryReader(rules)(b + x), x) ensures EntryReader(rules)(b).Done? {
      EntryCut(rules, b, x);
    }
  }

  lemma OptionalCut(rules: Rules, b: Bytes, x: Bytes)
    requires StopsBefore(ReadOptional(rules, b + x), x)
    ensures ReadOptional(rules, b).Done?
  {
    var (tag, w) := ReadByte(b + x).Extract();
    EntriesShrink(rules);
    EntriesStream(rules);
    EntriesCut(rules);
    hide EntryReader;
    if tag == 1 {
      VecShrinks(EntryReader(rules), w);
    }
    assert ReadByte(b).Done?;
    ByteStreams(b, x);
    if tag == 1 {
      VecCut(EntryReader(rules), ReadByte(b).rest, x);
    }
  }

  // The ten fields of a transaction, read from b + x, each leave at least x.
  lemma FieldsStop(rules: Rules, w: Bytes, x: Bytes)
    requires StopsBefore(ReadTransaction(rules, w), x)
    ensures
      var w1 := ReadHash(w);
      var w2 := ReadKey(rules, w1.rest);
      var w3 := ReadU64(w2.rest);
      var w4 := ReadU64(w3.rest);
      var w5 := ReadAddress(rules, w4.rest);
      var w6 := ReadPayload(rules, w5.rest);
      var w7 := ReadSignature(w6.rest);
      var w8 := ReadU64(w7.rest);
      var w9 := ReadByte(w8.rest);
      && StopsBefore(w1, x) && StopsBefore(w2, x) && StopsBefore(w3, x) && StopsBefore(w4, x) && StopsBefore(w5, x)
      && StopsBefore(w6, x) && StopsBefore(w7, x) && StopsBefore(w8, x) && StopsBefore(w9, x)
      && StopsBefore(ReadOptional(rules, w9.rest), x)
  {
    hide ReadKey, ReadAddress, ReadPayload, ReadSignature, ReadOptional, ReadHash, ReadU64, ReadByte;
    var (_, b1) := ReadHash(w).Extract();
    var (_, b2) := ReadKey(rules, b1).Extract();
    var (_, b3) := ReadU64(b2).Extract();
    var (_, b4) := ReadU64(b3).Extract();
    var (_, b5) := ReadAddress(rules, b4).Extract();
    var (_, b6) := ReadPayload(rules, b5).Extract();
    var (_, b7) := ReadSignature(b6).Extract();
    var (_, b8) := ReadU64(b7).Extract();
    var (_, b9) := ReadByte(b8).Extract();
    OptionalShrinks(rules, b9);
  }

  lemma HashCut(b: Bytes, x: Bytes)
    requires StopsBefore(ReadHash(b + x), x)
    ensures ReadHash(b).Done? && ReadHash(b + x) == With(ReadHash(b), x)
  {
    HashStreams(b, x);
  }

  lemma SignatureCut(b: Bytes, x: Bytes)
    requires StopsBefore(ReadSignature(b + x), x)
    ensures ReadSignature(b).Done? && ReadSignature(b + x) == With(ReadSignature(b), x)
  {
    BytesCut(b, x);
    BytesStreams(b, x);
    hide ReadBytes;
  }

  lemma ByteCut(b: Bytes, x: Bytes)
    requires StopsBefore(ReadByte(b + x), x)
    ensures ReadByte(b).Done? && ReadByte(b + x) == With(ReadByte(b), x)
  {
    ByteStreams(b, x);
  }

  lemma TransactionCut(rules: Rules, b: Bytes, x: Bytes)
    requires StopsBefore(ReadTransaction(rules, b + x), x)
    ensures ReadTransaction(rules, b).Done?
  {
    FieldsStop(rules, b + x, x);
    hide ReadKey, ReadAddress, ReadPayload, ReadSignature, ReadOptional, ReadHash, ReadU64, ReadByte;
    HashCut(b, x);
    var b1 := ReadHash(b).rest;
    KeyCut(rules, b1, x);
    KeyStreams(rules, b1, x);
    var b2 := ReadKey(rules, b1).rest;
    U64Cut(b2, x);
    U64Streams(b2, x);
    var b3 := ReadU64(b2).rest;
    U64Cut(b3, x);
    U64Streams(b3, x);
    var b4 := ReadU64(b3).rest;
    AddressCut(rules, b4, x);
    AddressStreams(rules, b4, x);
    var b5 := ReadAddress(rules, b4).rest;
    PayloadCut(rules, b5, x);
    PayloadStreams(rules, b5, x);
    var b6 := ReadPayload(rules, b5).rest;
    SignatureCut(b6, x);
    var b7 := ReadSignature(b6).rest;
    U64Cut(b7, x);
    U64Streams(b7, x);
    var b8 := ReadU64(b7).rest;
    ByteCut(b8, x);
    OptionalCut(rules, ReadByte(b8).rest, x);
  }

  lemma TransactionsCut(rules: Rules)
    ensures Cuts(TransactionReader(rules))
  {
    hide ReadTransaction;
    forall b: Bytes, x: Bytes | StopsBefore(TransactionReader(rules)(b + x), x)
      ensures TransactionReader(rules)(b).Done?
    {
      TransactionCut(rules, b, x);
    }
  }

  lemma BlockFieldsStop(rules: Rules, w: Bytes, x: Bytes)
    requires StopsBefore(ReadBlock(rules, w), x)
    ensures
      var w1 := ReadU64(w);
      var w2 := ReadU64(w1.rest);
      var w3 := ReadHash(w2.rest);
      var w4 := ReadHash(w3.rest);
      var w5 := ReadU64(w4.rest);
      var w6 := ReadVec(TransactionReader(rules), w5.rest);
      && StopsBefore(w1, x) && StopsBefore(w2, x) && StopsBefore(w3, x) && StopsBefore(w4, x) && StopsBefore(w5, x)
      && StopsBefore(w6, x) && StopsBefore(ReadOptional(rules, w6.rest), x)
  {
    hide ReadVec, ReadOptional, ReadU64, ReadHash;
    var (_, b1) := ReadU64(w).Extract();
    var (_, b2) := ReadU64(b1).Extract();
    var (_, b3) := ReadHash(b2).Extract();
    var (_, b4) := ReadHash(b3).Extract();
    var (_, b5) := ReadU64(b4).Extract();
    var (_, b6) := ReadVec(TransactionReader(rules), b5).Extract();
    TransactionsShrink(rules);
    VecShrinks(TransactionReader(rules), b5);
    OptionalShrinks(rules, b6);
  }

  lemma BlockCut(rules: Rules, b: Bytes, x: Bytes)
    requires StopsBefore(ReadBlock(rules, b + x), x)
    ensures ReadBlock(rules, b).Done?
  {
    BlockFieldsStop(rules, b + x, x);
    hide ReadVec, ReadOptional, ReadU64, ReadHash;
    U64Cut(b, x);
    U64Streams(b, x);
    var b1 := ReadU64(b).rest;
    U64Cut(b1, x);
    U64Streams(b1, x);
    var b2 := ReadU64(b1).rest;
    HashCut(b2, x);
    var b3 := ReadHash(b2).rest;
    HashCut(b3, x);
    var b4 := ReadHash(b3).rest;
    U64Cut(b4, x);
    U64Streams(b4, x);
    var b5 := ReadU64(b4).rest;
    TransactionsShrink(rules);
    TransactionsStream(rules);
    TransactionsCut(rules);
    VecCut(TransactionReader(rules), b5, x);
    VecStreams(TransactionReader(rules), b5, x);
    OptionalCut(rules, ReadVec(TransactionReader(rules), b5).rest, x);
  }

  lemma BlocksCut(rules: Rules)
    ensures Cuts(BlockReader(rules))
  {
    hide ReadBlock;
    forall b: Bytes, x: Bytes | StopsBefore(BlockReader(rules)(b + x), x) ensures BlockReader(rules)(b).Done? {
      BlockCut(rules, b, x);
    }
  }

  // ---------- messages ----------

  lemma TagCut(b: Bytes, x: Bytes)
    requires StopsBefore(ReadTag(b + x), x)
    ensures ReadTag(b).Done? && ReadTag(b + x) == With(ReadTag(b), x)
  {
    TagStreams(b, x);
  }

  lemma BodyShrinks(rules: Rules, tag: u32, b: Bytes)
    requires Frames.ReadBody(rules, tag, b).Done?
    ensures |Frames.ReadBody(rules, tag, b).rest| <= |b|
  {
    hide ReadKey, ReadTag, ReadHash, ReadU64, ReadVec;
    if tag == 5 {
      BlocksShrink(rules);
      VecShrinks(BlockReader(rules), b);
    }
  }

  lemma BodyCut(rules: Rules, tag: u32, b: Bytes, x: Bytes)
    requires StopsBefore(Frames.ReadBody(rules, tag, b + x), x)
    ensures Frames.ReadBody(rules, tag, b).Done?
  {
    hide ReadKey, ReadTag, ReadHash, ReadU64, ReadVec;
    if tag == 0 || tag == 1 {
      KeyCut(rules, b, x);
      KeyStreams(rules, b, x);
      TagCut(ReadKey(rules, b).rest, x);
    } else if tag == 3 || tag == 6 {
      HashCut(b, x);
      U64Cut(ReadHash(b).rest, x);
    } else if tag == 4 {
      U64Cut(b, x);
      U64Streams(b, x);
      U64Cut(ReadU64(b).rest, x);
    } else if tag == 5 {
      BlocksShrink(rules);
      BlocksStream(rules);
      BlocksCut(rules);
      VecCut(BlockReader(rules), b, x);
    }
  }

  lemma MessageCut(rules: Rules, b: Bytes, x: Bytes)
    requires StopsBefore(Frames.ReadMessage(rules, b + x), x)
    ensures Frames.ReadMessage(rules, b).Done?
  {
    hide ReadTag, Frames.ReadBody;
    var (tag, w) := ReadTag(b + x).Extract();
    BodyShrinks(rules, tag, w);
    TagCut(b, x);
    BodyCut(rules, tag, ReadTag(b).rest, x);
  }

  // For any bytes and either reader of keys: a prefix is a message if and only if the whole is one
  // and the prefix holds all that its reader consumes; it is then the same message.
  lemma PrefixExact(rules: Rules, whole: Bytes, n: nat)
    requires n <= |whole|
    ensures var r, part := Frames.ReadMessage(rules, whole), Frames.ReadMessage(rules, whole[..n]);
      && (part.Done? <==> r.Done? && n >= |whole| - |r.rest|)
      && (part.Done? ==> part.value == r.value)
  {
    hide Frames.ReadMessage;
    var p, x := whole[..n], whole[n..];
    assert p + x == whole;
    if Frames.ReadMessage(rules, p).Done? {
      Frames.MessageStreams(rules, p, x);
    }
    if StopsBefore(Frames.ReadMessage(rules, p + x), x) {
      MessageCut(rules, p, x);
    }
  }

  lemma VecMalformed(rules: Rules, blocks: seq<Block>)
    requires |blocks| < U64_LIMIT
    requires ReadMany(BlockReader(rules), |blocks|, EncMany(EncBlock, blocks) + []).Malformed?
    ensures ReadVec(BlockReader(rules), EncVec(EncBlock, blocks)).Malformed?
  {
    hide ReadMany, EncMany, ReadU64, BlockReader;
    assert EncMany(EncBlock, blocks) + [] == EncMany(EncBlock, blocks);
    RoundTrip.U64Front(|blocks|, EncMany(EncBlock, blocks));
  }

  lemma ResponseMalformed(rules: Rules, blocks: seq<Block>)
    requires ReadVec(BlockReader(rules), EncVec(EncBlock, blocks)).Malformed?
    ensures Frames.ReadMessage(rules, Frames.EncMessage(Frames.BlocksResponse(blocks))).Malformed?
  {
    hide ReadVec, EncVec, BlockReader, Le, ReadTag;
    var whole := Frames.EncMessage(Frames.BlocksResponse(blocks));
    RoundTrip.TagStep(5, EncVec(EncBlock, blocks), []);
    assert whole + [] == whole && EncVec(EncBlock, blocks) + [] == EncVec(EncBlock, blocks);
  }

  // Under the source's reader no part of a response is a message when one of its blocks starts
  // with a transaction that reader cannot get past and the blocks before it have none.
  lemma UnparsableResponse(rules: Rules, blocks: seq<Block>, i: nat, n: nat)
    requires i < |blocks| < U64_LIMIT && forall b | b in blocks :: ValidBlock(rules, b)
    requires forall j | 0 <= j < i :: blocks[j].transactions == []
    requires blocks[i].transactions != [] && RoundTrip.Unparsable(rules, blocks[i].transactions[0])
    requires n <= |Frames.EncMessage(Frames.BlocksResponse(blocks))|
    ensures Frames.ReadMessage(rules, Frames.EncMessage(Frames.BlocksResponse(blocks))[..n]).Malformed?
  {
    hide ReadVec, EncVec, ReadMany, EncMany, Frames.ReadMessage, Frames.EncMessage, RoundTrip.Unparsable, ValidBlock;
    ManyMalformed(rules, blocks, i, []);
    VecMalformed(rules, blocks);
    ResponseMalformed(rules, blocks);
    PrefixExact(rules, Frames.EncMessage(Frames.BlocksResponse(blocks)), n);
  }

  lemma {:induction false} ManyMalformed(rules: Rules, blocks: seq<Block>, i: nat, rest: Bytes)
    requires i < |blocks| && forall b | b in blocks :: ValidBlock(rules, b)
    requires forall j | 0 <= j < i :: blocks[j].transactions == []
    requires blocks[i].transactions != [] && RoundTrip.Unparsable(rules, blocks[i].transactions[0])
    ensures ReadMany(BlockReader(rules), |blocks|, EncMany(EncBlock, blocks) + rest).Malformed?
  {
    hide EncBlock, ReadBlock, RoundTrip.Unparsable, ValidBlock;
    var behind := EncMany(EncBlock, blocks[1..]) + rest;
    Assoc(EncBlock(blocks[0]), EncMany(EncBlock, blocks[1..]), rest);
    assert blocks[0] in blocks;
    if i == 0 {
      ValidSize(rules, blocks[0]);
      RoundTrip.UnparsableBlock(rules, blocks[0], behind);
    } else {
      RoundTrip.BlockRoundTrip(rules, blocks[0], behind);
      ManyMalformed(rules, blocks[1..], i - 1, rest);
    }
  }

  lemma ValidSize(rules: Rules, b: Block)
    requires ValidBlock(rules, b)
    ensures |b.transactions| < U64_LIMIT
  {
  }
}
