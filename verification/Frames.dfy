/** Network messages and their length-prefixed frames. */
module Frames {
  import opened Bytes
  import opened Types
  import opened Codec
  import opened Layout
  import RoundTrip
  import Streaming

  datatype Message =
    | Handshake(peer: PublicKey, version: u32)
    | HandshakeAck(peer: PublicKey, version: u32)
    | GetChainHead
    | ChainHeadResponse(latestHash: Hash, height: u64)
    | GetBlocks(fromHeight: u64, toHeight: u64)
    | BlocksResponse(blocks: seq<Block>)
    | NewBlockAnnouncement(blockHash: Hash, height: u64)
    | Ping
    | Pong

  predicate ValidMessage(rules: Rules, m: Message) {
    match m
    case Handshake(peer, _) => rules.validKey(peer)
    case HandshakeAck(peer, _) => rules.validKey(peer)
    case BlocksResponse(blocks) => |blocks| < U64_LIMIT && forall b | b in blocks :: ValidBlock(rules, b)
    case _ => true
  }

  function EncMessage(m: Message): Bytes {
    match m
    case Handshake(peer, version) => Tag(0) + (EncBytes(peer) + Le(version, 4))
    case HandshakeAck(peer, version) => Tag(1) + (EncBytes(peer) + Le(version, 4))
    case GetChainHead => Tag(2)
    case ChainHeadResponse(hash, height) => Tag(3) + (hash + Le(height, 8))
    case GetBlocks(lo, hi) => Tag(4) + (Le(lo, 8) + Le(hi, 8))
    case BlocksResponse(blocks) => Tag(5) + EncVec(EncBlock, blocks)
    case NewBlockAnnouncement(hash, height) => Tag(6) + (hash + Le(height, 8))
    case Ping => Tag(7)
    case Pong => Tag(8)
  }

  function ReadPeer(rules: Rules, b: Bytes): Read<(PublicKey, u32)> {
    var (peer, b1) :- ReadKey(rules, b);
    var (version, b2) :- ReadTag(b1);
    Done((peer, version), b2)
  }

  function ReadHead(b: Bytes): Read<(Hash, u64)> {
    var (hash, b1) :- ReadHash(b);
    var (height, b2) :- ReadU64(b1);
    Done((hash, height), b2)
  }

  function ReadRange(b: Bytes): Read<(u64, u64)> {
    var (lo, b1) :- ReadU64(b);
    var (hi, b2) :- ReadU64(b1);
    Done((lo, hi), b2)
  }

  function ReadBody(rules: Rules, tag: u32, b: Bytes): Read<Message> {
    if tag == 0 then var (p, b1) :- ReadPeer(rules, b); Done(Handshake(p.0, p.1), b1)
    else if tag == 1 then var (p, b1) :- ReadPeer(rules, b); Done(HandshakeAck(p.0, p.1), b1)
    else if tag == 2 then Done(GetChainHead, b)
    else if tag == 3 then var (h, b1) :- ReadHead(b); Done(ChainHeadResponse(h.0, h.1), b1)
    else if tag == 4 then var (r, b1) :- ReadRange(b); Done(GetBlocks(r.0, r.1), b1)
    else if tag == 5 then var (blocks, b1) :- ReadVec(BlockReader(rules), b); Done(BlocksResponse(blocks), b1)
    else if tag == 6 then var (h, b1) :- ReadHead(b); Done(NewBlockAnnouncement(h.0, h.1), b1)
    else if tag == 7 then Done(Ping, b)
    else if tag == 8 then Done(Pong, b)
    else Malformed
  }

  function ReadMessage(rules: Rules, b: Bytes): Read<Message> {
    var (tag, b1) :- ReadTag(b);
    ReadBody(rules, tag, b1)
  }

  // ---------- the bytes of a message ----------

  // One block after the other.
  ghost predicate BlocksAre(s: Bytes, blocks: seq<Block>) {
    if blocks == [] then s == []
    else exists n | 0 <= n <= |s| :: BlockIs(s[..n], blocks[0]) && BlocksAre(s[n..], blocks[1..])
  }

  // Four bytes of tag, by the order of the kinds of message, and the fields.
  ghost predicate MessageIs(s: Bytes, m: Message) {
    match m
    case Handshake(peer, version) =>
      |s| == 48 && U32Is(s[..4], 0) && BytesIs(s[4..44], peer) && U32Is(s[44..], version)
    case HandshakeAck(peer, version) =>
      |s| == 48 && U32Is(s[..4], 1) && BytesIs(s[4..44], peer) && U32Is(s[44..], version)
    case GetChainHead => U32Is(s, 2)
    case ChainHeadResponse(hash, height) => |s| == 44 && U32Is(s[..4], 3) && s[4..36] == hash && U64Is(s[36..], height)
    case GetBlocks(lo, hi) => |s| == 20 && U32Is(s[..4], 4) && U64Is(s[4..12], lo) && U64Is(s[12..], hi)
    case BlocksResponse(blocks) => |s| >= 12 && U32Is(s[..4], 5) && U64Is(s[4..12], |blocks|) && BlocksAre(s[12..], blocks)
    case NewBlockAnnouncement(hash, height) =>
      |s| == 44 && U32Is(s[..4], 6) && s[4..36] == hash && U64Is(s[36..], height)
    case Ping => U32Is(s, 7)
    case Pong => U32Is(s, 8)
  }

  lemma {:induction false} BlocksExact(s: Bytes, blocks: seq<Block>)
    ensures BlocksAre(s, blocks) <==> s == EncMany(EncBlock, blocks)
  {
    hide BlockIs, EncBlock;
    if blocks != [] {
      if n :| 0 <= n <= |s| && BlockIs(s[..n], blocks[0]) && BlocksAre(s[n..], blocks[1..]) {
        BlockExact(s[..n], blocks[0]);
        BlocksExact(s[n..], blocks[1..]);
        assert s == s[..n] + s[n..];
      }
      if s == EncMany(EncBlock, blocks) {
        var n := |EncBlock(blocks[0])|;
        SplitAt(EncBlock(blocks[0]), EncMany(EncBlock, blocks[1..]));
        BlockExact(s[..n], blocks[0]);
        BlocksExact(s[n..], blocks[1..]);
      }
    }
  }

  lemma PeerIs(tag: nat, peer: PublicKey, version: u32)
    ensures var s := Tag(tag) + (EncBytes(peer) + Le(version, 4));
      |s| == 48 && U32Is(s[..4], tag) && BytesIs(s[4..44], peer) && U32Is(s[44..], version)
  {
    var s := Tag(tag) + (EncBytes(peer) + Le(version, 4));
    LeIs(tag, 4);
    LeIs(version, 4);
    EncBytesIs(peer);
    assert |EncBytes(peer)| == 40 && s[0..] == s;
    hide LittleEndian, Le, EncBytes;
    Cut(s, 0, Tag(tag), EncBytes(peer) + Le(version, 4));
    Cut(s, 4, EncBytes(peer), Le(version, 4));
  }

  lemma HeadIs(tag: nat, hash: Hash, height: u64)
    ensures var s := Tag(tag) + (hash + Le(height, 8));
      |s| == 44 && U32Is(s[..4], tag) && s[4..36] == hash && U64Is(s[36..], height)
  {
    var s := Tag(tag) + (hash + Le(height, 8));
    LeIs(tag, 4);
    LeIs(height, 8);
    assert s[0..] == s;
    hide LittleEndian, Le;
    Cut(s, 0, Tag(tag), hash + Le(height, 8));
    Cut(s, 4, hash, Le(height, 8));
  }

  lemma EncMessageIs(m: Message)
    ensures MessageIs(EncMessage(m), m)
  {
    var s := EncMessage(m);
    assert s[0..] == s;
    match m
    case Handshake(peer, version) => PeerIs(0, peer, version);
    case HandshakeAck(peer, version) => PeerIs(1, peer, version);
    case GetChainHead => LeIs(2, 4);
    case ChainHeadResponse(hash, height) => HeadIs(3, hash, height);
    case GetBlocks(lo, hi) =>
      LeIs(4, 4);
      LeIs(lo, 8);
      LeIs(hi, 8);
      hide LittleEndian, Le;
      Cut(s, 0, Tag(4), Le(lo, 8) + Le(hi, 8));
      Cut(s, 4, Le(lo, 8), Le(hi, 8));
    case BlocksResponse(blocks) =>
      LeIs(5, 4);
      LeIs(|blocks|, 8);
      BlocksExact(EncMany(EncBlock, blocks), blocks);
      hide LittleEndian, Le, EncMany, BlocksAre;
      Cut(s, 0, Tag(5), Le(|blocks|, 8) + EncMany(EncBlock, blocks));
      Cut(s, 4, Le(|blocks|, 8), EncMany(EncBlock, blocks));
    case NewBlockAnnouncement(hash, height) => HeadIs(6, hash, height);
    case Ping => LeIs(7, 4);
    case Pong => LeIs(8, 4);
  }

  lemma SameMessage(s: Bytes, r: Bytes, m: Message)
    requires MessageIs(s, m) && MessageIs(r, m)
    ensures s == r
  {
    hide LittleEndian, BytesIs, BlocksAre;
    match m
    case Handshake(peer, version) => SamePeer(s, r, 0, peer, version);
    case HandshakeAck(peer, version) => SamePeer(s, r, 1, peer, version);
    case GetChainHead => SameLe(s, r, 2, 4);
    case ChainHeadResponse(hash, height) => SameHead(s, r, 3, hash, height);
    case GetBlocks(lo, hi) =>
      SameLe(s[..4], r[..4], 4, 4);
      SameLe(s[4..12], r[4..12], lo, 8);
      SameLe(s[12..], r[12..], hi, 8);
      Extend(s, r, 4, 12);
      Whole(s, r, 12);
    case BlocksResponse(blocks) =>
      SameLe(s[..4], r[..4], 5, 4);
      SameLe(s[4..12], r[4..12], |blocks|, 8);
      BlocksExact(s[12..], blocks);
      BlocksExact(r[12..], blocks);
      Extend(s, r, 4, 12);
      Whole(s, r, 12);
    case NewBlockAnnouncement(hash, height) => SameHead(s, r, 6, hash, height);
    case Ping => SameLe(s, r, 7, 4);
    case Pong => SameLe(s, r, 8, 4);
  }

  lemma SamePeer(s: Bytes, r: Bytes, tag: nat, peer: PublicKey, version: u32)
    requires |s| == 48 && U32Is(s[..4], tag) && BytesIs(s[4..44], peer) && U32Is(s[44..], version)
    requires |r| == 48 && U32Is(r[..4], tag) && BytesIs(r[4..44], peer) && U32Is(r[44..], version)
    ensures s == r
  {
    SameLe(s[..4], r[..4], tag, 4);
    SameBytes(s[4..44], r[4..44], peer);
    SameLe(s[44..], r[44..], version, 4);
    Extend(s, r, 4, 44);
    Whole(s, r, 44);
  }

  lemma SameHead(s: Bytes, r: Bytes, tag: nat, hash: Hash, height: u64)
    requires |s| == 44 && U32Is(s[..4], tag) && s[4..36] == hash && U64Is(s[36..], height)
    requires |r| == 44 && U32Is(r[..4], tag) && r[4..36] == hash && U64Is(r[36..], height)
    ensures s == r
  {
    SameLe(s[..4], r[..4], tag, 4);
    SameLe(s[36..], r[36..], height, 8);
    Extend(s, r, 4, 36);
    Whole(s, r, 36);
  }

  lemma MessageExact(s: Bytes, m: Message)
    ensures MessageIs(s, m) <==> s == EncMessage(m)
  {
    hide MessageIs, EncMessage;
    EncMessageIs(m);
    if MessageIs(s, m) {
      SameMessage(s, EncMessage(m), m);
    }
  }

  // ---------- messages read back ----------

  predicate BlocksReadable(rules: Rules, blocks: seq<Block>) {
    forall b | b in blocks :: RoundTrip.Readable(rules, b)
  }

  // With bare keys a handshake comes out right by coincidence only: the peer must be the length
  // 32 four times over, and the version 32.
  predicate PeerReadable(rules: Rules, peer: PublicKey, version: u32) {
    rules.keys.Prefixed? || (RoundTrip.FourLengths(peer) && version == 32)
  }

  predicate MessageReadable(rules: Rules, m: Message) {
    match m
    case Handshake(peer, version) => PeerReadable(rules, peer, version)
    case HandshakeAck(peer, version) => PeerReadable(rules, peer, version)
    case BlocksResponse(blocks) => BlocksReadable(rules, blocks)
    case _ => true
  }

  predicate ReadBack(rules: Rules, m: Message) {
    match m
    case Handshake(_, _) => rules.keys.Prefixed?
    case HandshakeAck(_, _) => rules.keys.Prefixed?
    case BlocksResponse(blocks) => BlocksReadable(rules, blocks)
    case _ => true
  }

  lemma PeerRoundTrip(rules: Rules, peer: PublicKey, version: u32, rest: Bytes)
    requires rules.validKey(peer)
    ensures var r := ReadPeer(rules, (EncBytes(peer) + Le(version, 4)) + rest);
      && (r == Done((peer, version), rest) <==> rules.keys.Prefixed?)
      && (r.Done? && r.value == (peer, version) <==> PeerReadable(rules, peer, version))
  {
    assert Le(version, 4) + [] == Le(version, 4) && [] + rest == rest;
    match rules.keys
    case Prefixed =>
      RoundTrip.KeyStep(rules, peer, Le(version, 4), rest);
      RoundTrip.TagStep(version, [], rest);
    case Bare =>
      Assoc(EncBytes(peer), Le(version, 4), rest);
      RoundTrip.BareKey(rules, peer, Le(version, 4) + rest);
      RoundTrip.MisreadFixed(peer);
      BareVersion(peer, Le(version, 4) + rest);
  }

  lemma KeyLengthTags()
    ensures RoundTrip.KEY_LENGTH == Tag(32) + Tag(0)
  {
    assert Le(32, 8) == [32] + Le(0, 7) && Le(32, 4) == [32] + Le(0, 3);
    assert Le(0, 7) == [0, 0, 0, 0, 0, 0, 0];
  }

  // Behind a bare key the version is read from the key's last eight bytes.
  lemma BareVersion(peer: PublicKey, x: Bytes)
    ensures var r := ReadTag(peer[24..] + x);
      && r.Done? && |r.rest| == 4 + |x|
      && (RoundTrip.FourLengths(peer) ==> r.value == 32)
  {
    RoundTrip.MisreadFixed(peer);
    TagOf(peer[24..] + x);
    if RoundTrip.FourLengths(peer) {
      KeyLengthTags();
      Assoc(Tag(32), Tag(0), x);
      hide Tag, Le, ReadTag;
      BareTag(32, Tag(0) + x);
    }
  }

  lemma TagOf(b: Bytes)
    requires |b| >= 4
    ensures ReadTag(b).Done? && |ReadTag(b).rest| == |b| - 4
  {
  }

  lemma HeadRoundTrip(hash: Hash, height: u64, rest: Bytes)
    ensures ReadHead((hash + Le(height, 8)) + rest) == Done((hash, height), rest)
  {
    RoundTrip.HashStep(hash, Le(height, 8), rest);
    RoundTrip.U64Step(height, [], rest);
    assert Le(height, 8) + [] == Le(height, 8) && [] + rest == rest;
  }

  lemma RangeRoundTrip(lo: u64, hi: u64, rest: Bytes)
    ensures ReadRange((Le(lo, 8) + Le(hi, 8)) + rest) == Done((lo, hi), rest)
  {
    RoundTrip.U64Step(lo, Le(hi, 8), rest);
    RoundTrip.U64Step(hi, [], rest);
    assert Le(hi, 8) + [] == Le(hi, 8) && [] + rest == rest;
  }

  lemma BlocksRoundTrip(rules: Rules, blocks: seq<Block>, rest: Bytes)
    requires |blocks| < U64_LIMIT && forall b | b in blocks :: ValidBlock(rules, b)
    ensures var r := ReadVec(BlockReader(rules), EncVec(EncBlock, blocks) + rest);
      && (r == Done(blocks, rest) <==> BlocksReadable(rules, blocks))
      && (r.Done? && r.value == blocks <==> BlocksReadable(rules, blocks))
  {
    hide EncBlock, ReadBlock, ValidBlock, RoundTrip.Readable;
    assert EncVec(EncBlock, blocks) + [] == EncVec(EncBlock, blocks) && [] + rest == rest;
    if BlocksReadable(rules, blocks) {
      forall b, r: Bytes | b in blocks ensures BlockReader(rules)(EncBlock(b) + r) == Done(b, r) {
        RoundTrip.BlockRoundTrip(rules, b, r);
      }
      assert RoundTrip.ReadsBack(EncBlock, BlockReader(rules), blocks);
      RoundTrip.VecStep(EncBlock, BlockReader(rules), blocks, [], rest);
    } else {
      RoundTrip.U64Step(|blocks|, EncMany(EncBlock, blocks), rest);
      ManyLost(rules, blocks, rest);
    }
  }

  // One block that is not read back spoils the list.
  lemma {:induction false} ManyLost(rules: Rules, blocks: seq<Block>, rest: Bytes)
    requires forall b | b in blocks :: ValidBlock(rules, b)
    requires !BlocksReadable(rules, blocks)
    ensures var r := ReadMany(BlockReader(rules), |blocks|, EncMany(EncBlock, blocks) + rest); !(r.Done? && r.value == blocks)
  {
    hide EncBlock, ReadBlock, ValidBlock, RoundTrip.Readable;
    var first, others := blocks[0], blocks[1..];
    assert first in blocks && blocks == [first] + others;
    Assoc(EncBlock(first), EncMany(EncBlock, others), rest);
    RoundTrip.BlockRoundTrip(rules, first, EncMany(EncBlock, others) + rest);
    if RoundTrip.Readable(rules, first) {
      ManyLost(rules, others, rest);
    }
  }

  lemma BareTag(n: u32, rest: Bytes)
    ensures ReadTag(Tag(n) + rest) == Done(n, rest)
  {
    RoundTrip.TagStep(n, [], rest);
    assert Tag(n) + [] == Tag(n) && [] + rest == rest;
  }

  // A message is read back, with the bytes that follow, exactly when keys are read with their
  // length, or it carries none; the same holds of the message alone but for one handshake.
  lemma MessageRoundTrip(rules: Rules, m: Message, rest: Bytes)
    requires ValidMessage(rules, m)
    ensures var r := ReadMessage(rules, EncMessage(m) + rest);
      && (r == Done(m, rest) <==> ReadBack(rules, m))
      && (r.Done? && r.value == m <==> MessageReadable(rules, m))
  {
    hide EncBytes, Le, EncVec, ReadPeer, ReadHead, ReadRange, ReadVec, ReadTag, PeerReadable, BlocksReadable;
    match m
    case Handshake(peer, version) =>
      RoundTrip.TagStep(0, EncBytes(peer) + Le(version, 4), rest);
      PeerRoundTrip(rules, peer, version, rest);
    case HandshakeAck(peer, version) =>
      RoundTrip.TagStep(1, EncBytes(peer) + Le(version, 4), rest);
      PeerRoundTrip(rules, peer, version, rest);
    case GetChainHead => BareTag(2, rest);
    case ChainHeadResponse(hash, height) =>
      RoundTrip.TagStep(3, hash + Le(height, 8), rest);
      HeadRoundTrip(hash, height, rest);
    case GetBlocks(lo, hi) =>
      RoundTrip.TagStep(4, Le(lo, 8) + Le(hi, 8), rest);
      RangeRoundTrip(lo, hi, rest);
    case BlocksResponse(blocks) =>
      RoundTrip.TagStep(5, EncVec(EncBlock, blocks), rest);
      BlocksRoundTrip(rules, blocks, rest);
    case NewBlockAnnouncement(hash, height) =>
      RoundTrip.TagStep(6, hash + Le(height, 8), rest);
      HeadRoundTrip(hash, height, rest);
    case Ping => BareTag(7, rest);
    case Pong => BareTag(8, rest);
  }

  lemma BodyStreams(rules: Rules, tag: u32, b: Bytes, x: Bytes)
    requires ReadBody(rules, tag, b).Done?
    ensures ReadBody(rules, tag, b + x) == Streaming.With(ReadBody(rules, tag, b), x)
  {
    if tag == 0 || tag == 1 {
      Streaming.KeyStreams(rules, b, x);
      Streaming.TagStreams(ReadKey(rules, b).rest, x);
    } else if tag == 3 || tag == 6 {
      Streaming.HashStreams(b, x);
      Streaming.U64Streams(ReadHash(b).rest, x);
    } else if tag == 4 {
      Streaming.U64Streams(b, x);
      Streaming.U64Streams(ReadU64(b).rest, x);
    } else if tag == 5 {
      Streaming.BlocksStream(rules);
      Streaming.VecStreams(BlockReader(rules), b, x);
    }
  }

  // More bytes behind a message change nothing.
  lemma MessageStreams(rules: Rules, b: Bytes, x: Bytes)
    requires ReadMessage(rules, b).Done?
    ensures ReadMessage(rules, b + x) == Streaming.With(ReadMessage(rules, b), x)
  {
    Streaming.TagStreams(b, x);
    BodyStreams(rules, ReadTag(b).value, ReadTag(b).rest, x);
  }

  // No strict prefix of a message that is read back is a message.
  lemma StrictPrefixMalformed(rules: Rules, m: Message, n: nat)
    requires ValidMessage(rules, m) && ReadBack(rules, m) && n < |EncMessage(m)|
    ensures ReadMessage(rules, EncMessage(m)[..n]).Malformed?
  {
    hide EncMessage, ReadMessage, ReadBack, MessageReadable;
    var whole := EncMessage(m);
    var p, x := whole[..n], whole[n..];
    assert p + x == whole && whole + [] == whole;
    MessageRoundTrip(rules, m, []);
    if ReadMessage(rules, p).Done? {
      MessageStreams(rules, p, x);
    }
  }

  // No prefix of a message that does not come out right comes out right.
  lemma PrefixNotReadable(rules: Rules, m: Message, n: nat)
    requires ValidMessage(rules, m) && !MessageReadable(rules, m) && n <= |EncMessage(m)|
    ensures var r := ReadMessage(rules, EncMessage(m)[..n]); !(r.Done? && r.value == m)
  {
    hide EncMessage, ReadMessage, ReadBack, MessageReadable;
    var whole := EncMessage(m);
    var p, x := whole[..n], whole[n..];
    assert p + x == whole && whole + [] == whole;
    MessageRoundTrip(rules, m, []);
    if ReadMessage(rules, p).Done? {
      MessageStreams(rules, p, x);
    }
  }

  // With bare keys a handshake has strict prefixes that are messages: all from 40 bytes on, if
  // what is taken for the key is a point of the curve.
  lemma BareHandshakePrefix(rules: Rules, m: Message, n: nat)
    requires rules.keys.Bare? && (m.Handshake? || m.HandshakeAck?)
    requires n <= |EncMessage(m)|
    ensures ReadMessage(rules, EncMessage(m)[..n]).Done? <==> n >= 40 && rules.validKey(RoundTrip.Misread(m.peer))
  {
    var tag, body := if m.Handshake? then 0 else 1, EncBytes(m.peer) + Le(m.version, 4);
    var whole := EncMessage(m);
    assert whole == Tag(tag) + body;
    assert |EncBytes(m.peer)| == 40;
    if n >= 4 {
      assert whole[..n] == Tag(tag) + body[..n - 4];
      BareTag(tag, body[..n - 4]);
      if n >= 36 {
        PrefixKey(rules, m.peer, m.version, n - 4);
      }
    }
  }

  lemma PrefixKey(rules: Rules, peer: PublicKey, version: u32, n: nat)
    requires rules.keys.Bare? && 32 <= n <= |EncBytes(peer) + Le(version, 4)|
    ensures ReadPeer(rules, (EncBytes(peer) + Le(version, 4))[..n]).Done?
       <==> n >= 36 && rules.validKey(RoundTrip.Misread(peer))
  {
    var body := EncBytes(peer) + Le(version, 4);
    RoundTrip.BareKey(rules, peer, Le(version, 4));
    assert |body| == 44;
    assert body[..n][..32] == body[..32];
    assert |body[..n][32..]| == n - 32;
  }

  // ---------- frames ----------

  datatype MessageFrame = MessageFrame(length: u32, message: Message)

  datatype FrameError = InvalidMessage | SerializationError | Panic

  // The length is truncated to 32 bits.
  function NewFrame(m: Message): MessageFrame {
    MessageFrame(|EncMessage(m)| % U32_LIMIT, m)
  }

  function FrameBytes(f: MessageFrame): Bytes {
    Le(f.length, 4) + EncMessage(f.message)
  }

  method ToBytes(f: MessageFrame) returns (frame: Bytes)
    ensures frame == FrameBytes(f)
    ensures |frame| >= 4 && U32Is(frame[..4], f.length) && MessageIs(frame[4..], f.message)
  {
    LeIs(f.length, 4);
    MessageExact(EncMessage(f.message), f.message);
    hide LittleEndian, MessageIs, EncMessage, Le;
    var messageBytes := EncMessage(f.message);
    frame := [];
    frame := frame + Le(f.length, 4);
    frame := frame + messageBytes;
  }

  // The 32-bit sum length + 4 overflows for the four largest lengths. A build that checks
  // overflow panics on the sum; one that wraps gets an end below 4 and panics on the slice.
  function FromBytes(rules: Rules, data: Bytes): Result<MessageFrame, FrameError> {
    if |data| < 4 then Err(InvalidMessage)
    else
      Widths();
      var length: u32 := FromLe(data[..4]);
      if length + 4 >= U32_LIMIT then Err(Panic)
      else if |data| < length + 4 then Err(InvalidMessage)
      else
        match ReadMessage(rules, data[4..length + 4])
        case Done(message, _) => Ok(MessageFrame(length, message))
        case Malformed => Err(SerializationError)
  }

  lemma FrameLength(f: MessageFrame, trailing: Bytes)
    ensures var data := FrameBytes(f) + trailing;
      && |data| == 4 + |EncMessage(f.message)| + |trailing|
      && FromLe(data[..4]) == f.length
      && data[4..] == EncMessage(f.message) + trailing
  {
    Widths();
    LeRoundTrip(f.length, 4);
    Assoc(Le(f.length, 4), EncMessage(f.message), trailing);
    SplitAt(Le(f.length, 4), EncMessage(f.message) + trailing);
  }

  // A frame is read back, whatever follows it, exactly when its message is short enough for
  // the 32-bit sums not to overflow and comes out of its reader.
  lemma FrameRoundTrip(rules: Rules, m: Message, trailing: Bytes)
    requires ValidMessage(rules, m)
    ensures FromBytes(rules, FrameBytes(NewFrame(m)) + trailing) == Ok(NewFrame(m))
       <==> |EncMessage(m)| + 4 < U32_LIMIT && MessageReadable(rules, m)
  {
    ShortMessage(rules, m);
    hide EncMessage, ReadMessage, FrameBytes, MessageReadable, ReadBack;
    var whole, f := EncMessage(m), NewFrame(m);
    var data := FrameBytes(f) + trailing;
    FrameLength(f, trailing);
    if f.length + 4 < U32_LIMIT {
      assert data[4..f.length + 4] == data[4..][..f.length];
      assert (whole + trailing)[..f.length] == whole[..f.length];
      if |whole| < U32_LIMIT {
        assert whole[..f.length] == whole && whole + [] == whole;
        MessageRoundTrip(rules, m, []);
      } else if MessageReadable(rules, m) {
        StrictPrefixMalformed(rules, m, f.length);
      } else {
        PrefixNotReadable(rules, m, f.length);
      }
    }
  }

  // The messages that come out right by coincidence are short.
  lemma ShortMessage(rules: Rules, m: Message)
    ensures MessageReadable(rules, m) && |EncMessage(m)| >= U32_LIMIT ==> ReadBack(rules, m)
  {
    hide BlocksReadable, EncVec;
  }

  // Every strict prefix of a frame is rejected.
  lemma FramePrefixRejected(rules: Rules, m: Message, n: nat)
    requires |EncMessage(m)| + 4 < U32_LIMIT && n < |FrameBytes(NewFrame(m))|
    ensures FromBytes(rules, FrameBytes(NewFrame(m))[..n]) == Err(InvalidMessage)
  {
    hide EncMessage, ReadMessage, FrameBytes;
    var data := FrameBytes(NewFrame(m));
    FrameLength(NewFrame(m), []);
    assert data + [] == data;
    if n >= 4 {
      assert data[..n][..4] == data[..4];
    }
  }
}
