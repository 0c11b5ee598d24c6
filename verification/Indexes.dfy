/** The key schemes of the storage trees: what an ordered byte-string map with text keys answers
    after any sequence of writes. */
module Indexes {
  import opened Bytes
  import opened Text
  import opened Types
  import opened Codec
  import Layout
  import RoundTrip

  // An ordered tree of the database.
  type Tree = map<Bytes, Bytes>

  datatype StorageError = SerializationError | HashConversionError

  // The keys that start with a prefix, in ascending order.
  function Scan(tree: Tree, prefix: Bytes): seq<Bytes> {
    Sorted(set k | k in tree && HasPrefix(prefix, k))
  }

  lemma Scanned(tree: Tree, prefix: Bytes)
    ensures Ascending(Scan(tree, prefix))
    ensures forall k :: k in Scan(tree, prefix) <==> k in tree && HasPrefix(prefix, k)
  {
    SortedEnumerates(set k | k in tree && HasPrefix(prefix, k));
  }

  // ---------- blocks by hash and by height ----------

  // "height:"
  const HEIGHT: Bytes := [104, 101, 105, 103, 104, 116, 58]

  function HeightKey(height: u64): Bytes {
    HEIGHT + PadZeros(Decimal(height), 20)
  }

  lemma HeightKeyOrder(m: u64, n: u64)
    ensures |HeightKey(m)| == 27 && HasPrefix(HEIGHT, HeightKey(m))
    ensures LexLt(HeightKey(m), HeightKey(n)) <==> m < n
    ensures HeightKey(m) == HeightKey(n) <==> m == n
  {
    PowersOfTen();
    PaddedOrder(m, n, 20);
    hide PadZeros, Decimal;
    LexConcat(HEIGHT, PadZeros(Decimal(m), 20), HEIGHT, PadZeros(Decimal(n), 20));
    LexIrreflexive(HEIGHT);
    SplitAt(HEIGHT, PadZeros(Decimal(m), 20));
    SplitAt(HEIGHT, PadZeros(Decimal(n), 20));
  }

  function PutBlock(tree: Tree, b: Block): Tree {
    tree[b.hash := EncBlock(b)][HeightKey(b.index) := EncBlock(b)]
  }

  function PutBlocks(bs: seq<Block>): Tree {
    if bs == [] then map[] else PutBlock(PutBlocks(bs[..|bs| - 1]), bs[|bs| - 1])
  }

  function DecodeBlock(rules: Rules, value: Bytes): Result<Option<Block>, StorageError> {
    match ReadBlock(rules, value)
    case Done(b, _) => Ok(Some(b))
    case Malformed => Err(SerializationError)
  }

  function LookupBlock(rules: Rules, tree: Tree, key: Bytes): Result<Option<Block>, StorageError> {
    if key in tree then DecodeBlock(rules, tree[key]) else Ok(None)
  }

  function LatestBlock(rules: Rules, tree: Tree): Result<Option<Block>, StorageError> {
    var keys := Scan(tree, HEIGHT);
    Scanned(tree, HEIGHT);
    if keys == [] then Ok(None)
    else assert keys[|keys| - 1] in keys; DecodeBlock(rules, tree[keys[|keys| - 1]])
  }

  // The simple list of puts, searched from its end.
  function LastAtHeight(bs: seq<Block>, height: u64): Option<Block> {
    if bs == [] then None
    else if bs[|bs| - 1].index == height then Some(bs[|bs| - 1])
    else LastAtHeight(bs[..|bs| - 1], height)
  }

  function LastWithHash(bs: seq<Block>, hash: Hash): Option<Block> {
    if bs == [] then None
    else if bs[|bs| - 1].hash == hash then Some(bs[|bs| - 1])
    else LastWithHash(bs[..|bs| - 1], hash)
  }

  // A stored block decodes to itself exactly when its reader can give it back. What it decodes
  // to has its header in any case.
  lemma DecodeEncoded(rules: Rules, b: Block)
    requires ValidBlock(rules, b)
    ensures DecodeBlock(rules, EncBlock(b)) == Ok(Some(b)) <==> RoundTrip.Readable(rules, b)
    ensures DecodeBlock(rules, EncBlock(b)).Ok? ==> HeaderOf(DecodeBlock(rules, EncBlock(b)).value, b)
  {
    hide EncBlock, ReadBlock, RoundTrip.Readable, ValidBlock;
    RoundTrip.BlockRoundTrip(rules, b, []);
    assert EncBlock(b) + [] == EncBlock(b);
  }

  predicate HeaderOf(found: Option<Block>, b: Block) {
    found.Some? && found.value.(transactions := b.transactions, metadata := b.metadata) == b
  }

  // A lookup that should find a block gives it back exactly when it is readable, and gives a
  // block with its header or an error otherwise; one that should find none finds none.
  ghost predicate Answers(rules: Rules, r: Result<Option<Block>, StorageError>, expected: Option<Block>) {
    match expected
    case None => r == Ok(None)
    case Some(b) => (r == Ok(Some(b)) <==> RoundTrip.Readable(rules, b)) && (r.Ok? ==> HeaderOf(r.value, b))
  }

  // Lookup by height returns the last block put at that height, and lookup by hash the last one
  // put under that hash: the two kinds of key have different lengths.
  lemma {:induction false} LookupIsLastPut(rules: Rules, bs: seq<Block>, height: u64, hash: Hash)
    requires forall b | b in bs :: ValidBlock(rules, b)
    ensures Answers(rules, LookupBlock(rules, PutBlocks(bs), HeightKey(height)), LastAtHeight(bs, height))
    ensures Answers(rules, LookupBlock(rules, PutBlocks(bs), hash), LastWithHash(bs, hash))
  {
    hide EncBlock, DecodeBlock, HeightKey, ValidBlock, RoundTrip.Readable, HeaderOf;
    if bs != [] {
      var front, b := bs[..|bs| - 1], bs[|bs| - 1];
      LookupIsLastPut(rules, front, height, hash);
      HeightKeyOrder(b.index, height);
      HeightKeyOrder(height, b.index);
      assert b in bs;
      DecodeEncoded(rules, b);
    }
  }

  lemma {:induction false} PutKeys(bs: seq<Block>, k: Bytes)
    ensures k in PutBlocks(bs) <==> exists b :: b in bs && (k == b.hash || k == HeightKey(b.index))
  {
    hide EncBlock, HeightKey;
    if bs != [] {
      var front, last := bs[..|bs| - 1], bs[|bs| - 1];
      PutKeys(front, k);
      assert bs == front + [last];
      assert last in bs;
    }
  }

  predicate IsGreatest(bs: seq<Block>, height: u64) {
    (exists b :: b in bs && b.index == height) && forall b | b in bs :: b.index <= height
  }

  // A stored block hash that the height scan takes for a height key, above the greatest one.
  predicate Outranks(hash: Hash, height: u64) {
    HasPrefix(HEIGHT, hash) && LexLt(HeightKey(height), hash)
  }

  predicate Unoutranked(bs: seq<Block>, height: u64) {
    forall b | b in bs :: !Outranks(b.hash, height)
  }

  lemma LastKey(keys: seq<Bytes>, k: Bytes)
    requires Ascending(keys) && k in keys && forall l | l in keys :: l == k || LexLt(l, k)
    ensures keys != [] && keys[|keys| - 1] == k
  {
    var i :| 0 <= i < |keys| && keys[i] == k;
    var last := keys[|keys| - 1];
    assert last in keys;
    LexTrichotomy(k, last);
  }

  lemma {:induction false} LastAtHeightFound(bs: seq<Block>, b: Block)
    requires b in bs
    ensures LastAtHeight(bs, b.index).Some? && LastAtHeight(bs, b.index).value.index == b.index
  {
    var front, last := bs[..|bs| - 1], bs[|bs| - 1];
    if last.index != b.index {
      assert bs == front + [last];
      LastAtHeightFound(front, b);
    }
  }

  // The latest block is the last one put at the greatest height, unless some block's own hash
  // starts with the bytes "height:" and sorts above that height's key.
  lemma LatestIsGreatest(rules: Rules, bs: seq<Block>, height: u64)
    requires forall b | b in bs :: ValidBlock(rules, b)
    requires IsGreatest(bs, height)
    requires Unoutranked(bs, height)
    ensures Answers(rules, LatestBlock(rules, PutBlocks(bs)), LastAtHeight(bs, height))
    ensures LastAtHeight(bs, height).Some? && LastAtHeight(bs, height).value.index == height
  {
    var at :| at in bs && at.index == height;
    LastAtHeightFound(bs, at);
    hide EncBlock, HeightKey, DecodeBlock, LexLt, ValidBlock, Answers, PutBlocks, LastAtHeight, LastWithHash, HasPrefix, Ascending;
    var tree, top := PutBlocks(bs), HeightKey(height);
    Scanned(tree, HEIGHT);
    HeightKeyOrder(height, height);
    PutKeys(bs, top);
    forall k | k in Scan(tree, HEIGHT) ensures k == top || LexLt(k, top) {
      ScannedBelow(bs, height, k);
    }
    LastKey(Scan(tree, HEIGHT), top);
    LookupIsLastPut(rules, bs, height, ZERO_HASH);
  }

  lemma ScannedBelow(bs: seq<Block>, height: u64, k: Bytes)
    requires IsGreatest(bs, height) && Unoutranked(bs, height)
    requires k in PutBlocks(bs) && HasPrefix(HEIGHT, k)
    ensures k == HeightKey(height) || LexLt(k, HeightKey(height))
  {
    PutKeys(bs, k);
    hide HeightKey, LexLt, PutBlocks, HasPrefix;
    var b :| b in bs && (k == b.hash || k == HeightKey(b.index));
    if k == b.hash {
      assert !Outranks(b.hash, height);
      LexTrichotomy(k, HeightKey(height));
    } else {
      HeightKeyOrder(b.index, height);
    }
  }

  // Otherwise it is the last block put under the greatest such hash, whatever its height.
  lemma LatestIsOutranked(rules: Rules, bs: seq<Block>, height: u64, top: Block)
    requires forall b | b in bs :: ValidBlock(rules, b)
    requires IsGreatest(bs, height)
    requires top in bs && Outranks(top.hash, height)
    requires forall b | b in bs && Outranks(b.hash, height) :: b.hash == top.hash || LexLt(b.hash, top.hash)
    ensures Answers(rules, LatestBlock(rules, PutBlocks(bs)), LastWithHash(bs, top.hash))
  {
    hide EncBlock, HeightKey, DecodeBlock, LexLt, ValidBlock, Answers;
    var tree := PutBlocks(bs);
    Scanned(tree, HEIGHT);
    PutKeys(bs, top.hash);
    forall k | k in Scan(tree, HEIGHT) ensures k == top.hash || LexLt(k, top.hash) {
      PutKeys(bs, k);
      var b :| b in bs && (k == b.hash || k == HeightKey(b.index));
      BelowTop(b, k, height, top.hash);
    }
    LastKey(Scan(tree, HEIGHT), top.hash);
    LookupIsLastPut(rules, bs, height, top.hash);
  }

  lemma BelowTop(b: Block, k: Bytes, height: u64, top: Hash)
    requires HasPrefix(HEIGHT, k) && (k == b.hash || k == HeightKey(b.index)) && b.index <= height
    requires Outranks(top, height)
    requires Outranks(b.hash, height) ==> b.hash == top || LexLt(b.hash, top)
    ensures k == top || LexLt(k, top)
  {
    hide HeightKey, LexLt;
    HeightKeyOrder(b.index, height);
    LexTrichotomy(k, HeightKey(height));
    if LexLt(k, HeightKey(height)) {
      LexTransitive(k, HeightKey(height), top);
    }
  }

  // The key of a height: "height:" and twenty decimal digits.
  predicate HeightKeyIs(k: Bytes, height: u64) {
    |k| == 27 && Spells(k[..7], "height:") && Numeral(k[7..], height, 20)
  }

  lemma HeightKeyExact(k: Bytes, height: u64)
    ensures HeightKeyIs(k, height) <==> k == HeightKey(height)
  {
    PowersOfTen();
    PaddedOrder(height, height, 20);
    if |k| == 27 {
      PaddedIs(k[7..], height, 20);
      assert k == k[..7] + k[7..];
    }
    PaddedIs(HeightKey(height)[7..], height, 20);
    hide PadZeros, Decimal, Numeral;
    SplitAt(HEIGHT, PadZeros(Decimal(height), 20));
  }

  // ---------- transactions by block ----------

  // "block_tx:"
  const BLOCK_TX: Bytes := [98, 108, 111, 99, 107, 95, 116, 120, 58]

  function BlockPrefix(block: Hash): Bytes {
    BLOCK_TX + (Hex(block) + [COLON])
  }

  // What follows the block in an index key.
  function EntryText(tx: Hash, position: u32): Bytes {
    Hex(tx) + ([COLON] + PadZeros(Decimal(position), 10))
  }

  function IndexKey(block: Hash, tx: Hash, position: u32): Bytes {
    BlockPrefix(block) + EntryText(tx, position)
  }

  function IndexAll(entries: seq<(Hash, Hash, u32)>): Tree {
    if entries == [] then map[]
    else
      var e := entries[|entries| - 1];
      IndexAll(entries[..|entries| - 1])[IndexKey(e.0, e.1, e.2) := e.1]
  }

  predicate PairLt(p: (Hash, u32), q: (Hash, u32)) {
    LexLt(p.0, q.0) || (p.0 == q.0 && p.1 < q.1)
  }

  lemma EntryTextOrder(p: (Hash, u32), q: (Hash, u32))
    ensures LexLt(EntryText(p.0, p.1), EntryText(q.0, q.1)) <==> PairLt(p, q)
    ensures EntryText(p.0, p.1) == EntryText(q.0, q.1) ==> p == q
  {
    PowersOfTen();
    PaddedOrder(p.1, q.1, 10);
    HexOrder(p.0, q.0);
    hide PadZeros, Decimal, Hex;
    var x, y := PadZeros(Decimal(p.1), 10), PadZeros(Decimal(q.1), 10);
    LexConcat([COLON], x, [COLON], y);
    LexIrreflexive([COLON]);
    LexConcat(Hex(p.0), [COLON] + x, Hex(q.0), [COLON] + y);
    LexTrichotomy(p.0, q.0);
    if EntryText(p.0, p.1) == EntryText(q.0, q.1) {
      SameSplit(Hex(p.0), [COLON] + x, Hex(q.0), [COLON] + y);
      SameSplit([COLON], x, [COLON], y);
    }
  }

  lemma IndexKeyOrder(block: Hash, p: (Hash, u32), q: (Hash, u32))
    ensures LexLt(IndexKey(block, p.0, p.1), IndexKey(block, q.0, q.1)) <==> PairLt(p, q)
  {
    hide EntryText, BlockPrefix;
    EntryTextOrder(p, q);
    LexConcat(BlockPrefix(block), EntryText(p.0, p.1), BlockPrefix(block), EntryText(q.0, q.1));
    LexIrreflexive(BlockPrefix(block));
  }

  // A key carries the prefix of its own block and of no other.
  lemma PrefixIsBlock(block: Hash, other: Hash, tx: Hash, position: u32)
    ensures HasPrefix(BlockPrefix(block), IndexKey(other, tx, position)) <==> block == other
  {
    hide EntryText, Hex;
    SplitAt(BlockPrefix(other), EntryText(tx, position));
    if BlockPrefix(block) == BlockPrefix(other) {
      SameSplit(BLOCK_TX, Hex(block) + [COLON], BLOCK_TX, Hex(other) + [COLON]);
      SameSplit(Hex(block), [COLON], Hex(other), [COLON]);
      HexOrder(block, other);
    }
  }

  lemma IndexKeyInjective(a: (Hash, Hash, u32), b: (Hash, Hash, u32))
    requires IndexKey(a.0, a.1, a.2) == IndexKey(b.0, b.1, b.2)
    ensures a == b
  {
    hide EntryText, BlockPrefix;
    PrefixIsBlock(a.0, b.0, b.1, b.2);
    SplitAt(BlockPrefix(a.0), EntryText(a.1, a.2));
    SplitAt(BlockPrefix(b.0), EntryText(b.1, b.2));
    EntryTextOrder((a.1, a.2), (b.1, b.2));
  }

  // The key of an index entry: "block_tx:", the block in hexadecimal, a colon, the transaction in
  // hexadecimal, a colon, and the position in ten decimal digits.
  predicate IndexKeyIs(k: Bytes, block: Hash, tx: Hash, position: u32) {
    && |k| == 149
    && Spells(k[..9], "block_tx:")
    && HexIs(k[9..73], block)
    && Spells(k[73..74], ":")
    && HexIs(k[74..138], tx)
    && Spells(k[138..139], ":")
    && Numeral(k[139..], position, 10)
  }

  lemma IndexKeyExact(k: Bytes, block: Hash, tx: Hash, position: u32)
    ensures IndexKeyIs(k, block, tx, position) <==> k == IndexKey(block, tx, position)
  {
    IndexKeyFits(block, tx, position);
    hide IndexKey;
    if IndexKeyIs(k, block, tx, position) {
      OneIndexKey(k, IndexKey(block, tx, position), block, tx, position);
    }
  }

  lemma IndexKeyFits(block: Hash, tx: Hash, position: u32)
    ensures IndexKeyIs(IndexKey(block, tx, position), block, tx, position)
  {
    PowersOfTen();
    PaddedOrder(position, position, 10);
    var key, number := IndexKey(block, tx, position), PadZeros(Decimal(position), 10);
    IndexKeyPieces(block, tx, number, key);
    HexExact(Hex(block), block);
    HexExact(Hex(tx), tx);
    PaddedIs(number, position, 10);
    hide IndexKey, PadZeros, Decimal, Numeral, Hex, HexIs;
  }

  lemma OneIndexKey(k: Bytes, l: Bytes, block: Hash, tx: Hash, position: u32)
    requires IndexKeyIs(k, block, tx, position) && IndexKeyIs(l, block, tx, position)
    ensures k == l
  {
    PowersOfTen();
    HexExact(k[9..73], block);
    HexExact(l[9..73], block);
    HexExact(k[74..138], tx);
    HexExact(l[74..138], tx);
    PaddedIs(k[139..], position, 10);
    PaddedIs(l[139..], position, 10);
    hide PadZeros, Decimal, Numeral, Hex, HexIs;
    SamePieces(k, l);
  }

  lemma IndexKeyPieces(block: Hash, tx: Hash, number: Bytes, key: Bytes)
    requires |number| == 10 && key == (BLOCK_TX + (Hex(block) + [COLON])) + (Hex(tx) + ([COLON] + number))
    ensures |key| == 149 && key[..9] == BLOCK_TX && key[9..73] == Hex(block) && key[73..74] == [COLON]
    ensures key[74..138] == Hex(tx) && key[138..139] == [COLON] && key[139..] == number
  {
    hide Hex;
    var r4 := Hex(tx) + ([COLON] + number);
    assert key[0..] == key;
    Assoc(BLOCK_TX, Hex(block) + [COLON], r4);
    Assoc(Hex(block), [COLON], r4);
    Layout.Cut(key, 0, BLOCK_TX, Hex(block) + ([COLON] + r4));
    Layout.Cut(key, 9, Hex(block), [COLON] + r4);
    Layout.Cut(key, 73, [COLON], r4);
    Layout.Cut(key, 74, Hex(tx), [COLON] + number);
    Layout.Cut(key, 138, [COLON], number);
  }

  lemma SamePieces(k: Bytes, l: Bytes)
    requires |k| == 149 && |l| == 149
    requires k[..9] == l[..9] && k[9..73] == l[9..73] && k[73..74] == l[73..74]
    requires k[74..138] == l[74..138] && k[138..139] == l[138..139] && k[139..] == l[139..]
    ensures k == l
  {
    Layout.Extend(k, l, 9, 73);
    Layout.Extend(k, l, 73, 74);
    Layout.Extend(k, l, 74, 138);
    Layout.Extend(k, l, 138, 139);
    Layout.Whole(k, l, 139);
  }

  lemma {:induction false} IndexedKeys(entries: seq<(Hash, Hash, u32)>, k: Bytes)
    ensures k in IndexAll(entries) <==> exists e :: e in entries && k == IndexKey(e.0, e.1, e.2)
  {
    hide IndexKey;
    if entries != [] {
      var front, last := entries[..|entries| - 1], entries[|entries| - 1];
      IndexedKeys(front, k);
      assert entries == front + [last];
      assert last in entries;
    }
  }

  lemma {:induction false} IndexedValue(entries: seq<(Hash, Hash, u32)>, e: (Hash, Hash, u32))
    requires e in entries
    ensures IndexKey(e.0, e.1, e.2) in IndexAll(entries)
    ensures IndexAll(entries)[IndexKey(e.0, e.1, e.2)] == e.1
  {
    hide IndexKey;
    var front, last := entries[..|entries| - 1], entries[|entries| - 1];
    if IndexKey(last.0, last.1, last.2) == IndexKey(e.0, e.1, e.2) {
      IndexKeyInjective(last, e);
    } else {
      assert entries == front + [last];
      IndexedValue(front, e);
    }
  }

  predicate PairsAscending(ps: seq<(Hash, u32)>) {
    forall i, j | 0 <= i < j < |ps| :: PairLt(ps[i], ps[j])
  }

  // What is indexed under a block, in order of transaction hash and then position.
  ghost predicate PairsOf(entries: seq<(Hash, Hash, u32)>, block: Hash, ps: seq<(Hash, u32)>) {
    PairsAscending(ps) && forall p: (Hash, u32) :: p in ps <==> (block, p.0, p.1) in entries
  }

  // A prefix scan for a block finds exactly the distinct pairs indexed under it, in order.
  lemma ScanIsExact(entries: seq<(Hash, Hash, u32)>, block: Hash) returns (ps: seq<(Hash, u32)>)
    ensures PairsOf(entries, block, ps)
    ensures Scan(IndexAll(entries), BlockPrefix(block))
         == seq(|ps|, i requires 0 <= i < |ps| => IndexKey(block, ps[i].0, ps[i].1))
  {
    var keys := Scan(IndexAll(entries), BlockPrefix(block));
    Scanned(IndexAll(entries), BlockPrefix(block));
    ps := PairsBehind(entries, block, keys);
    hide IndexKey, BlockPrefix;
    forall i, j | 0 <= i < j < |ps| ensures PairLt(ps[i], ps[j]) {
      IndexKeyOrder(block, ps[i], ps[j]);
    }
    forall p: (Hash, u32) | (block, p.0, p.1) in entries ensures p in ps {
      var k := IndexKey(block, p.0, p.1);
      IndexedValue(entries, (block, p.0, p.1));
      PrefixIsBlock(block, block, p.0, p.1);
      assert k in keys;
      var i :| 0 <= i < |keys| && keys[i] == k;
      IndexKeyInjective((block, p.0, p.1), (block, ps[i].0, ps[i].1));
      assert p == ps[i];
    }
  }

  lemma {:induction false} PairsBehind(entries: seq<(Hash, Hash, u32)>, block: Hash, keys: seq<Bytes>)
    returns (ps: seq<(Hash, u32)>)
    requires forall k | k in keys :: k in IndexAll(entries) && HasPrefix(BlockPrefix(block), k)
    ensures |ps| == |keys|
    ensures forall i | 0 <= i < |ps| :: (block, ps[i].0, ps[i].1) in entries && keys[i] == IndexKey(block, ps[i].0, ps[i].1)
  {
    hide IndexKey, BlockPrefix;
    if keys == [] {
      ps := [];
    } else {
      var front, k := keys[..|keys| - 1], keys[|keys| - 1];
      ps := PairsBehind(entries, block, front);
      assert k in keys;
      IndexedKeys(entries, k);
      var e :| e in entries && k == IndexKey(e.0, e.1, e.2);
      PrefixIsBlock(block, e.0, e.1, e.2);
      ps := ps + [(e.1, e.2)];
    }
  }

  function PutTransactions(ts: seq<Transaction>): Tree {
    if ts == [] then map[]
    else PutTransactions(ts[..|ts| - 1])[ts[|ts| - 1].hash := EncTransaction(ts[|ts| - 1])]
  }

  function LookupTransaction(rules: Rules, tree: Tree, hash: Hash): Result<Option<Transaction>, StorageError> {
    if hash !in tree then Ok(None)
    else
      match ReadTransaction(rules, tree[hash])
      case Done(t, _) => Ok(Some(t))
      case Malformed => Err(SerializationError)
  }

  function LastTransaction(ts: seq<Transaction>, hash: Hash): Option<Transaction> {
    if ts == [] then None
    else if ts[|ts| - 1].hash == hash then Some(ts[|ts| - 1])
    else LastTransaction(ts[..|ts| - 1], hash)
  }

  // A stored transaction is found exactly when keys are read with their length; bare, what is
  // found is an error or another transaction.
  lemma {:induction false} LookupIsLastTransaction(rules: Rules, ts: seq<Transaction>, hash: Hash)
    requires forall t | t in ts :: ValidTransaction(rules, t)
    ensures LookupTransaction(rules, PutTransactions(ts), hash) == Ok(LastTransaction(ts, hash))
       <==> rules.keys.Prefixed? || LastTransaction(ts, hash).None?
    ensures LookupTransaction(rules, PutTransactions(ts), hash).Ok?
        ==> LookupTransaction(rules, PutTransactions(ts), hash).value.Some? == LastTransaction(ts, hash).Some?
  {
    hide EncTransaction, ReadTransaction, ValidTransaction;
    if ts != [] {
      var t := ts[|ts| - 1];
      LookupIsLastTransaction(rules, ts[..|ts| - 1], hash);
      assert t in ts;
      RoundTrip.TransactionRoundTrip(rules, t, []);
      assert EncTransaction(t) + [] == EncTransaction(t);
    }
  }

  // The transactions behind index keys: entries whose transaction is not stored are skipped,
  // and an entry that is not a hash or does not decode stops the collection.
  function Collect(rules: Rules, index: Tree, transactions: Tree, keys: seq<Bytes>): Result<seq<Transaction>, StorageError>
    requires forall k | k in keys :: k in index
  {
    if keys == [] then Ok([])
    else
      var k := keys[|keys| - 1];
      assert k in keys;
      var before :- Collect(rules, index, transactions, keys[..|keys| - 1]);
      if |index[k]| != 32 then Err(HashConversionError)
      else
        var found :- LookupTransaction(rules, transactions, index[k]);
        Ok(if found.Some? then before + [found.value] else before)
  }

  function StoredOf(ts: seq<Transaction>, ps: seq<(Hash, u32)>): seq<Transaction> {
    if ps == [] then []
    else
      var found := LastTransaction(ts, ps[|ps| - 1].0);
      StoredOf(ts, ps[..|ps| - 1]) + if found.Some? then [found.value] else []
  }

  // With bare keys the collection has one entry for each stored transaction, and not that one.
  lemma {:induction false} CollectStored(rules: Rules, entries: seq<(Hash, Hash, u32)>, ts: seq<Transaction>, block: Hash,
                                         ps: seq<(Hash, u32)>, keys: seq<Bytes>)
    requires forall t | t in ts :: ValidTransaction(rules, t)
    requires |keys| == |ps|
    requires forall i | 0 <= i < |ps| ::
      (block, ps[i].0, ps[i].1) in entries && keys[i] == IndexKey(block, ps[i].0, ps[i].1)
    ensures forall k | k in keys :: k in IndexAll(entries)
    ensures var r := Collect(rules, IndexAll(entries), PutTransactions(ts), keys);
      && (r == Ok(StoredOf(ts, ps)) <==> rules.keys.Prefixed? || StoredOf(ts, ps) == [])
      && (r.Ok? ==> |r.value| == |StoredOf(ts, ps)|)
  {
    hide IndexKey, LookupTransaction, ValidTransaction, PutTransactions, LastTransaction;
    forall k | k in keys ensures k in IndexAll(entries) {
      var i :| 0 <= i < |keys| && keys[i] == k;
      IndexedValue(entries, (block, ps[i].0, ps[i].1));
    }
    if keys != [] {
      var last := |keys| - 1;
      CollectStored(rules, entries, ts, block, ps[..last], keys[..last]);
      IndexedValue(entries, (block, ps[last].0, ps[last].1));
      LookupIsLastTransaction(rules, ts, ps[last].0);
      var before, front := Collect(rules, IndexAll(entries), PutTransactions(ts), keys[..last]), StoredOf(ts, ps[..last]);
      var found, stored := LookupTransaction(rules, PutTransactions(ts), ps[last].0), LastTransaction(ts, ps[last].0);
      assert front + [] == front;
      if before.Ok? && found.Ok? && found.value.Some? {
        LastDiffers(before.value, found.value.value, front, stored.value);
      }
    }
  }

  lemma LastDiffers(a: seq<Transaction>, x: Transaction, b: seq<Transaction>, y: Transaction)
    ensures a + [x] == b + [y] <==> a == b && x == y
  {
    if a + [x] == b + [y] {
      assert (a + [x])[|a|] == x && (b + [y])[|b|] == y && |a| == |b|;
      assert a == (a + [x])[..|a|] && b == (b + [y])[..|b|];
    }
  }

  function TransactionsByBlock(rules: Rules, index: Tree, transactions: Tree, block: Hash)
    : Result<seq<Transaction>, StorageError>
  {
    Scanned(index, BlockPrefix(block));
    Collect(rules, index, transactions, Scan(index, BlockPrefix(block)))
  }

  // The per-block index is exact: after any index writes and any stored transactions, a block
  // answers with one transaction for each distinct pair indexed under it whose transaction is
  // stored, in order of transaction hash and then position, and with nothing else; provided
  // that keys are read with their length, or that there is nothing stored to answer with.
  lemma TransactionIndexExact(rules: Rules, entries: seq<(Hash, Hash, u32)>, ts: seq<Transaction>, block: Hash)
    returns (ps: seq<(Hash, u32)>)
    requires forall t | t in ts :: ValidTransaction(rules, t)
    ensures PairsOf(entries, block, ps)
    ensures TransactionsByBlock(rules, IndexAll(entries), PutTransactions(ts), block) == Ok(StoredOf(ts, ps))
       <==> rules.keys.Prefixed? || StoredOf(ts, ps) == []
  {
    hide IndexKey, BlockPrefix, Collect, PutTransactions, IndexAll, ValidTransaction;
    ps := ScanIsExact(entries, block);
    var keys := Scan(IndexAll(entries), BlockPrefix(block));
    forall i | 0 <= i < |ps| ensures (block, ps[i].0, ps[i].1) in entries {
      assert ps[i] in ps;
    }
    CollectStored(rules, entries, ts, block, ps, keys);
  }

  // A node that indexes its transactions but stores none of them answers every block with
  // nothing.
  lemma {:induction false} NothingStored(ps: seq<(Hash, u32)>)
    ensures StoredOf([], ps) == []
  {
    if ps != [] {
      NothingStored(ps[..|ps| - 1]);
    }
  }

  lemma UnstoredTransactions(rules: Rules, entries: seq<(Hash, Hash, u32)>, block: Hash)
    ensures TransactionsByBlock(rules, IndexAll(entries), map[], block) == Ok([])
  {
    hide IndexKey, BlockPrefix, Collect, IndexAll;
    var ps := TransactionIndexExact(rules, entries, [], block);
    NothingStored(ps);
  }

  // ---------- contract storage ----------

  // "state:"
  const STATE: Bytes := [115, 116, 97, 116, 101, 58]

  function StateKey(contract: ContractId, key: Bytes): Bytes {
    STATE + (Hex(contract) + ([COLON] + Hex(key)))
  }

  lemma StateKeyInjective(c: ContractId, k: Bytes, d: ContractId, l: Bytes)
    ensures StateKey(c, k) == StateKey(d, l) <==> c == d && k == l
  {
    hide Hex;
    if StateKey(c, k) == StateKey(d, l) {
      SameSplit(STATE, Hex(c) + ([COLON] + Hex(k)), STATE, Hex(d) + ([COLON] + Hex(l)));
      SameSplit(Hex(c), [COLON] + Hex(k), Hex(d), [COLON] + Hex(l));
      SameSplit([COLON], Hex(k), [COLON], Hex(l));
      HexOrder(c, d);
      HexOrder(k, l);
    }
  }

  // The key of a contract's entry: "state:", the contract in hexadecimal, a colon, and the key in
  // hexadecimal.
  predicate StateKeyIs(k: Bytes, contract: ContractId, key: Bytes) {
    && |k| == 71 + 2 * |key|
    && Spells(k[..6], "state:")
    && HexIs(k[6..70], contract)
    && Spells(k[70..71], ":")
    && HexIs(k[71..], key)
  }

  lemma StateKeyExact(k: Bytes, contract: ContractId, key: Bytes)
    ensures StateKeyIs(k, contract, key) <==> k == StateKey(contract, key)
  {
    var l := StateKey(contract, key);
    hide Hex, HexIs;
    assert l[0..] == l;
    Layout.Cut(l, 0, STATE, Hex(contract) + ([COLON] + Hex(key)));
    Layout.Cut(l, 6, Hex(contract), [COLON] + Hex(key));
    Layout.Cut(l, 70, [COLON], Hex(key));
    HexExact(l[6..70], contract);
    HexExact(l[71..], key);
    if StateKeyIs(k, contract, key) {
      HexExact(k[6..70], contract);
      HexExact(k[71..], key);
      Layout.Extend(k, l, 6, 70);
      Layout.Extend(k, l, 70, 71);
      Layout.Whole(k, l, 71);
    }
  }

  datatype StateOp = Write(contract: ContractId, key: Bytes, value: Bytes) | Remove(contract: ContractId, key: Bytes)

  function ReadState(tree: Tree, contract: ContractId, key: Bytes): Option<Bytes> {
    if StateKey(contract, key) in tree then Some(tree[StateKey(contract, key)]) else None
  }

  function ApplyState(tree: Tree, op: StateOp): Tree {
    match op
    case Write(c, k, v) => tree[StateKey(c, k) := v]
    case Remove(c, k) => tree - {StateKey(c, k)}
  }

  function ApplyStates(ops: seq<StateOp>): Tree {
    if ops == [] then map[] else ApplyState(ApplyStates(ops[..|ops| - 1]), ops[|ops| - 1])
  }

  // The same operations on a map from contract and key to value.
  function ModelApply(model: map<(ContractId, Bytes), Bytes>, op: StateOp): map<(ContractId, Bytes), Bytes> {
    match op
    case Write(c, k, v) => model[(c, k) := v]
    case Remove(c, k) => model - {(c, k)}
  }

  function Model(ops: seq<StateOp>): map<(ContractId, Bytes), Bytes> {
    if ops == [] then map[] else ModelApply(Model(ops[..|ops| - 1]), ops[|ops| - 1])
  }

  // A tree answers every read as a map does.
  ghost predicate Holds(tree: Tree, model: map<(ContractId, Bytes), Bytes>) {
    forall contract: ContractId, key: Bytes ::
      ReadState(tree, contract, key) == if (contract, key) in model then Some(model[(contract, key)]) else None
  }

  lemma HoldsAfter(tree: Tree, model: map<(ContractId, Bytes), Bytes>, op: StateOp)
    requires Holds(tree, model)
    ensures Holds(ApplyState(tree, op), ModelApply(model, op))
  {
    hide StateKey;
    var after, expected := ApplyState(tree, op), ModelApply(model, op);
    forall contract: ContractId, key: Bytes
      ensures ReadState(after, contract, key) == if (contract, key) in expected then Some(expected[(contract, key)]) else None
    {
      assert ReadState(tree, contract, key) == if (contract, key) in model then Some(model[(contract, key)]) else None;
      StateKeyInjective(op.contract, op.key, contract, key);
    }
  }

  // Contract storage is a map, after any sequence of writes and removes.
  lemma {:induction false} ContractStorageIsMap(ops: seq<StateOp>)
    ensures Holds(ApplyStates(ops), Model(ops))
  {
    hide StateKey;
    if ops != [] {
      ContractStorageIsMap(ops[..|ops| - 1]);
      HoldsAfter(ApplyStates(ops[..|ops| - 1]), Model(ops[..|ops| - 1]), ops[|ops| - 1]);
    }
  }

  // Whatever a tree holds, an operation changes no read but that of its own contract and key.
  lemma ContractsIsolated(tree: Tree, op: StateOp, contract: ContractId, key: Bytes)
    requires op.contract != contract || op.key != key
    ensures ReadState(ApplyState(tree, op), contract, key) == ReadState(tree, contract, key)
  {
    hide StateKey;
    StateKeyInjective(op.contract, op.key, contract, key);
  }
}
