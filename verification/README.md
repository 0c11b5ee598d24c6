# A verified model of the BaaLS ledger

BaaLS is a small account-based chain that an application embeds. This project models its ledger
in Dafny and proves what the ledger is for: transactions are processed in order, balances and
nonces come out right over whole runs, the head hash commits to the history, stored indexes
answer as the plain lists they stand for, and nothing a submitter was told is accepted gets lost.
`dafny verify dfyconfig.toml` checks everything.

The cryptography is a parameter, `Env`: any digest, any signature check, any test for valid keys
and for valid text. Collision resistance is never assumed; where it matters a lemma returns two
distinct inputs with one digest. `Env` also says whether the build checks integer overflow (and
panics) or wraps around; every result holds for both unless it names one.

The files, in order of dependence:

- `Bytes`, `Text`: fixed-width integers, byte order, decimal padding, hexadecimal
- `Types`, `Codec`, `Layout`, `RoundTrip`, `Canonical`, `Streaming`, `Hashing`, `Frames`,
  `Prefixes`: the data, its bincode writers and readers, their bytes by offset, hashes, signatures,
  network frames and their prefixes
- `Ledger`: validation and the account transition, as functions; sequential processing
  (`ApplyAll`) is the reference, staging in an overlay (`StageAll`) is what the code does
- `Overlay`, `Staleness`, `Transitions`, `Supply`, `Nonces`: staging against the reference, every
  refusal and effect of a transaction, and what the reference keeps
- `CodeReads`: what the code's own reads do to nonces, supply and credits, block by block
- `Chain`, `Consensus`, `Commits`, `Replay`: runs of attempted blocks from genesis, block
  generation, what a commit leaves field by field, and transactions committed twice
- `Indexes`, `Batch`, `SledStorage`: the trees, their key schemes, and the batch
- `Engine`: the storage, ledger and runtime objects, whose methods are proved against the
  functions above
- `Refinement`: whole runs on the byte trees, against the runs of `Chain`
- `Interleaving`: one producer and any number of submitters over two locks

## Where the code differs from what it is meant to do

Each difference is modelled as the code has it, and the model says exactly when it matters.

- **Reads while staging.** `apply_block` collects writes in a map but reads every account from
  storage (src/ledger.rs:171, 210). `Reads` has both forms: `StorageOnly` is the code,
  `ReadThrough` looks in the overlay first. The documentation asks for sequential processing
  (docs/BaaLS_Ledger_State_Transition.md:116). `Overlay.ReadThroughIsSequential` covers the second
  form for every block; `Staleness.StorageOnlyExact` says for which blocks the first one is right.
  Over runs `Chain.RunLedgerExact` does. Nonces, replay, supply and credits each have a condition
  of their own: `CodeReads.BlockNoncesExact` and `Chain.RunNoncesExact`, `Replay.RunNoReplayExact`,
  `CodeReads.SupplyExact` and `Chain.RunSupplyExact`, `CodeReads.CreditPanicExact`.
- **Batches.** `apply_batch` writes the default tree under encoded keys, while the getters read
  other trees under raw keys (src/storage.rs:290, 306, 355-369). `SledStorage` has it that way,
  with the consequence for opening a fresh database. `Engine.Storage` sends each operation to the
  map it is for, `Refinement` to the tree.
- **Storing the block.** `apply_block` never stores the block that the next validation looks up.
  `Chain.UnstoredHeadRejectsAll` shows the effect; runs (`Chain.Attempt`, `Engine.Runtime`) store it.
- **The second lock.** `produce_block` locks the chain state again while it holds it
  (src/runtime.rs:217, 232). `Locking` has both forms.
- **Keys.** A public key is written with its length and read without it (src/types.rs:70, 79).
  `Rules.keys` has both readers: `Bare` is the code, `Prefixed` matches the writer. With bare keys
  no transaction is ever read back, a block exactly when it has no transactions, a handshake never
  with the bytes behind it, and the getters of `SledStorage` follow suit; every round trip below
  says so as an if-and-only-if. A produced block is never empty, so the code gets back none it
  stores. In fact it cannot decode one at all, header or not, when the first transaction carries a
  time in seconds, as the program's own do (src/main.rs:198, 228): the reader, eight bytes early,
  takes the low half of the timestamp for an address tag (`RoundTrip.UnparsableBlock`). Such a
  block is committed, and then nothing ever again (`Refinement.UnparsableIsLast`,
  `Refinement.UnparsableCommitsOnce`). `Chain` and `Engine` work on values, that is, with the
  matching reader; `Refinement.RunRefines` says how far a run on bytes follows them with either.
- **Accounts at genesis.** Genesis creates none, so runs start from arbitrary accounts.
- **Keys by height** are padded decimals, not the big-endian bytes of
  docs/BaaLS_Storage_Layer.md:112; contract identifiers hash deployer and code, without the nonce
  of docs/BaaLS_Ledger_State_Transition.md:130. The model follows the code.

## Model

| member | source | states |
|---|---|---|
| Overlay.ReadThroughIsSequential | src/ledger.rs:166-297 | reading through the overlay, staging any block gives the accounts of transaction-by-transaction processing, or its first error at the same position |
| Overlay.DisjointIsSequential | src/ledger.rs:166-297 | reading storage only, the same holds on blocks in which no account is touched twice and no transfer is to its sender |
| Transitions.SequentialRefusal | src/ledger.rs:169-284 | sequential processing refuses a transaction with exactly the errors of a table over the sender's and recipient's accounts |
| Transitions.StagedRefusal | src/ledger.rs:169-284 | so does the code, on the stored accounts |
| Transitions.SequentialEffect | src/ledger.rs:169-284 | every account after a transaction that sequential processing accepts, transfers to oneself included |
| Transitions.StagedEffect | src/ledger.rs:169-284 | the same under the code's reads: a touched account is made from the stored one, and any other stays as staged |
| Transitions.SequentialSteps | src/ledger.rs:169-284 | a list is accepted with a result exactly when a chain of single steps leads there |
| Transitions.StagedSteps | src/ledger.rs:166-284 | a block is staged with an overlay exactly when a chain of single stagings leads there from nothing |
| Transitions.ValidationExact | src/ledger.rs:105-159 | validation fails with exactly these errors, each for the first check that fails |
| Staleness.StorageOnlyExact | src/ledger.rs:169-245 | for every block the code accepts, on balances whose sum fits 64 bits: it commits the sequential result if and only if the block is settled, a condition on its transactions alone |
| Staleness.SequentialBlockAccepted | src/ledger.rs:169-245 | for every block sequential processing accepts, on such balances: the code accepts it with the same result if and only if it is settled and its senders are stored |
| CodeReads.NonceExact | src/ledger.rs:171-184 | for every block the code accepts and every account: its nonce advances by the number it sent if and only if that number is one when its last touch is a send of its own, and zero otherwise |
| CodeReads.BlockNoncesExact | src/ledger.rs:171-184 | all nonces are right if and only if every sender sends once, not to itself, and is not touched afterwards, a condition on the transactions alone |
| CodeReads.KeptConsecutive | src/ledger.rs:175-184 | in such a block each transaction carries the next nonce of its sender |
| CodeReads.SettledKeepsNonces | src/ledger.rs:169-245 | settled blocks meet that condition |
| CodeReads.SharedRecipient | src/ledger.rs:209-230 | two payments to one recipient meet it and are not settled |
| CodeReads.SupplyExact | src/ledger.rs:187-264 | for every block the code accepts, with credits that are exact: the supply changes by what the transactions move, each account counted at its last touch, less what deployments burn; so it is conserved, deployments apart, if and only if they move nothing |
| CodeReads.DisjointMovesNothing | src/ledger.rs:209-230 | transactions that share no account and pay no contract move nothing |
| CodeReads.SharedRecipientLoses | src/ledger.rs:209-230 | of two payments to one recipient the first is lost |
| CodeReads.CreditPanicExact | src/ledger.rs:218 | for every block on balances whose sum fits 64 bits: the code fails on a credit if and only if, after a staged prefix, a transfer to oneself passes its checks and overflows in a build that checks |
| CodeReads.SelfTransferMints | src/ledger.rs:209-230 | a transfer to oneself that the code accepts leaves the nonce, and adds its amount to the supply if and only if the sum does not wrap around |
| CodeReads.ReplayExact | src/ledger.rs:171-230 | a transaction accepted in a block of its own is accepted a second time if and only if it is a transfer to oneself that can be paid and credited again |
| CodeReads.ReplayedExact | src/ledger.rs:171-230 | for every block the code accepts and every transaction in it: alone in the next block it is accepted a second time if and only if the first block keeps none of its sender's sends and it can be paid |
| CodeReads.PaidSenderNotKept | src/ledger.rs:209-230 | a payment to the sender of an earlier transaction of the block is such a case, although no sender sends twice |
| Supply.TransactionConserves | src/ledger.rs:187-264 | a transaction changes the sum of wallet balances only by what a deploying sender held; with a sum below 2^64 no credit panics |
| Supply.SupplyAccounting | src/ledger.rs:187-264 | the same for any list of transactions, with the dropped balances added up |
| Nonces.NoncesCount | src/ledger.rs:175-184 | every account's nonce advances by exactly the number of transactions it sent |
| Nonces.NoncesConsecutive | src/ledger.rs:175-184 | the n-th transaction of a sender carries its initial nonce plus n |
| Nonces.NoReplay | src/types.rs:278-292 | two applied transactions of one sender never share a nonce; without overflow checks, when less than 2^64 positions apart |
| Chain.ValidatesWhen | src/ledger.rs:105-159 | validation succeeds exactly on the next index, the head's hash as previous hash, a correct own hash, a stored head, a later timestamp and verified transactions |
| Chain.ChainInvariant | src/ledger.rs:58-159 | for every run of attempted blocks from genesis: heights 0 to the latest are stored, linked by hash, with increasing timestamps and recomputed hashes, and the chain state names the last block |
| Chain.AttemptKeepsInvariant | src/ledger.rs:299-306 | one attempt, committed or not, keeps that invariant |
| Commits.AttemptExact | src/ledger.rs:105-316 | an attempted block is committed exactly when it passes the checks and can be staged; it then is the head, is found under its hash and height, its transactions are indexed by position, and root and supply are as before; otherwise only contract code may change |
| Commits.RunSigned | src/ledger.rs:143-156 | every transaction committed in any run has the digest of its bytes as hash, and a signature its sender's key verifies on it |
| Commits.RunStateFields | src/ledger.rs:299-302 | after every run the chain state, in memory and stored, has a root of zero bytes and no supply |
| Commits.GenesisFields | src/ledger.rs:65-87 | genesis is empty, at height, time and nonce zero, behind a hash of zeros, and the first chain state names it with root and supply zero |
| Commits.Initialized | src/ledger.rs:58-103 | initialization adds exactly that when there is no chain state, and nothing otherwise |
| Commits.DeploymentCommitted | src/ledger.rs:247-268 | after a committed deployment whose sender the block does not touch again, the sender's account is a contract under the digest of sender and code, and that code is stored under it, or two colliding preimages are returned |
| Commits.SameContract | src/contracts.rs:79-84 | two deployments with one identifier have one deployer and one code, or collide |
| Commits.CodeLast | src/contracts.rs:86-89 | the code under an identifier is that of the last deployment under it |
| Commits.CodeUntouched | src/contracts.rs:86-89 | and what it was when there is none |
| Chain.HeadCommits | src/types.rs:303-323 | two linked chains with the same head hash are equal, or two colliding preimages are returned |
| Chain.RunsCommit | src/ledger.rs:105-131 | two runs from genesis with the same head hash committed the same blocks, or two colliding preimages are returned |
| Chain.FoundByHash | src/storage.rs:187-190 | a lookup by hash finds the chain's block with that hash, or one whose preimage collides with it |
| Chain.RunIsLedger | src/ledger.rs:161-316 | the accounts of a run are the initial ones with all committed transactions applied in order; with storage-only reads, when committed blocks are disjoint, or settled on balances that fit |
| Chain.RunLedgerExact | src/ledger.rs:161-316 | for every run of the code's reads, from balances that fit 64 bits together: the accounts are right after every attempt if and only if every committed block is settled |
| Chain.RunSupply | src/ledger.rs:187-264 | over a run whose committed blocks are processed sequentially (`FaithfulRun`), with overflow checks or initial balances that fit 64 bits together, the supply changes only by what deploying senders held |
| Chain.RunSupplyExact | src/ledger.rs:187-264 | over every run of the code's own reads whose committed credits are exact, as all are with overflow checks, the supply changes by what the committed transactions move less what deployments burn; so it is conserved, deployments apart, if and only if they move nothing together |
| Chain.CreditsFit | src/ledger.rs:218 | on any stored balances that fit 64 bits together no block fails on an overflowing credit, in any build, provided that with the code's reads its transfers to oneself fit 64 bits |
| Chain.RunCreditsFit | src/ledger.rs:218 | the same after any run whose committed blocks are processed sequentially, from initial balances that fit |
| Chain.SelfCreditPanics | src/ledger.rs:209-218 | without that proviso it fails: on the first run, a transfer of 2^63 to oneself panics under the code's reads and is accepted by sequential processing |
| Chain.RunNonces | src/ledger.rs:175-184 | over a run each stored nonce is the initial one plus the number of committed transactions; with the code's reads, when in every committed block each sender sends once, not to itself, and is not touched afterwards |
| Chain.RunNoncesExact | src/ledger.rs:175-184 | for every run of the code's reads, of blocks with fewer than 2^64 transactions: all nonces are right after every attempt if and only if every committed block is such a block |
| Replay.SharedNonceExact | src/ledger.rs:171-184 | for every run of the code's reads: two committed transactions of one sender share a nonce if and only if no block from the first one's up to the second one's keeps a send of that sender |
| Replay.RunNoReplayExact | src/types.rs:278-292 | for every run of the code's reads: no two committed transactions of a sender share a nonce if and only if each sender that sends again does so in a later block, and every earlier block it sent in ends with a send of its own, not to itself, as the last touch of its account |
| Replay.RunConsecutiveExact | src/ledger.rs:175-184 | for every run of the code's reads: each sender's committed nonces are consecutive from its initial one on exactly the same runs |
| Replay.RunConsecutive | src/ledger.rs:175-184 | they are so in both builds without a bound on those runs, and on every run that reads through |
| Replay.RunNoReplay | src/types.rs:278-292 | on the same runs no two transactions of a sender share a nonce; without overflow checks, when less than 2^64 positions apart |
| Replay.KeptIsUnrepeated | src/ledger.rs:175-184 | runs whose blocks keep all nonces are among them |
| Replay.CommittedTwice | src/ledger.rs:171-245 | a run of two produced blocks commits one signed payment twice: its sender is paid by another in the first block and so keeps its nonce |
| Chain.UnstoredHeadRejectsAll | src/ledger.rs:134-140 | after applying a block that is not stored, every next block is rejected |
| Chain.FailureLeavesCodeOnly | src/ledger.rs:161-289 | a failed block changes nothing but the code store, and there only by deployments before the failing transaction |
| Chain.RunCodeKeyed | src/contracts.rs:79-89 | after any run each code entry is keyed by the hash of some deployer and that code |
| Chain.CodeKept | src/contracts.rs:79-89 | deployments never alter an existing code entry, or two colliding preimages are returned |
| Consensus.GeneratedValidates | src/consensus.rs:89-115 | on a run's head, generation succeeds and the block validates if and only if the pool is non-empty and verified and the head's timestamp can be incremented |
| Commits.GeneratedFields | src/consensus.rs:89-115 | when generation fails and with which error; a generated block has the next index and timestamp, the head's hash, nonce zero, exactly the pool, no metadata, and the digest of its bytes |
| Hashing.BlockPreimageInjective | src/types.rs:303-323 | two blocks have equal hash preimages exactly when they agree on every field but the hash |
| Hashing.TransactionPreimageInjective | src/types.rs:335-359 | two transactions have equal preimages exactly when they agree on sender, nonce, timestamp, recipient, payload and metadata |
| Hashing.BlockPreimageExact | src/types.rs:303-323 | the hashed bytes of a block by offset, these and no others: index, timestamp, previous hash, nonce and number of transactions at 0, 8, 16, 48 and 56, then the transactions, then untagged metadata |
| Hashing.TransactionPreimageExact | src/types.rs:335-359 | those of a transaction: sender, nonce and timestamp at 0, 32 and 40, then recipient, payload and untagged metadata |
| Hashing.CalculateBlockHash | src/types.rs:303-323 | feeding the hasher field by field gives the digest of bytes so laid out |
| Hashing.CalculateTransactionHash | src/types.rs:335-359 | feeding the hasher field by field gives the digest of bytes so laid out |
| Hashing.Sign | src/types.rs:373-378 | the hash becomes the digest of the transaction's bytes, the signature the one made of that digest, and nothing else changes |
| Hashing.Verify | src/types.rs:394-403 | true exactly when the stored hash is the digest of the transaction's bytes and the sender's key verifies the signature on it |
| Hashing.VerifiedExact | src/types.rs:394-403 | the same of every transaction that counts as verified |
| Hashing.SignThenVerify | src/types.rs:361-403 | a transaction signed with a working key verifies, and its hashed fields are unchanged |
| Hashing.SignatureCovers | src/types.rs:380-403 | absent a collision, a transaction carrying a verified one's hash and signature verifies exactly when it agrees with it on the hashed fields |
| Layout.EncAddressIs | src/types.rs:216-220 | an encoded address by offset: four bytes of tag, then the length and bytes of a key, or a contract |
| Layout.EncPayloadIs | src/types.rs:249-255 | an encoded payload by offset: four bytes of tag, by the order of the variants, and the fields |
| Layout.EncMetadataIs | src/types.rs:184-185 | encoded metadata: the count, and every entry once, by ascending key |
| Layout.TransactionExact | src/types.rs:192-214 | an encoded transaction by offset, these bytes and no others |
| Layout.BlockExact | src/types.rs:170-186 | an encoded block by offset, these bytes and no others |
| Layout.AccountExact | src/types.rs:265-276 | an encoded account by offset, these bytes and no others |
| Layout.ChainStateExact | src/types.rs:257-263 | an encoded chain state by offset, these bytes and no others |
| Canonical.AddressOf | src/types.rs:216-220 | whatever is read as an address is the address's own bytes, with either reader of keys |
| Canonical.PayloadOf | src/types.rs:249-255 | whatever is read as a payload is its encoding |
| Canonical.TransactionCanonical | src/types.rs:192-214 | whatever is read as a transaction is its fields in order, byte for byte, and entries that make its metadata |
| Canonical.BlockCanonical | src/types.rs:170-186 | whatever is read as a block is its header, its transactions and entries that make its metadata |
| Canonical.TransactionValid | src/types.rs:74-82 | whatever is read as a transaction has valid keys and valid text |
| Canonical.MessageCanonical | src/sync.rs:45-78 | whatever is read as a message is the tag of its variant and its fields in order |
| Canonical.AccountCanonical | src/types.rs:265-276 | an account is read, with a rest left, from its encoding and that rest and from nothing else |
| Canonical.ChainStateCanonical | src/types.rs:257-263 | the same for a chain state |
| RoundTrip.AddressStep | src/types.rs:216-220 | an address followed by any bytes is read back with those bytes left if and only if it is a contract or keys are read with their length |
| RoundTrip.PayloadStep | src/types.rs:249-255 | a payload followed by any bytes is read back with those bytes left |
| RoundTrip.MetadataStep | src/types.rs:184-185 | the same for a sorted metadata map |
| RoundTrip.OptionalRoundTrip | src/types.rs:212-213 | the same for optional metadata |
| RoundTrip.TransactionRoundTrip | src/types.rs:192-214 | a transaction followed by any bytes is read back, with those bytes left or even as a value, if and only if keys are read with their length |
| RoundTrip.BareTransactionLost | src/types.rs:65-82 | the reader of the source gives back no transaction whatsoever |
| RoundTrip.UnparsableMalformed | src/types.rs:74-82 | it decodes no transaction whose misread key is not a valid one, or whose timestamp is above 1 modulo 2^32, whatever follows |
| RoundTrip.BlockRoundTrip | src/types.rs:170-186 | a block is read back if and only if keys are read with their length or it has no transactions; whatever is read has the block's header |
| RoundTrip.UnparsableBlock | src/types.rs:170-186 | a block that starts with such a transaction is not decoded, not even its header |
| RoundTrip.AccountRoundTrip | src/types.rs:265-276 | an account followed by any bytes is read back with those bytes left |
| RoundTrip.ChainStateRoundTrip | src/types.rs:257-263 | the same for a chain state |
| RoundTrip.KeyRoundTrip | src/types.rs:65-82 | the same for a public key if and only if it is read with its length |
| RoundTrip.BareReaderMisreads | src/types.rs:65-82 | the reader of the source never leaves the right bytes behind, and returns the key it was given exactly when that is the encoded length four times over |
| Streaming.TransactionStreams | src/types.rs:192-214 | with either reader of keys: what a transaction reader accepts it also accepts, with the same value, when more bytes follow |
| Streaming.BlockStreams | src/types.rs:170-186 | the same for blocks |
| Frames.MessageRoundTrip | src/sync.rs:45-78 | a message followed by any bytes is read back with those bytes left if and only if keys are read with their length, or it is no handshake and its blocks have no transactions; as a value also for one handshake, of peer and version 32 |
| Frames.StrictPrefixMalformed | src/sync.rs:45-78 | no strict prefix of a message that is read back is a message |
| Frames.PrefixNotReadable | src/sync.rs:45-78 | no prefix of any other message is read as that message |
| Frames.BareHandshakePrefix | src/sync.rs:45-78 | with the source's reader the prefixes of a handshake that are messages are those of at least 40 bytes, if what it takes for the key is a valid one, and none otherwise |
| Prefixes.PrefixExact | src/sync.rs:45-78 | for any bytes and either reader of keys: a prefix is a message if and only if the whole is one and the prefix holds all that its reader consumes, and it is then the same message |
| Prefixes.UnparsableResponse | src/sync.rs:45-78 | with the source's reader no prefix of a response, nor the whole, is a message when its first non-empty block starts with a transaction that reader cannot get past |
| Frames.ToBytes | src/sync.rs:96-103 | the frame is four bytes of length, least significant first, and the bytes of the message |
| Frames.MessageExact | src/sync.rs:45-78 | the bytes of each message by offset, with the tag of its variant, these and no others |
| Frames.FrameRoundTrip | src/sync.rs:86-121 | a frame followed by any bytes is read back if and only if its message encodes to less than 2^32 - 4 bytes and comes out of its reader |
| Frames.FramePrefixRejected | src/sync.rs:105-113 | every strict prefix of such a frame is rejected as an invalid message |
| Text.PaddedOrder | src/storage.rs:183 | zero-padded decimals of one width sort bytewise as their numbers do, and differ when they do |
| Text.HexOrder | src/storage.rs:244-249 | hexadecimal keeps the order of byte strings and is injective |
| Text.PaddedIs | src/storage.rs:183 | a padded number is exactly its decimal digits, in the given width |
| Text.HexExact | src/storage.rs:244-249 | hexadecimal is two lower-case digits for each byte |
| Indexes.HeightKeyExact | src/storage.rs:183 | the key of a height is "height:" and twenty decimal digits |
| Indexes.IndexKeyExact | src/storage.rs:244-249 | the key of an entry is "block_tx:", block and transaction in hexadecimal, and ten decimal digits, with colons between |
| Indexes.StateKeyExact | src/storage.rs:329 | the key of a contract's entry is "state:" and contract and key in hexadecimal, with a colon between |
| Indexes.LookupIsLastPut | src/storage.rs:176-210 | after any sequence of puts, lookup by height answers with the last block put there and lookup by hash with the last one put under it; the answer is that block if and only if it is readable, and otherwise an error or a block with its header |
| Indexes.LatestIsGreatest | src/storage.rs:192-203 | the latest block answers in the same sense with the last one put at the greatest height, unless some block hash starts with "height:" and sorts above that height's key |
| Indexes.LatestIsOutranked | src/storage.rs:192-203 | otherwise it is the last block put under the greatest such hash |
| Indexes.ScanIsExact | src/storage.rs:238-268 | a prefix scan for a block finds exactly the distinct pairs indexed under it, by transaction hash and then position |
| Indexes.TransactionIndexExact | src/storage.rs:238-281 | a block answers with one stored transaction for each such pair, in that order, and nothing else, if and only if keys are read with their length or there is nothing to answer with |
| Indexes.UnstoredTransactions | src/storage.rs:262-281 | a node that stores no transaction answers every block with nothing, whatever it has indexed |
| Indexes.ContractStorageIsMap | src/storage.rs:324-353 | after any sequence of writes and removes, contract storage answers as a map from contract and key to value |
| Indexes.ContractsIsolated | src/storage.rs:324-353 | an operation changes no read but that of its own contract and key, whatever the tree holds |
| Batch.KeyLengths | src/ledger.rs:285-306 | the keys of pool deletions, accounts and chain state have 32, 40 and 22 bytes |
| Batch.BatchOrderIndependent | src/ledger.rs:285-306 | the batch of a block leaves the same tree in whatever order its operations are applied |
| Batch.BatchExact | src/ledger.rs:285-306 | whatever the tree held, the batch of a block leaves under each touched account's length and key the bytes of the overlay's account, under the length and name of the chain state that state, nothing under a transaction's hash, and every other entry as it was |
| SledStorage.SledStorage.PutBlock | src/storage.rs:176-185 | two inserts; keeps the block tree that of the list of puts, with the block added at its end |
| SledStorage.SledStorage.GetBlock | src/storage.rs:187-190 | the last block put under the hash, exactly when it is readable; otherwise an error or a block with its header |
| SledStorage.SledStorage.GetLatestBlock | src/storage.rs:192-199 | in the same sense the last block put at the greatest height, if no stored hash outranks its key |
| SledStorage.SledStorage.GetChainHeight | src/storage.rs:201-203 | the greatest height put, under the same condition, or an error if the block there does not decode, as a readable one does; zero for an empty tree |
| SledStorage.SledStorage.GetBlockByHeight | src/storage.rs:205-210 | the last block put at the height, in the same sense |
| SledStorage.SledStorage.PutTransaction | src/storage.rs:212-216 | keeps the transaction tree that of the list of stored transactions, with this one added |
| SledStorage.SledStorage.IndexTransaction | src/storage.rs:238-252 | keeps the index tree that of the list of entries, with this one added |
| SledStorage.SledStorage.GetTransactionsByBlock | src/storage.rs:262-281 | one stored transaction for each distinct pair indexed under the block, in order, if and only if keys are read with their length or nothing is stored for them; and the first error on a corrupted tree |
| SledStorage.SledStorage.PutAccount | src/storage.rs:283-287 | the accounts the tree holds are as before but for this one |
| SledStorage.SledStorage.GetAccount | src/storage.rs:289-292 | the account the tree holds under the key, nothing when there is no entry, an error when the entry does not decode |
| SledStorage.SledStorage.DeleteAccount | src/storage.rs:294-297 | the accounts the tree holds are as before without this one |
| SledStorage.SledStorage.PutChainState | src/storage.rs:299-303 | the chain state is read back |
| SledStorage.SledStorage.ContractStorageRead | src/storage.rs:324-332 | the value of the contract's map at the key |
| SledStorage.SledStorage.ContractStorageWrite | src/storage.rs:334-343 | the contract's map gains the value, and the tree still answers as the map |
| SledStorage.SledStorage.ContractStorageRemove | src/storage.rs:345-353 | the contract's map loses the key, and the tree still answers as the map |
| SledStorage.SledStorage.ApplyBatch | src/storage.rs:355-369 | applies the operations in order to the default tree, and to no other |
| SledStorage.SledStorage.InitializeChain | src/ledger.rs:58-103 | writes genesis to the default tree only, when no chain state is found |
| SledStorage.GenesisWritten | src/ledger.rs:65-100 | what genesis leaves in the default tree decodes to the empty first block, with either reader of keys, and to the first chain state, and is nothing else |
| SledStorage.SledStorage.OpenRuntime | src/runtime.rs:91-96 | opening yields a chain state exactly when one was in its tree before genesis was written |
| SledStorage.OpenFresh | src/runtime.rs:91-96 | a fresh database cannot be opened |
| Engine.BatchCommits | src/ledger.rs:291-314 | the batch of a block, routed to the right maps, commits its overlay and the new chain state and nothing else |
| Engine.DeployContract | src/contracts.rs:71-100 | the code is stored at once under the digest of deployer and code, the payload if there is one under that contract |
| Engine.InitPayloadSpelled | src/contracts.rs:94 | that payload is stored under "init_payload" |
| Engine.LedgerEngine.InitializeChain | src/ledger.rs:58-103 | writes genesis and the initial chain state unless there is a chain state |
| Engine.LedgerEngine.ValidateBlock | src/ledger.rs:105-159 | the loop gives the first failing check, in the code's order |
| Engine.LedgerEngine.Stage | src/ledger.rs:169-284 | one transaction against storage and overlay, with its code written even if the block fails later |
| Engine.LedgerEngine.ApplyBlock | src/ledger.rs:161-316 | the loops change the storage exactly as staging the block and committing its batch does; the chain state gets the block's hash and index and keeps root and supply; on an error only code is left |
| Engine.Runtime.constructor | src/runtime.rs:78-108 | starts with an empty pool on the initialized chain |
| Engine.Runtime.SubmitTransaction | src/runtime.rs:146-187 | the pool grows by the transaction exactly when its sender has signed it and its nonce is above the stored one, with any gap and for either kind of account, or above zero for an unknown sender; each error has its condition |
| Engine.Runtime.ProduceBlock | src/runtime.rs:209-274 | success commits one generated block of the whole pool and empties it, an error leaves the pool |
| Refinement.RepresentsOne | src/storage.rs:176-303 | trees whose keys are read as written represent one store only |
| Refinement.BlockHeld | src/storage.rs:176-210 | putting a block into its tree keeps representing the store with the block put, with either reader of keys |
| Refinement.OpsHeld | src/storage.rs:355-369 | a batch, each operation sent to its tree, does on the trees what it does on the store |
| Refinement.RouteBatch | src/storage.rs:283-303 | so sent, it changes the storage object as it changes the trees |
| Refinement.IndexedBlockHeld | src/ledger.rs:308-314 | the index writes of a block do on the tree what they do on the store |
| Refinement.ValidateHeld | src/ledger.rs:105-159 | validation that decodes the previous block gives the verdict of validation on the store, or a storage error; no error when the head decodes |
| Refinement.ApplyHeld | src/ledger.rs:161-316 | applying a block to the trees gives the result and chain state of applying it to the store, and trees that represent what that leaves |
| Refinement.RunRefines | src/ledger.rs:58-316 | for every accounts tree that decodes and every list of attempted blocks, with either reader of keys: the run on the trees commits what the run on the store commits, and its trees represent that store, for all attempts up to the first committed block that does not decode, after which it stays as it is; with the matching reader that is the whole list |
| Refinement.UndecodableIsLast | src/ledger.rs:134-140 | once a run on the trees has committed a block whose bytes do not decode, no further attempt ever changes anything |
| Refinement.UnparsableIsLast | src/ledger.rs:134-140 | with the source's reader that holds of every committed block whose first transaction has a misread key that is not valid, or a timestamp above 1 modulo 2^32 |
| Refinement.UnparsableCommitsOnce | src/ledger.rs:134-140 | a run on the trees of such blocks commits at most one |
| Refinement.TreesHoldChain | src/storage.rs:192-210 | after every run on the trees the committed blocks are a linked chain, lookup by height answers with its block at each height and with nothing above, the chain state is the one in memory, and the latest block is the head unless a hash outranks its key; answers are exact in readability |
| Refinement.TreesHoldLedger | src/storage.rs:289-292 | after every run on the trees whose committed blocks are processed sequentially the accounts tree decodes to the initial accounts with all committed transactions applied in order |
| Refinement.TreeStateFields | src/ledger.rs:299-306 | after every run on the trees the chain state, in memory and as read back, has a root of zero bytes and no supply |
| Interleaving.AlwaysSafe | src/runtime.rs:154-271 | in every interleaving the accepted transactions are, in order, those of the committed blocks followed by the pool, the committed blocks are a run from genesis, and everything pending verifies and has a nonce above the stored one |
| Interleaving.ClearIsExact | src/runtime.rs:264-271 | when the producer clears the pool it holds exactly the transactions of the block just committed |
| Interleaving.BuiltValidates | src/runtime.rs:225-238 | every block the producer builds validates, and all committed timestamps equal their indices |
| Interleaving.EverySigned | src/runtime.rs:146-152 | in every interleaving every transaction in the pool and in a committed block is signed by its sender |
| Interleaving.SubmitAlone | src/runtime.rs:146-187 | left alone, the steps of a submission reach their end if and only if its sender has signed the transaction and its nonce is above the stored one, and then have added it to the pool |
| Interleaving.SubmissionsAgree | src/runtime.rs:146-187 | they do so exactly when the runtime object accepts it, and leave the same pool |
| Interleaving.ProductionsAgree | src/runtime.rs:209-274 | the steps of a production reach their end exactly when the runtime object answers with a block, and leave the same storage, chain state and pool |
| Interleaving.ProduceAlone | src/runtime.rs:209-274 | on any reachable idle node with a pool, the steps of a production, left alone, run to their end if and only if the pool can be staged, and then have committed the pool in one block and emptied it; otherwise the ledger's error leads straight back, with the pool kept and nothing committed |
| Interleaving.SecondLockNeverCommits | src/runtime.rs:217-234 | with the code's second lock no interleaving ever commits a block |
| Interleaving.DeadlockIsReachable | src/runtime.rs:155-184 | from any idle node with a non-empty pool, one submission and one production can block each other |
| Interleaving.DeadlockIsForever | src/runtime.rs:210-219 | once blocked they stay so, and nothing is accepted or committed any more |
| Interleaving.StuckIsForever | src/runtime.rs:225-241 | a pool that cannot be applied as a whole is never emptied and no block is committed again |
| Interleaving.StuckIsReachable | src/runtime.rs:154-184 | with the code's reads one accepted submission to an idle node, of a transaction from a sender without an account or with a nonce that is not the next one, makes its pool such a pool |
| Interleaving.UnknownSenderSticks | src/runtime.rs:159-172 | every verified transaction of an unknown sender with a positive nonce is accepted and of that kind |
| Interleaving.OneSubmissionHalts | src/runtime.rs:154-241 | after that submission no interleaving commits a block again |

## Left out

- Command line, sockets, peer discovery, broadcast and timeouts: input and output. `receive_message` strips the length and then hands the rest to `from_bytes`, which expects it (src/sync.rs:257-271), so no round trip through a stream is claimed.
- SHA-256 and Ed25519 themselves: parameters. A public key is its 32 bytes; which of them are points of the curve is a parameter.
- The store's internals, durability and failures: a tree is a map from byte strings to byte strings with an ordered prefix scan. Encoding errors and database errors do not occur, so the error atomicity of `apply_block` is about transactions that fail.
- WASM execution, gas and Merkle roots: stubs in the source. A contract call advances the sender's nonce and nothing else.
- Authority checks: `validate_block` of the consensus engine always accepts and `sign_block` drops the signature.
- The persistent pool tree and its getters: nothing in the source writes it, so deletions from it are kept in the batch but have no effect on the stored state.
- Poisoned locks: a panic while a lock is held makes later locks fail in the source; in `Interleaving` a panic is an error that releases the locks.
- Liveness: none is claimed, since the two functions take the locks in opposite orders; `Interleaving.DeadlockIsReachable` is the reason.
- Memory limits on the pool and on vectors: the codec lemmas and the exact nonce lemmas ask for lengths below 2^64, which the source's types guarantee.
- Chain.ChainInvariant: in a build that wraps around it covers runs of fewer than 2^64 attempts, because the block index starts over after that and genesis is overwritten; with overflow checks it covers every run.
- Refinement.RunRefines: in a build that wraps around, and when some attempted block does not decode, it covers fewer than 2^64 attempts.
- Replay.RunNoReplayExact: in a build that wraps around it covers fewer than 2^64 - 1 committed blocks, as do the other exact replay results; beyond that nonces repeat of themselves.
- Refinement.TreesHoldLedger: the same bound.
- Refinement.TreesHoldChain: the bound of `Chain.ChainInvariant`.
- Interleaving.ProduceAlone: for fewer than 2^64 - 1 committed blocks.
- Interleaving.AlwaysSafe: the same bound on the number of steps, for the same reason.
- Transactions, accounts and blocks are values: `sign` and `set_nonce` appear as updates of a value, and aliasing of such values is not modelled.
