/** The data of the chain, and the cryptography it is parameterised by. */
module Types {
  import opened Bytes

  type Hash = Bytes32
  type PublicKey = Bytes32
  type ContractId = Bytes32
  type Signature = Bytes64
  type Text = Bytes // the bytes of a String
  type Metadata = map<Text, Text>

  const ZERO_HASH: Hash := Le(0, 32)

  datatype Option<+T> = None | Some(value: T)

  function At<K, V>(m: map<K, V>, key: K): Option<V> {
    if key in m then Some(m[key]) else None
  }

  datatype Result<+T, +E> = Ok(value: T) | Err(error: E) {
    predicate IsFailure() {
      Err?
    }

    function PropagateFailure<U>(): Result<U, E>
      requires Err?
    {
      Err(error)
    }

    function Extract(): T
      requires Ok?
    {
      value
    }
  }

  datatype Address = Wallet(key: PublicKey) | Contract(id: ContractId)

  datatype Payload =
    | Transfer(amount: u64)
    | ContractDeploy(wasm: Bytes)
    | ContractCall(name: Text, args: Bytes)
    | Data(data: Bytes)

  datatype Transaction = Transaction(
    hash: Hash,
    sender: PublicKey,
    nonce: u64,
    timestamp: u64,
    recipient: Address,
    payload: Payload,
    signature: Signature,
    gasLimit: u64,
    priority: byte,
    metadata: Option<Metadata>)

  datatype Block = Block(
    index: u64,
    timestamp: u64,
    prevHash: Hash,
    hash: Hash,
    nonce: u64,
    transactions: seq<Transaction>,
    metadata: Option<Metadata>)

  datatype ChainState = ChainState(
    latestHash: Hash,
    latestIndex: u64,
    accountsRoot: Hash,
    totalSupply: u64)

  datatype Account =
    | WalletAccount(balance: u64, nonce: u64)
    | ContractAccount(codeHash: Hash, storageRoot: Hash, nonce: u64)

  // How a reader takes a public key, which is written with its length in front: bare, as the
  // source does, or expecting the length.
  datatype KeyForm = Bare | Prefixed

  // What a reader of stored or received bytes does beyond the layout: the form of keys, the
  // test that 32 bytes are a point of the curve, and the test that text is UTF-8.
  datatype Rules = Rules(keys: KeyForm, validKey: Bytes32 -> bool, validText: Bytes -> bool)

  // The cryptography, arbitrary but fixed, and whether the build checks integer overflow
  // (it then panics) or wraps around.
  datatype Env = Env(
    digest: Bytes -> Hash,
    verify: (PublicKey, Bytes, Signature) -> bool,
    rules: Rules,
    overflowChecks: bool)

  // Two distinct inputs with the same digest.
  ghost predicate Collision(env: Env, x: Bytes, y: Bytes) {
    x != y && env.digest(x) == env.digest(y)
  }
}
