/** The values every other module speaks about: accounts, transactions, blocks, and the
    cryptographic functions the node takes from its libraries. */
module Types {
  import opened Numerals

  datatype Option<+T> = None | Some(value: T)

  /** Addresses and hashes are "0x..." strings; addresses are taken in canonical lower case. */
  type Address = string
  type Hash = string

  /** The root of an empty trie. */
  const EMPTY_ROOT: Hash := "0x56e81f171bcc55a6ff8345e692c0f86e5b48e01b996cadc001622fb5e363b421"

  /** An externally owned account has the root of the empty trie and the hash of no code; what a
      contract account has instead is of no concern without a virtual machine. */
  datatype Code = NoCode | Code(storageRoot: Hash, codeHash: Hash)

  /** An account value; the journal, the cache and the repository key it by its address. */
  datatype Account = Account(balance: int, nonce: nat, code: Code)

  /** What the Account constructor builds. */
  const NEW_ACCOUNT := Account(0, 0, NoCode)

  type Ledger = map<Address, Account>

  datatype Signature = Signature(v: int, r: string, s: string)

  /** The fields a sender signs. */
  datatype Payload = Payload(nonce: int, gasPrice: int, gasLimit: int, to: Option<Address>, value: int, data: string)

  datatype Tx = Tx(from: Address, payload: Payload, signature: Signature, hash: Hash) {
    function Nonce(): int {
      payload.nonce
    }
  }

  datatype Receipt = Receipt(
    transactionHash: Hash, transactionIndex: nat, blockHash: Hash, blockNumber: nat,
    from: Address, to: Option<Address>, succeeded: bool, gasUsed: int, cumulativeGasUsed: int)

  /** The header fields that are hashed to give the block its identity. */
  datatype Preimage = Preimage(
    parentHash: Hash, stateRoot: Hash, transactionsRoot: Hash, receiptsRoot: Hash,
    number: nat, timestamp: nat, proposer: Address)

  datatype Block = Block(preimage: Preimage, transactions: seq<Tx>, hash: Hash)

  /** Hashes start with "0x", whatever follows. */
  predicate Prefixed(h: string) {
    |h| >= 2 && h[0] == '0' && h[1] == 'x'
  }

  /** "0x" and 64 hexadecimal digits. */
  predicate HashText(h: string) {
    Prefixed(h) && |h| == 66 && AllDigits(h[2..], Hex)
  }

  /** The library functions the node is built on. Signing, hashing and the Merkle tries are
      known only through what Valid says of them. */
  datatype Crypto = Crypto(
    hashUtf8: string -> Hash,
    txHash: (Payload, Signature) -> Hash,
    recover: (Payload, Signature) -> Address,
    blockHash: Preimage -> Hash,
    transactionsRoot: seq<Tx> -> Hash,
    receiptsRoot: seq<Receipt> -> Hash,
    addressKey: Address -> Hash,
    encodeAccount: Account -> string,
    decodeAccount: string -> Account,
    trieRoot: map<Hash, string> -> Hash)
  {
    ghost predicate Valid() {
      && (forall t :: HashText(hashUtf8(t)))
      && (forall p, s, p', s' :: txHash(p, s) == txHash(p', s') ==> p == p' && s == s')
      && (forall i, j :: blockHash(i) == blockHash(j) ==> i == j)
      && (forall i :: Prefixed(blockHash(i)))
      && (forall a, b :: addressKey(a) == addressKey(b) ==> a == b)
      && (forall v: Account :: v.balance >= 0 ==> decodeAccount(encodeAccount(v)) == v)
      && (forall t, u :: trieRoot(t) == trieRoot(u) ==> t == u)
    }
  }
}
