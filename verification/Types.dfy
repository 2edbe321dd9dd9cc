/** The values that EChain's nodes store and exchange.

    Go byte slices are sequences of bytes.  Cryptography is a parameter: `Crypto` bundles the functions the
    program calls, and every theorem holds for any choice of them. */
module Types {
  newtype Byte = b: int | 0 <= b < 256
  type Bytes = seq<Byte>
  type Address = string

  datatype Option<+T> = None | Some(value: T)

  const COINBASE_REWARD: int := 1000

  datatype LockingScript = LockingScript(pubKeyHash: Bytes)
  datatype UnlockingScript = UnlockingScript(signature: Bytes, pubKey: Bytes)

  datatype TxOutput = TxOutput(value: int, scriptPubKey: LockingScript)
  datatype TxInput = TxInput(txID: Bytes, vOut: int, scriptSig: UnlockingScript)
  datatype Transaction = Transaction(hash: Bytes, inputs: seq<TxInput>, outputs: seq<TxOutput>, locktime: int)

  /** `TxOutputWithIndex`: an output together with its position in its transaction. */
  datatype IndexedOutput = IndexedOutput(output: TxOutput, index: int)

  datatype BlockHeader = BlockHeader(prevHash: Bytes, merkleRoot: Bytes, timestamp: string, nonce: int)
  datatype Block = Block(header: BlockHeader, transactions: seq<Transaction>)

  /** What the program gets by decoding a missing database entry. */
  const ZERO_HEADER: BlockHeader := BlockHeader([], [], "", 0)
  const ZERO_BLOCK: Block := Block(ZERO_HEADER, [])

  /** The two kinds of value fed to the double SHA-256 of the Merkle code: a serialised transaction, or two
      digests written one after the other. */
  datatype Preimage = Leaf(txn: Transaction) | Node(left: Bytes, right: Bytes)

  datatype Crypto = Crypto(
    digest: Preimage -> Bytes,                         // double SHA-256 in the Merkle code
    headerHash: BlockHeader -> Bytes,                  // BlockHeader.GetHash
    belowTarget: Bytes -> bool,                        // hash, read as a number, is below TARGET_HASH
    keyHash: Bytes -> Bytes,                           // getPubkeyHashFromPubkey
    addressHash: Address -> Bytes,                     // getPubkeyHashFromAddress
    verify: (Bytes, TxInput, Bytes, Bytes) -> bool,    // ecdsa.Verify on public key, unsigned input, r and s
    txHash: Transaction -> Bytes                       // SHA-256 of the transaction with an empty hash
  )

  predicate IsCoinbase(tx: Transaction) {
    |tx.inputs| == 0
  }

  /** `IsSignedBy` and `IsBoundTo`. */
  predicate IsSignedBy(c: Crypto, input: TxInput, address: Address) {
    c.keyHash(input.scriptSig.pubKey) == c.addressHash(address)
  }

  predicate IsBoundTo(c: Crypto, output: TxOutput, address: Address) {
    output.scriptPubKey.pubKeyHash == c.addressHash(address)
  }

  /** `SetHash`: the hash is computed with the hash field emptied. */
  function WithHash(c: Crypto, tx: Transaction): Transaction {
    tx.(hash := c.txHash(tx.(hash := [])))
  }

  /** The hash can be computed again from the transaction that carries it, and setting it twice is setting it once. */
  lemma {:induction false} HashRecomputed(c: Crypto, tx: Transaction)
    ensures var hashed := WithHash(c, tx);
            hashed.hash == c.txHash(hashed.(hash := [])) && WithHash(c, hashed) == hashed
  {
  }

  function CreateTxnOutput(c: Crypto, amount: int, address: Address): TxOutput {
    TxOutput(amount, LockingScript(c.addressHash(address)))
  }

  /** `CoinBaseTransaction`, with the clock as a parameter. */
  function CoinBaseTransaction(c: Crypto, toAddress: Address, now: int): Transaction {
    WithHash(c, Transaction([], [], [CreateTxnOutput(c, COINBASE_REWARD, toAddress)], now))
  }
}
