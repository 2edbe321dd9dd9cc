/** `blockchain/blockchain.go`: a chain of blocks, or of headers only, in a database. */
module BlockChains {
  import opened Types
  import opened UtxoSpec
  import opened ChainSpec
  import opened ChainStore
  import Database
  import opened UtxoSet
  import Merkle

  const SATOSHI_ADDRESS: Address := "1G78MhhtATZoRZ69qhNNqeSJ2LY1NjQQSV"
  const GENESIS_MILLIS: int := 1230940800000

  /** `GenerateGenesisBlock`, dated 3 January 2009. */
  function GenesisBlock(c: Crypto): Block {
    Block(BlockHeader([], [], "2009-01-03 00:00:00 +0000 UTC", 4436),
          [WithHash(c, Transaction([], [], [CreateTxnOutput(c, COINBASE_REWARD, SATOSHI_ADDRESS)], GENESIS_MILLIS))])
  }

  /** The base case: the genesis block alone is a linked and valid chain. */
  lemma {:induction false} GenesisFacts(c: Crypto)
    ensures Linked(c, [Seal(c, GenesisBlock(c))])
    ensures ValidChain([Seal(c, GenesisBlock(c))])
  {
    var g := Seal(c, GenesisBlock(c));
    assert [g][..0] == [];
    assert ValidChain([]) && Forward([]) == [];
    assert ValidNext([], g);
  }

  /** The first transaction of a list with this hash. */
  function FirstTx(txs: seq<Transaction>, id: Bytes): Option<Transaction> {
    if txs == [] then None
    else
      var r := FirstTx(txs[..|txs| - 1], id);
      if r.Some? then r
      else if txs[|txs| - 1].hash == id then Some(txs[|txs| - 1])
      else None
  }

  lemma {:induction false} FirstTxAt(txs: seq<Transaction>, k: int)
    requires UniqueIds(txs) && 0 <= k < |txs|
    ensures FirstTx(txs, txs[k].hash) == Some(txs[k])
  {
    var n := |txs| - 1;
    FirstTxIn(txs[..n], txs[k].hash);
    if k < n {
      FirstTxAt(txs[..n], k);
    }
  }

  lemma {:induction false} FirstTxIn(txs: seq<Transaction>, id: Bytes)
    ensures FirstTx(txs, id).Some?
            ==> exists k :: 0 <= k < |txs| && txs[k] == FirstTx(txs, id).value && txs[k].hash == id
    ensures FirstTx(txs, id).None? ==> id !in IdsOf(txs)
  {
    if txs != [] {
      var n := |txs| - 1;
      FirstTxIn(txs[..n], id);
      if FirstTx(txs[..n], id).Some? {
        var k :| 0 <= k < n && txs[..n][k] == FirstTx(txs[..n], id).value && txs[..n][k].hash == id;
        assert txs[k] == FirstTx(txs, id).value;
      } else if txs[n].hash != id {
        forall k | 0 <= k < |txs| ensures txs[k].hash != id {
          if k < n {
            assert txs[..n][k].hash in IdsOf(txs[..n]);
          }
        }
      }
    }
  }

  /** On a chain with unique hashes the backward search finds the one transaction of that hash. */
  lemma {:induction false} FirstIsOnly(chain: seq<Block>, id: Bytes)
    requires UniqueIds(Forward(chain))
    ensures FirstTx(Backward(chain), id) == FindTx(Forward(chain), id)
  {
    SameIds(chain);
    FirstTxIn(Backward(chain), id);
    var j := FindTxFound(Forward(chain), id);
    if id in IdsOf(Forward(chain)) {
      var b, p := Locate(chain, j);
      BackwardAt(chain, b, p);
      BackwardUnique(chain);
      FirstTxAt(Backward(chain), |Backward(chain[b + 1..])| + p);
    }
  }

  ghost function TxMap(ids: set<Bytes>, scanned: seq<Transaction>): map<Bytes, Transaction> {
    map id | id in ids && FirstTx(scanned, id).Some? :: FirstTx(scanned, id).value
  }

  function InputIds(inputs: seq<TxInput>): set<Bytes> {
    set i | 0 <= i < |inputs| :: inputs[i].txID
  }

  /** The loop over one block of `GetTransactionMapFromInputs`. */
  method CollectFrom(txs: seq<Transaction>, ids: set<Bytes>, wanted0: set<Bytes>, map0: map<Bytes, Transaction>,
                     ghost scanned: seq<Transaction>)
      returns (wanted: set<Bytes>, txnMap: map<Bytes, Transaction>)
    requires map0 == TxMap(ids, scanned) && wanted0 == ids - map0.Keys
    ensures txnMap == TxMap(ids, scanned + txs) && wanted == ids - txnMap.Keys
  {
    wanted, txnMap := wanted0, map0;
    assert scanned + txs[..0] == scanned;
    for i := 0 to |txs|
      invariant txnMap == TxMap(ids, scanned + txs[..i]) && wanted == ids - txnMap.Keys
    {
      ghost var after := scanned + txs[..i + 1];
      assert after[..|after| - 1] == scanned + txs[..i] && after[|after| - 1] == txs[i];
      if txs[i].hash in wanted {
        txnMap := txnMap[txs[i].hash := txs[i]];
        wanted := wanted - {txs[i].hash};
      }
    }
    assert txs[..|txs|] == txs;
  }

  class BlockChain {
    const database: Database.LevelDB
    var lastHash: Bytes

    /** The walk from the newest block visits `chain`. */
    ghost predicate At(chain: seq<Block>)
      reads this, database
    {
      ChainTo(database.blocks, lastHash, chain)
    }

    /** `InitBlockChain`: whatever the database holds, the tip is the genesis block again and the index is rebuilt from
        it.  Other blocks stay stored. */
    constructor (c: Crypto, database: Database.LevelDB)
      modifies database`blocks, database`lastHash, database`utxo
      ensures this.database == database
      ensures var g := Seal(c, GenesisBlock(c));
              && lastHash == database.lastHash == TipHash(c, [g])
              && database.blocks == old(database.blocks)[lastHash := g]
              && At([g]) && database.utxo == Rescan(Backward([g]))
    {
      this.database := database;
      lastHash := [];
      new;
      var genesis := GenesisBlock(c);
      StoreNewBlock(c, genesis);
      ghost var g := Seal(c, genesis);
      GenesisFacts(c);
      StoredChain(c, database.blocks, [g]);
      var utxoSet := new UTXOSet(database);
      utxoSet.ReIndex([g]);
    }

    method SetBlock(c: Crypto, block: Block)
      modifies database`blocks
      ensures database.blocks == old(database.blocks)[BlockHash(c, block) := Seal(c, block)]
    {
      var hash, sealed := GetHash(c, block);
      database.blocks := database.blocks[hash := sealed];
    }

    method SetLastHash(hash: Bytes)
      modifies this`lastHash, database`lastHash
      ensures lastHash == hash && database.lastHash == hash
    {
      lastHash := hash;
      database.lastHash := hash;
    }

    method StoreNewBlock(c: Crypto, block: Block)
      modifies this`lastHash, database`blocks, database`lastHash, database`utxo
      ensures lastHash == database.lastHash == BlockHash(c, block)
      ensures database.blocks == old(database.blocks)[BlockHash(c, block) := Seal(c, block)]
      ensures database.utxo == ApplyAll(old(database.utxo), block.transactions)
    {
      SetBlock(c, block);
      SetLastHash(BlockHash(c, block));
      var utxoSet := new UTXOSet(database);
      utxoSet.UpdateWithNewBlock(block);
    }

    method GetHeight(ghost chain: seq<Block>) returns (height: nat)
      requires At(chain)
      ensures height == |chain|
    {
      height := 0;
      var currentHash := lastHash;
      ghost var k := |chain|;
      assert chain[..k] == chain;
      while true
        invariant 0 < k <= |chain| && height + k == |chain|
        invariant ChainTo(database.blocks, currentHash, chain[..k])
        decreases k
      {
        var currentBlock := Fetch(database.blocks, currentHash);
        height := height + 1;
        if currentBlock.header.prevHash == [] {
          return;
        }
        assert chain[..k][..k - 1] == chain[..k - 1];
        currentHash := currentBlock.header.prevHash;
        k := k - 1;
      }
    }

    /** The hashes after the target, newest first; all but the first block's when the target is not there. */
    method GetUnmatchedBlocks(c: Crypto, target: Bytes, ghost chain: seq<Block>)
        returns (existed: bool, unmatched: seq<Bytes>)
      requires At(chain)
      ensures existed <==> target in Hashes(c, chain)
      ensures unmatched == Reverse(AfterTarget(Hashes(c, chain), Hashes(c, chain), target))
    {
      unmatched := [];
      var currentHash := lastHash;
      ghost var hashes := Hashes(c, chain);
      ghost var k := |chain|;
      assert chain[..k] == chain;
      while true
        invariant 0 < k <= |chain| && ChainTo(database.blocks, currentHash, chain[..k])
        invariant unmatched == Reverse(hashes[k..])
        invariant forall j :: k <= j < |chain| ==> hashes[j] != target
        decreases k
      {
        var currentBlock := Fetch(database.blocks, currentHash);
        assert currentBlock == chain[k - 1];
        if BlockHash(c, currentBlock) == target {
          assert hashes[k - 1] == target && LastIndex(hashes, target) == k - 1;
          return true, unmatched;
        }
        if currentBlock.header.prevHash == [] {
          assert LastIndex(hashes, target) == -1;
          return false, unmatched;
        }
        unmatched := unmatched + [BlockHash(c, currentBlock)];
        assert chain[..k][..k - 1] == chain[..k - 1];
        currentHash := currentBlock.header.prevHash;
        k := k - 1;
      }
    }

    method GetUnmatchedHeaders(c: Crypto, target: Bytes, ghost chain: seq<Block>)
        returns (existed: bool, unmatched: seq<BlockHeader>)
      requires At(chain)
      ensures existed <==> target in Hashes(c, chain)
      ensures unmatched == Reverse(AfterTarget(Headers(chain), Hashes(c, chain), target))
    {
      unmatched := [];
      var currentHash := lastHash;
      ghost var hashes := Hashes(c, chain);
      ghost var k := |chain|;
      assert chain[..k] == chain;
      while true
        invariant 0 < k <= |chain| && ChainTo(database.blocks, currentHash, chain[..k])
        invariant unmatched == Reverse(Headers(chain)[k..])
        invariant forall j :: k <= j < |chain| ==> hashes[j] != target
        decreases k
      {
        var currentBlock := Fetch(database.blocks, currentHash);
        assert currentBlock == chain[k - 1];
        if BlockHash(c, currentBlock) == target {
          assert hashes[k - 1] == target && LastIndex(hashes, target) == k - 1;
          return true, unmatched;
        }
        if currentBlock.header.prevHash == [] {
          assert LastIndex(hashes, target) == -1;
          return false, unmatched;
        }
        ReverseStep(Headers(chain), k);
        unmatched := unmatched + [currentBlock.header];
        assert chain[..k][..k - 1] == chain[..k - 1];
        currentHash := currentBlock.header.prevHash;
        k := k - 1;
      }
    }

    method GetBlocksFromHashes(hashList: seq<Bytes>) returns (blockList: seq<Block>)
      ensures blockList == FetchAll(database.blocks, hashList)
    {
      blockList := [];
      for i := 0 to |hashList|
        invariant blockList == FetchAll(database.blocks, hashList[..i])
      {
        blockList := blockList + [Fetch(database.blocks, hashList[i])];
      }
      assert hashList[..|hashList|] == hashList;
    }

    method GetTransactionMapFromInputs(tx: Transaction,
                                       ghost chain: seq<Block>) returns (txnMap: map<Bytes, Transaction>)
      requires At(chain)
      ensures txnMap == TxMap(InputIds(tx.inputs), Backward(chain))
    {
      var ids := InputIds(tx.inputs);
      var wanted := ids;
      txnMap := map[];
      var currentHash := lastHash;
      ghost var scanned := [];
      ghost var k := |chain|;
      assert chain[..k] == chain;
      while true
        invariant 0 < k <= |chain| && ChainTo(database.blocks, currentHash, chain[..k])
        invariant scanned + Backward(chain[..k]) == Backward(chain)
        invariant txnMap == TxMap(ids, scanned) && wanted == ids - txnMap.Keys
        decreases k
      {
        var currentBlock := Fetch(database.blocks, currentHash);
        wanted, txnMap := CollectFrom(currentBlock.transactions, ids, wanted, txnMap, scanned);
        BackwardStep(scanned, chain[..k]);
        assert chain[..k][..k - 1] == chain[..k - 1];
        scanned := scanned + currentBlock.transactions;
        if currentBlock.header.prevHash == [] {
          assert scanned + Backward(chain[..0]) == scanned;
          break;
        }
        currentHash := currentBlock.header.prevHash;
        k := k - 1;
      }
    }
  }

  function FetchAll(blocks: map<Bytes, Block>, hashList: seq<Bytes>): (list: seq<Block>)
    ensures |list| == |hashList|
  {
    seq(|hashList|, i requires 0 <= i < |hashList| => Fetch(blocks, hashList[i]))
  }

  /** `Block.GetHash`: runs the Merkle code once, then uses the root it has.  The block as left behind is the
      second result. */
  method GetHash(c: Crypto, block: Block) returns (hash: Bytes, sealed: Block)
    ensures hash == BlockHash(c, block) && sealed == Seal(c, block)
    ensures hash == c.headerHash(sealed.header)
    ensures block.header.merkleRoot != [] || block.transactions == [] ==> sealed == block
    ensures block.header.merkleRoot == [] && block.transactions != [] ==>
              sealed == block.(header := block.header.(merkleRoot := Merkle.Root(c, block.transactions)))
  {
    sealed := block;
    if |block.header.merkleRoot| == 0 {
      sealed := Merkle.SetMerkleRoot(c, block);
    }
    hash := c.headerHash(sealed.header);
  }

  // ---------- headers only ----------

  /** The keys under which a header walk finds its headers. */
  function KeysTo(tip: Bytes, chain: seq<BlockHeader>): (keys: seq<Bytes>)
    ensures |keys| == |chain|
  {
    seq(|chain|, i requires 0 <= i < |chain| => if i == |chain| - 1 then tip else chain[i + 1].prevHash)
  }

  class BlockChainHeader {
    const database: Database.LevelDB
    var lastHash: Bytes

    ghost predicate At(chain: seq<BlockHeader>)
      reads this, database
    {
      HeadersTo(database.headers, lastHash, chain)
    }

    /** `InitBlockChainHeader`: the tip is the genesis header, and no entry is made in the index of unspent outputs.
        Whatever else the database holds stays. */
    constructor (c: Crypto, database: Database.LevelDB)
      modifies database`headers, database`lastHash
      ensures this.database == database
      ensures var g := Seal(c, GenesisBlock(c));
              && lastHash == database.lastHash == TipHash(c, [g])
              && database.headers == old(database.headers)[lastHash := g.header]
              && At([g.header])
    {
      this.database := database;
      lastHash := [];
      new;
      var hash, genesis := GetHash(c, GenesisBlock(c));
      lastHash := hash;
      database.headers := database.headers[lastHash := genesis.header];
      database.lastHash := lastHash;
    }

    method SetHeader(c: Crypto, header: BlockHeader)
      modifies database`headers
      ensures database.headers == old(database.headers)[c.headerHash(header) := header]
    {
      database.headers := database.headers[c.headerHash(header) := header];
    }

    method SetLastHash(hash: Bytes)
      modifies this`lastHash, database`lastHash
      ensures lastHash == hash && database.lastHash == hash
    {
      lastHash := hash;
      database.lastHash := hash;
    }

    method GetHeight(ghost chain: seq<BlockHeader>) returns (height: nat)
      requires At(chain)
      ensures height == |chain|
    {
      height := 0;
      var currentHash := lastHash;
      ghost var k := |chain|;
      assert chain[..k] == chain;
      while true
        invariant 0 < k <= |chain| && height + k == |chain|
        invariant HeadersTo(database.headers, currentHash, chain[..k])
        decreases k
      {
        var header := FetchHeader(database.headers, currentHash);
        height := height + 1;
        if header.prevHash == [] {
          return;
        }
        assert chain[..k][..k - 1] == chain[..k - 1];
        currentHash := header.prevHash;
        k := k - 1;
      }
    }

    /** As for blocks, except that the walk compares the keys it follows and not recomputed hashes. */
    method GetUnmatchedHeaders(target: Bytes, ghost chain: seq<BlockHeader>)
        returns (existed: bool, unmatched: seq<BlockHeader>)
      requires At(chain)
      ensures existed <==> target in KeysTo(lastHash, chain)
      ensures unmatched == Reverse(AfterTarget(chain, KeysTo(lastHash, chain), target))
    {
      unmatched := [];
      var currentHash := lastHash;
      ghost var keys := KeysTo(lastHash, chain);
      ghost var k := |chain|;
      assert chain[..k] == chain;
      while true
        invariant 0 < k <= |chain| && HeadersTo(database.headers, currentHash, chain[..k])
        invariant currentHash == keys[k - 1]
        invariant unmatched == Reverse(chain[k..])
        invariant forall j :: k <= j < |chain| ==> keys[j] != target
        decreases k
      {
        var header := FetchHeader(database.headers, currentHash);
        assert header == chain[k - 1];
        if currentHash == target {
          assert LastIndex(keys, target) == k - 1;
          return true, unmatched;
        }
        if header.prevHash == [] {
          assert LastIndex(keys, target) == -1;
          return false, unmatched;
        }
        ReverseStep(chain, k);
        unmatched := unmatched + [header];
        assert chain[..k][..k - 1] == chain[..k - 1];
        currentHash := header.prevHash;
        k := k - 1;
      }
    }

    method CheckHeaderExistence(c: Crypto, header: BlockHeader) returns (ok: bool)
      ensures ok <==> c.headerHash(header) in database.headers
                      && database.headers[c.headerHash(header)].timestamp != ""
    {
      var hash := c.headerHash(header);
      ok := hash in database.headers && database.headers[hash].timestamp != "";
    }
  }

  /** The headers of stored blocks, walked as headers, give the same chain, height and keys as the blocks. */
  lemma {:induction false} HeaderWalkAgrees(c: Crypto, blocks: map<Bytes, Block>, headers: map<Bytes, BlockHeader>,
                                            chain: seq<Block>)
    requires Linked(c, chain) && Stored(c, blocks, chain)
    requires forall h :: h in blocks ==> h in headers && headers[h] == blocks[h].header
    ensures HeadersTo(headers, TipHash(c, chain), Headers(chain))
    ensures KeysTo(TipHash(c, chain), Headers(chain)) == Hashes(c, chain)
  {
    var n := |chain| - 1;
    assert blocks[BlockHash(c, chain[n])] == chain[n];
    if n > 0 {
      HeaderWalkAgrees(c, blocks, headers, chain[..n]);
      assert Headers(chain)[..n] == Headers(chain[..n]);
    }
  }
}
