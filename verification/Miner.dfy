/** `network/miner.go`: assembling and mining blocks, and what follows from a mempool that is never emptied. */
module Miner {
  import opened Types
  import opened UtxoSpec
  import opened ChainSpec
  import opened ChainStore
  import opened UtxoSet
  import opened BlockChains
  import Admission
  import opened Conservation
  import Merkle
  import opened FullNodes

  function WithNonce(block: Block, nonce: int): Block {
    block.(header := block.header.(nonce := nonce))
  }

  function Assemble(coinbase: Transaction, mempool: seq<Transaction>, prevHash: Bytes, timestamp: string): Block {
    Block(BlockHeader(prevHash, [], timestamp, 0), [coinbase] + mempool)
  }

  ghost predicate NonceMeets(c: Crypto, block: Block, nonce: int) {
    c.belowTarget(BlockHash(c, WithNonce(block, nonce)))
  }

  /** The block as the search leaves it: sealed, with the least nonce from 1 that meets the target. */
  ghost predicate MinedFrom(c: Crypto, block: Block, mined: Block, nonce: int) {
    && mined == Seal(c, WithNonce(block, nonce)) && c.belowTarget(BlockHash(c, mined))
    && forall k :: 1 <= k < nonce ==> !NonceMeets(c, block, k)
  }

  /** `mineBlock`, looked at for so many passes of its loop; without a nonce that meets the target it has no end.  The
      first pass fills in the Merkle root, later passes keep it. */
  method MineBlock(c: Crypto, block: Block, passes: nat) returns (mined: Option<Block>)
    ensures mined == None <==> forall k :: 1 <= k <= passes ==> !NonceMeets(c, block, k)
    ensures mined.Some? ==> exists n :: 1 <= n <= passes && MinedFrom(c, block, mined.value, n)
  {
    var newBlock := block;
    for i := 0 to passes
      invariant Seal(c, WithNonce(newBlock, i + 1)) == Seal(c, WithNonce(block, i + 1))
      invariant forall k :: 1 <= k <= i ==> !NonceMeets(c, block, k)
    {
      var nonce := i + 1;
      newBlock := WithNonce(newBlock, nonce);
      var hash, sealed := GetHash(c, newBlock);
      newBlock := sealed;
      if c.belowTarget(hash) {
        assert NonceMeets(c, block, nonce) && MinedFrom(c, block, newBlock, nonce);
        return Some(newBlock);
      }
    }
    return None;
  }

  /** The store of blocks and the tip. */
  datatype Chainhead = Chainhead(blocks: map<Bytes, Block>, tip: Bytes)

  /** A sealed block on the tip is stored and becomes the tip. */
  ghost predicate PutOnTip(c: Crypto, before: Chainhead, after: Chainhead, block: Block) {
    && block.header.prevHash == before.tip && Seal(c, block) == block
    && after == Chainhead(before.blocks[BlockHash(c, block) := block], BlockHash(c, block))
  }

  /** The chain, sealed and linked, is stored and ends at the tip. */
  ghost predicate Heads(c: Crypto, head: Chainhead, chain: seq<Block>) {
    Linked(c, chain) && Stored(c, head.blocks, chain) && head.tip == TipHash(c, chain)
  }

  /** The hash can follow those of the chain. */
  ghost predicate NewHash(c: Crypto, chain: seq<Block>, block: Block) {
    BlockHash(c, block) != [] && forall i :: 0 <= i < |chain| ==> BlockHash(c, chain[i]) != BlockHash(c, block)
  }

  /** The coinbase pays the reward to the recipient and nothing to anybody else. */
  ghost predicate PaysReward(c: Crypto, tx: Transaction, recipient: Address) {
    && IsCoinbase(tx) && Admission.OutputSum(tx.outputs) == COINBASE_REWARD
    && forall i :: 0 <= i < |tx.outputs| ==> IsBoundTo(c, tx.outputs[i], recipient)
  }

  lemma {:induction false} CoinbasePays(c: Crypto, recipient: Address, now: int)
    ensures PaysReward(c, CoinBaseTransaction(c, recipient, now), recipient)
  {
    var outputs := CoinBaseTransaction(c, recipient, now).outputs;
    assert outputs[..0] == [];
    assert Admission.OutputSum(outputs) == Admission.OutputSum([]) + outputs[0].value;
  }

  /** `startMining`: a coinbase for the recipient and everything in the mempool go into a block on the tip, with the
      root of its transactions; the mempool stays as it is. */
  method StartMining(c: Crypto, node: FullNode, recipient: Address, now: int, timestamp: string, passes: nat)
      returns (mined: Option<Block>, relayTo: seq<Address>)
    modifies node.blockchain`lastHash, node.blockchain.database`blocks, node.blockchain.database`utxo,
             node.blockchain.database`lastHash
    ensures node.mempool == old(node.mempool)
    ensures mined == None ==>
              && (forall k :: 1 <= k <= passes ==>
                    !NonceMeets(c, Assemble(CoinBaseTransaction(c, recipient, now), old(node.mempool),
                                            old(node.blockchain.lastHash), timestamp), k))
              && relayTo == []
              && node.blockchain.lastHash == old(node.blockchain.lastHash)
              && node.blockchain.database.lastHash == old(node.blockchain.database.lastHash)
              && node.blockchain.database.blocks == old(node.blockchain.database.blocks)
              && node.blockchain.database.utxo == old(node.blockchain.database.utxo)
    ensures mined.Some? ==>
              var db, block := node.blockchain.database, mined.value;
              && |block.transactions| == 1 + |old(node.mempool)| && block.transactions[1..] == old(node.mempool)
              && block.transactions[0].locktime == now && PaysReward(c, block.transactions[0], recipient)
              && block.header.timestamp == timestamp && 1 <= block.header.nonce <= passes
              && block.header.merkleRoot == Merkle.Root(c, block.transactions)
              && c.belowTarget(c.headerHash(block.header))
              && PutOnTip(c, Chainhead(old(node.blockchain.database.blocks), old(node.blockchain.lastHash)),
                          Chainhead(db.blocks, node.blockchain.lastHash), block)
              && db.lastHash == node.blockchain.lastHash
              && db.utxo == ApplyAll(old(node.blockchain.database.utxo), block.transactions)
              && relayTo == Select(node.connectedPeers, {FULLNODE, MINER})
    ensures mined.Some? ==>
              forall chain ::
                && Heads(c, Chainhead(old(node.blockchain.database.blocks), old(node.blockchain.lastHash)), chain)
                && TipHash(c, chain) != [] && NewHash(c, chain, mined.value) ==>
                  && Heads(c, Chainhead(node.blockchain.database.blocks, node.blockchain.lastHash),
                           chain + [mined.value])
                  && node.blockchain.At(chain + [mined.value])
  {
    ghost var before := Chainhead(node.blockchain.database.blocks, node.blockchain.lastHash);
    var coinbase := CoinBaseTransaction(c, recipient, now);
    var newBlock := Assemble(coinbase, node.mempool, node.blockchain.lastHash, timestamp);
    mined := MineBlock(c, newBlock, passes);
    if mined == None {
      return None, [];
    }
    CoinbasePays(c, recipient, now);
    SealedTwice(c, mined.value);
    node.StoreNewBlock(c, mined.value);
    relayTo := SelectPeers(node.connectedPeers, {FULLNODE, MINER});
    ghost var after := Chainhead(node.blockchain.database.blocks, node.blockchain.lastHash);
    forall chain | Heads(c, before, chain) && TipHash(c, chain) != [] && NewHash(c, chain, mined.value)
      ensures Heads(c, after, chain + [mined.value]) && node.blockchain.At(chain + [mined.value])
    {
      MinedExtendsTip(c, before.blocks, chain, mined.value);
    }
  }

  lemma {:induction false} SealedTwice(c: Crypto, block: Block)
    requires exists b: Block :: b.transactions != [] && b.header.merkleRoot == [] && block == Seal(c, b)
    ensures Seal(c, block) == block && block.header.merkleRoot == Merkle.Root(c, block.transactions)
  {
  }

  /** What mining adds to a chain of sealed, linked blocks. */
  lemma {:induction false} MinedExtendsTip(c: Crypto, blocks: map<Bytes, Block>, chain: seq<Block>, mined: Block)
    requires Linked(c, chain) && Stored(c, blocks, chain) && Seal(c, mined) == mined
    requires mined.header.prevHash == TipHash(c, chain) != []
    requires forall i :: 0 <= i < |chain| ==> BlockHash(c, chain[i]) != BlockHash(c, mined)
    ensures Linked(c, chain + [mined]) && Stored(c, blocks[BlockHash(c, mined) := mined], chain + [mined])
    ensures ChainTo(blocks[BlockHash(c, mined) := mined], BlockHash(c, mined), chain + [mined])
  {
    var longer, after := chain + [mined], blocks[BlockHash(c, mined) := mined];
    forall i | 0 < i < |longer|
      ensures longer[i].header.prevHash == BlockHash(c, longer[i - 1]) && longer[i].header.prevHash != []
    {
      if i < |chain| { assert longer[i] == chain[i] && longer[i - 1] == chain[i - 1]; }
    }
    assert Linked(c, longer);
    forall i | 0 <= i < |longer|
      ensures BlockHash(c, longer[i]) in after && after[BlockHash(c, longer[i])] == longer[i]
    {
      if i < |chain| { assert longer[i] == chain[i]; }
    }
    StoredChain(c, after, longer);
  }

  /** Any run of mined blocks: block `j` takes the node from the `j`-th state to the next. */
  ghost predicate MiningRun(c: Crypto, heads: seq<Chainhead>, mined: seq<Block>) {
    |heads| == |mined| + 1 && forall j :: 0 <= j < |mined| ==> PutOnTip(c, heads[j], heads[j + 1], mined[j])
  }

  /** Each block's hash can follow those of all blocks before it. */
  ghost predicate NewHashes(c: Crypto, chain: seq<Block>, mined: seq<Block>) {
    forall j :: 0 <= j < |mined| ==> NewHash(c, chain + mined[..j], mined[j])
  }

  /** Over every run of a miner the chain walked grows by the blocks mined, one each, and loses none. */
  lemma {:induction false} MiningGrows(c: Crypto, chain: seq<Block>, heads: seq<Chainhead>, mined: seq<Block>)
    requires MiningRun(c, heads, mined) && Heads(c, heads[0], chain) && TipHash(c, chain) != []
    requires NewHashes(c, chain, mined)
    ensures Heads(c, heads[|mined|], chain + mined) && TipHash(c, chain + mined) != []
    ensures ChainTo(heads[|mined|].blocks, heads[|mined|].tip, chain + mined)
  {
    if mined == [] {
      assert chain + mined == chain;
      StoredChain(c, heads[0].blocks, chain);
    } else {
      var n := |mined| - 1;
      var front, block := mined[..n], mined[n];
      assert chain + mined == (chain + front) + [block];
      assert forall j :: 0 <= j < n ==> front[..j] == mined[..j];
      MiningGrows(c, chain, heads[..n + 1], front);
      assert PutOnTip(c, heads[n], heads[n + 1], block) && NewHash(c, chain + front, block);
      MinedExtendsTip(c, heads[n].blocks, chain + front, block);
    }
  }

  /** No two inputs in the mempool name the same output.  Nothing checks this: admission asks the confirmed index,
      input by input. */
  ghost predicate ConflictFree(mempool: seq<Transaction>) {
    SpentOnce(mempool) && forall k :: 0 <= k < |mempool| ==> DistinctInputs(mempool[k].inputs)
  }

  lemma ConflictsAssembled(coinbase: Transaction, mempool: seq<Transaction>)
    requires IsCoinbase(coinbase)
    ensures ConflictFree([coinbase] + mempool) <==> ConflictFree(mempool)
  {
    var txs := [coinbase] + mempool;
    if ConflictFree(txs) {
      forall j, k, id, v | 0 <= j < k < |mempool| && Spends(mempool[j], id, v) ensures !Spends(mempool[k], id, v) {
        assert txs[j + 1] == mempool[j] && txs[k + 1] == mempool[k];
      }
      forall k | 0 <= k < |mempool| ensures DistinctInputs(mempool[k].inputs) {
        assert txs[k + 1] == mempool[k];
      }
    }
  }

  lemma PaidForHeld(c: Crypto, m: Index, txs: seq<Transaction>)
    requires txs != [] && IsCoinbase(txs[0]) && forall k :: 1 <= k < |txs| ==> PaidFor(c, m, txs[k])
    ensures SpendsHeld(m, txs)
  {
    forall k, i | 0 <= k < |txs| && 0 <= i < |txs[k].inputs|
      ensures Holds(m, txs[k].inputs[i].txID, txs[k].inputs[i].vOut)
    {
      assert PaidFor(c, m, txs[k]);
      Admission.AcceptedHolds(c, m, txs[k], i);
    }
  }

  /** What a node mines from transactions admitted on the present chain, with fresh and unique hashes, is a valid block
      that earns its fees exactly if the mempool is free of conflicts. */
  lemma {:induction false} FreshMempoolMinesValidIff(c: Crypto, chain: seq<Block>, recipient: Address, now: int,
                                                     mempool: seq<Transaction>, prevHash: Bytes, timestamp: string)
    requires MinedChain(c, chain)
    requires var block := Assemble(CoinBaseTransaction(c, recipient, now), mempool, prevHash, timestamp);
             UniqueIds(block.transactions) && IdsOf(block.transactions) !! IdsOf(Forward(chain))
    requires forall k :: 0 <= k < |mempool| ==> PaidFor(c, IndexOf(chain), mempool[k])
    ensures var block := Assemble(CoinBaseTransaction(c, recipient, now), mempool, prevHash, timestamp);
            MinedChain(c, chain + [block]) <==> ConflictFree(mempool)
  {
    var block := Assemble(CoinBaseTransaction(c, recipient, now), mempool, prevHash, timestamp);
    var txs, longer := block.transactions, chain + [block];
    forall k | 1 <= k < |txs| ensures PaidFor(c, IndexOf(chain), txs[k]) {
      assert txs[k] == mempool[k - 1];
    }
    PaidForHeld(c, IndexOf(chain), txs);
    ConflictsAssembled(txs[0], mempool);
    var reward := txs[0].outputs;
    assert reward[..0] == [];
    assert Admission.OutputSum(reward) == Admission.OutputSum([]) + reward[0].value;
    assert MinedNext(c, chain, block) <==> ConflictFree(txs);
    assert longer[..|longer| - 1] == chain && longer[|longer| - 1] == block;
  }

  /** The mempool only grows.  So of two blocks mined one after the other by a node, the second is valid on top of
      the first only if the mempool was empty when the first was mined. */
  lemma {:induction false} SecondBlockNeedsEmptyMempool(c: Crypto, chain: seq<Block>, first: Block, second: Block,
                                                        coinbase1: Transaction, pool1: seq<Transaction>,
                                                        coinbase2: Transaction,
                                                        pool2: seq<Transaction>)
    requires first.transactions == [coinbase1] + pool1 && second.transactions == [coinbase2] + pool2 && pool1 <= pool2
    requires ValidChain(chain + [first] + [second])
    ensures pool1 == []
  {
    var before := chain + [first];
    var whole := before + [second];
    assert whole[..|whole| - 1] == before && before[..|chain|] == chain;
    SharedEntry(chain, first, second);
    assert ValidNext(before, second);
  }

  lemma SharedEntry(chain: seq<Block>, first: Block, second: Block)
    requires |second.transactions| >= |first.transactions|
    requires |first.transactions| > 1 ==> first.transactions[1] == second.transactions[1]
    ensures |first.transactions| > 1 ==>
              first.transactions[1].hash in IdsOf(Forward(chain + [first]))
                && first.transactions[1].hash in IdsOf(second.transactions)
  {
    assert (chain + [first])[..|chain|] == chain;
    IdsOfConcat(Forward(chain), first.transactions);
    if |first.transactions| > 1 {
      assert first.transactions[1].hash in IdsOf(first.transactions);
    }
  }
}
