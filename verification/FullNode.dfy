/** `network/fullnode.go`: the handlers of a full node.  Each handler is one step; what it sends is its result. */
module FullNodes {
  import opened Types
  import opened UtxoSpec
  import opened ChainSpec
  import opened ChainStore
  import Database
  import opened UtxoSet
  import opened BlockChains
  import opened Admission
  import opened SyncSpec
  import SpvSpec
  import Merkle
  import Gossip
  import Mempools

  datatype NodeType = FULLNODE | SPV | MINER
  datatype NodeInfo = NodeInfo(nodeType: NodeType, address: Address)

  const NEWBLOCK_FROM_MINER_INDEX: int := -1

  datatype MerkleBlock = MerkleBlock(header: BlockHeader, merklePath: seq<Merkle.ProofNode>, transaction: Transaction)
  datatype Addressed<T> = Addressed(to: Address, message: T)

  datatype BlockdataOutcome =
    | RejectedBlock
    | StoredBlock(relayTo: seq<Address>, merkleBlocks: seq<Addressed<MerkleBlock>>)
    | StoredList
    | Crashed

  predicate MeetsTarget(c: Crypto, block: Block) {
    c.belowTarget(BlockHash(c, block))
  }

  predicate IsNewBlock(msg: Blockdata) {
    msg.index == NEWBLOCK_FROM_MINER_INDEX && |msg.blockList| == 1
  }

  // ---------- checks on a block ----------

  /** The first verdict other than `Valid` on a list of transactions. */
  ghost function VerifyAll(c: Crypto, scan: seq<Transaction>, txs: seq<Transaction>): Check {
    if txs == [] then Valid
    else if VerifyAll(c, scan, txs[..|txs| - 1]) != Valid then VerifyAll(c, scan, txs[..|txs| - 1])
    else Verify(c, scan, txs[|txs| - 1])
  }

  ghost function VerifyBlockSpec(c: Crypto, scan: seq<Transaction>, block: Block): Check {
    if !c.belowTarget(BlockHash(c, block)) then Invalid
    else if block.transactions == [] then Crash
    else if !IsCoinbase(block.transactions[0]) then Invalid
    else VerifyAll(c, scan, block.transactions)
  }

  lemma {:induction false} VerifyAllMeans(c: Crypto, scan: seq<Transaction>, txs: seq<Transaction>)
    ensures VerifyAll(c, scan, txs) == Valid <==> forall k :: 0 <= k < |txs| ==> Verify(c, scan, txs[k]) == Valid
  {
    if txs != [] {
      var n := |txs| - 1;
      VerifyAllMeans(c, scan, txs[..n]);
      if VerifyAll(c, scan, txs) == Valid {
        forall k | 0 <= k < |txs| ensures Verify(c, scan, txs[k]) == Valid {
          if k < n { assert txs[k] == txs[..n][k]; }
        }
      }
    }
  }

  /** A block of one coinbase and admitted transactions passes `verifyBlock`, given its proof of work, also on
      nodes that have meanwhile extended the chain. */
  lemma {:induction false} AdmittedBlockVerifies(c: Crypto, chain: seq<Block>, later: seq<Block>, m: Index,
                                                 block: Block)
    requires ValidChain(chain) && Agree(m, ApplyAll(map[], Forward(chain))) && UniqueIds(Forward(chain + later))
    requires c.belowTarget(BlockHash(c, block))
    requires block.transactions != [] && IsCoinbase(block.transactions[0])
    requires forall k :: 1 <= k < |block.transactions| ==> Admit(c, m, [], block.transactions[k]) == Accepted
    ensures VerifyBlockSpec(c, Backward(chain + later), block) == Valid
  {
    forall k | 0 <= k < |block.transactions|
      ensures Verify(c, Backward(chain + later), block.transactions[k]) == Valid
    {
      if k > 0 {
        AdmissionImpliesVerification(c, chain, later, m, [], block.transactions[k]);
      }
    }
    VerifyAllMeans(c, Backward(chain + later), block.transactions);
  }

  /** What `verifyBlock` accepts on a chain with unique hashes: exactly a block that meets the target, begins with a
      transaction without inputs, and has every input authorised by an output created on the chain, spent or not. */
  lemma {:induction false} BlockValidIff(c: Crypto, chain: seq<Block>, block: Block)
    requires UniqueIds(Forward(chain))
    ensures VerifyBlockSpec(c, Backward(chain), block) == Valid <==>
              && c.belowTarget(c.headerHash(Seal(c, block).header))
              && block.transactions != [] && |block.transactions[0].inputs| == 0
              && forall k, i :: 0 <= k < |block.transactions| && 0 <= i < |block.transactions[k].inputs| ==>
                   Authorised(c, Forward(chain), block.transactions[k].inputs[i])
  {
    VerifyAllMeans(c, Backward(chain), block.transactions);
    forall k | 0 <= k < |block.transactions|
      ensures Verify(c, Backward(chain), block.transactions[k]) == Valid <==>
              forall i :: 0 <= i < |block.transactions[k].inputs| ==>
                Authorised(c, Forward(chain), block.transactions[k].inputs[i])
    {
      VerifyMeans(c, chain, block.transactions[k]);
    }
  }

  /** A block of one transaction without inputs passes, given its proof of work, whatever the transaction pays out:
      no check compares it with the reward. */
  lemma {:induction false} AnyCoinbaseVerifies(c: Crypto, scan: seq<Transaction>, block: Block)
    requires c.belowTarget(BlockHash(c, block)) && |block.transactions| == 1 && IsCoinbase(block.transactions[0])
    ensures VerifyBlockSpec(c, scan, block) == Valid
  {
    VerifyAllMeans(c, scan, block.transactions);
  }

  lemma {:induction false} VerifyAllUpTo(c: Crypto, scan: seq<Transaction>, txs: seq<Transaction>, i: int)
    requires 0 <= i <= |txs| && forall k :: 0 <= k < i ==> Verify(c, scan, txs[k]) == Valid
    ensures VerifyAll(c, scan, txs[..i]) == Valid
  {
    VerifyAllMeans(c, scan, txs[..i]);
  }

  /** A block that crashes every node it reaches on this chain, given its proof of work: after a coinbase, a
      transaction that names an unknown hash. */
  lemma {:induction false} CrashingBlock(c: Crypto, chain: seq<Block>, block: Block)
    requires UniqueIds(Forward(chain)) && c.belowTarget(BlockHash(c, block))
    requires |block.transactions| == 2 && IsCoinbase(block.transactions[0]) && block.transactions[1].inputs != []
    requires block.transactions[1].inputs[0].txID !in IdsOf(Forward(chain))
    ensures VerifyBlockSpec(c, Backward(chain), block) == Crash
  {
    var txs, tx := block.transactions, block.transactions[1];
    assert Unknown(Forward(chain), tx.inputs[0]);
    VerifyCrashIff(c, chain, tx);
    VerifyAllUpTo(c, Backward(chain), txs, 1);
    assert txs[..|txs| - 1] == txs[..1];
  }

  // ---------- messages to SPV nodes ----------

  function AddressesOf(peers: seq<NodeInfo>): (list: seq<Address>)
    ensures |list| == |peers|
  {
    seq(|peers|, i requires 0 <= i < |peers| => peers[i].address)
  }

  function Select(peers: seq<NodeInfo>, types: set<NodeType>): seq<Address> {
    if peers == [] then []
    else
      var p := peers[|peers| - 1];
      Select(peers[..|peers| - 1], types) + if p.nodeType in types then [p.address] else []
  }

  /** Whom a message goes to: exactly the peers of these types, each once. */
  lemma {:induction false} SelectMeans(peers: seq<NodeInfo>, types: set<NodeType>, a: Address)
    ensures a in Select(peers, types) <==>
            exists i :: 0 <= i < |peers| && peers[i].nodeType in types && peers[i].address == a
    ensures Gossip.NoRepeats(AddressesOf(peers)) ==> Gossip.NoRepeats(Select(peers, types))
  {
    if peers != [] {
      var n := |peers| - 1;
      SelectMeans(peers[..n], types, a);
      if i :| 0 <= i < n && peers[..n][i].nodeType in types && peers[..n][i].address == a {
        assert peers[i].address == a;
      }
      if Gossip.NoRepeats(AddressesOf(peers)) {
        assert AddressesOf(peers[..n]) == AddressesOf(peers)[..n];
        SelectMeans(peers[..n], types, peers[n].address);
        forall i | 0 <= i < n ensures peers[i].address != peers[n].address {
          assert AddressesOf(peers)[i] != AddressesOf(peers)[n];
        }
      }
    }
  }

  method SelectPeers(peers: seq<NodeInfo>, types: set<NodeType>) returns (list: seq<Address>)
    ensures list == Select(peers, types)
  {
    list := [];
    for i := 0 to |peers|
      invariant list == Select(peers[..i], types)
    {
      assert peers[..i + 1][..i] == peers[..i];
      if peers[i].nodeType in types {
        list := list + [peers[i].address];
      }
    }
    assert peers[..|peers|] == peers;
  }

  function FilterOf(filters: map<Address, seq<Address>>, peer: Address): seq<Address> {
    if peer in filters then filters[peer] else []
  }

  /** The messages for one transaction: one to each SPV peer whose filter it matches. */
  function MessagesFor(c: Crypto, block: Block, tx: Transaction, peers: seq<NodeInfo>,
                       filters: map<Address, seq<Address>>):
      seq<Addressed<MerkleBlock>>
    requires block.transactions != []
  {
    if peers == [] then []
    else
      var p := peers[|peers| - 1];
      MessagesFor(c, block, tx, peers[..|peers| - 1], filters)
      + if p.nodeType == SPV && SpvSpec.OfInterest(c, tx, FilterOf(filters, p.address))
        then [Addressed(p.address, MerkleBlock(block.header, Merkle.Proof(c, block.transactions, tx), tx))] else []
  }

  function MessagesUpTo(c: Crypto, block: Block, n: nat, peers: seq<NodeInfo>, filters: map<Address, seq<Address>>):
      seq<Addressed<MerkleBlock>>
    requires n <= |block.transactions|
  {
    if n == 0 then []
    else
      MessagesUpTo(c, block, n - 1, peers, filters)
      + MessagesFor(c, block, block.transactions[n - 1], peers, filters)
  }

  method MakeMessages(c: Crypto, block: Block, peers: seq<NodeInfo>, filters: map<Address, seq<Address>>)
      returns (messages: seq<Addressed<MerkleBlock>>)
    ensures messages == MessagesUpTo(c, block, |block.transactions|, peers, filters)
  {
    messages := [];
    for n := 0 to |block.transactions|
      invariant messages == MessagesUpTo(c, block, n, peers, filters)
    {
      var tx := block.transactions[n];
      ghost var before := messages;
      for i := 0 to |peers|
        invariant messages == before + MessagesFor(c, block, tx, peers[..i], filters)
      {
        assert peers[..i + 1][..i] == peers[..i];
        if peers[i].nodeType == SPV && SpvSpec.OfInterest(c, tx, FilterOf(filters, peers[i].address)) {
          var path := Merkle.GetMerkleProof(c, block.transactions, tx);
          messages := messages + [Addressed(peers[i].address, MerkleBlock(block.header, path, tx))];
        }
      }
      assert peers[..|peers|] == peers;
    }
  }

  lemma {:induction false} MessageFrom(c: Crypto, block: Block, tx: Transaction, peers: seq<NodeInfo>,
                                       filters: map<Address, seq<Address>>, msg: Addressed<MerkleBlock>)
    requires block.transactions != [] && msg in MessagesFor(c, block, tx, peers, filters)
    ensures msg.message == MerkleBlock(block.header, Merkle.Proof(c, block.transactions, tx), tx)
    ensures SpvSpec.OfInterest(c, tx, FilterOf(filters, msg.to)) && NodeInfo(SPV, msg.to) in peers
  {
    var n := |peers| - 1;
    assert peers == peers[..n] + [peers[n]];
    if msg in MessagesFor(c, block, tx, peers[..n], filters) {
      MessageFrom(c, block, tx, peers[..n], filters, msg);
    }
  }

  /** Every message sent for a block carries a transaction of that block that its receiver asked for, and passes
      the receiver's Merkle check exactly if the block's stored root is the root of its transactions. */
  lemma {:induction false} MessagesCheck(c: Crypto, block: Block, n: nat, peers: seq<NodeInfo>,
                                         filters: map<Address, seq<Address>>, msg: Addressed<MerkleBlock>)
    requires n <= |block.transactions| && msg in MessagesUpTo(c, block, n, peers, filters)
    ensures msg.message.transaction in block.transactions && msg.message.header == block.header
    ensures SpvSpec.OfInterest(c, msg.message.transaction, FilterOf(filters, msg.to))
    ensures Merkle.Fold(c, c.digest(Leaf(msg.message.transaction)), msg.message.merklePath)
            == msg.message.header.merkleRoot
            <==> block.header.merkleRoot == Merkle.Root(c, block.transactions)
  {
    if msg in MessagesUpTo(c, block, n - 1, peers, filters) {
      MessagesCheck(c, block, n - 1, peers, filters, msg);
    } else {
      MessageFrom(c, block, block.transactions[n - 1], peers, filters, msg);
      Merkle.Completeness(c, block.transactions, block.transactions[n - 1]);
    }
  }

  /** The loop of step 2 of `handleNewTxnMsg`. */
  method SumOutputs(outputs: seq<TxOutput>) returns (total: int)
    ensures total == Wrap(OutputSum(outputs))
  {
    total := 0;
    for i := 0 to |outputs|
      invariant total == Wrap(OutputSum(outputs[..i]))
    {
      assert outputs[..i + 1][..i] == outputs[..i];
      WrapFacts(OutputSum(outputs[..i]), outputs[i].value);
      total := Wrap(total + outputs[i].value);
    }
    assert outputs[..|outputs|] == outputs;
  }

  /** An answer to a request for blocks is never taken for a newly mined block. */
  lemma {:induction false} AnswerIsNotNew(hashes: seq<Bytes>, i: int, blockList: seq<Block>)
    requires 0 <= i < |Chunks(hashes)|
    ensures !IsNewBlock(Blockdata(Chunks(hashes)[i].index, blockList))
  {
    ChunksLossless(hashes);
  }

  // ---------- the node ----------

  class FullNode {
    const networkAddress: Address
    const blockchain: BlockChain
    var connectedPeers: seq<NodeInfo>
    var forwardedAddrList: seq<Address>
    var filters: map<Address, seq<Address>>
    var getdataMessageCount: int
    var mempool: seq<Transaction>

    constructor (c: Crypto, networkAddress: Address, database: Database.LevelDB)
      modifies database`blocks, database`lastHash, database`utxo
      ensures fresh(blockchain) && blockchain.database == database && this.networkAddress == networkAddress
      ensures connectedPeers == [] && forwardedAddrList == [] && filters == map[]
      ensures getdataMessageCount == 0 && mempool == []
      ensures var g := Seal(c, GenesisBlock(c));
              && blockchain.At([g]) && database.utxo == Rescan(Backward([g]))
              && database.blocks == old(database.blocks)[TipHash(c, [g]) := g]
    {
      this.networkAddress := networkAddress;
      blockchain := new BlockChain(c, database);
      connectedPeers, forwardedAddrList, filters, getdataMessageCount, mempool := [], [], map[], 0, [];
    }

    /** The part of the node that gossip uses. */
    ghost function AsPeer(): Gossip.Peer
      reads this
    {
      Gossip.Peer(AddressesOf(connectedPeers), forwardedAddrList)
    }

    // ----- transactions -----

    /** `handleNewTxnMsg`: checks inputs one by one against the index, then the sums as Go adds them. */
    method HandleNewTxn(c: Crypto, tx: Transaction) returns (verdict: Verdict, sendTo: seq<Address>)
      modifies this`mempool
      ensures verdict == Admit(c, blockchain.database.utxo, old(mempool), tx)
      ensures mempool == Mempools.AfterDelivery(c, old(mempool), Mempools.Delivery(tx, blockchain.database.utxo))
      ensures mempool == if verdict == Accepted then old(mempool) + [tx] else old(mempool)
      ensures sendTo == if verdict == Accepted then Select(connectedPeers, {FULLNODE, MINER}) else []
    {
      for i := 0 to |mempool|
        invariant forall j :: 0 <= j < i ==> mempool[j].hash != tx.hash
        invariant mempool == old(mempool)
      {
        if mempool[i].hash == tx.hash {
          return Duplicate, [];
        }
      }
      var totalInputAmount;
      verdict, totalInputAmount := CheckAndSum(c, tx.inputs);
      if verdict != Accepted {
        return verdict, [];
      }
      var spentAmount := SumOutputs(tx.outputs);
      if totalInputAmount < spentAmount {
        return Overspends, [];
      }
      mempool := mempool + [tx];
      sendTo := SelectPeers(connectedPeers, {FULLNODE, MINER});
      return Accepted, sendTo;
    }

    /** The loop of step 1: the first input that fails decides; values are added as 64-bit integers. */
    method CheckAndSum(c: Crypto, inputs: seq<TxInput>) returns (verdict: Verdict, total: int)
      ensures verdict == CheckInputs(c, blockchain.database.utxo, inputs)
      ensures verdict == Accepted ==> total == Wrap(InputSum(blockchain.database.utxo, inputs))
    {
      ghost var m := blockchain.database.utxo;
      var utxoSet := new UTXOSet(blockchain.database);
      total := 0;
      for i := 0 to |inputs|
        invariant CheckInputs(c, m, inputs[..i]) == Accepted
        invariant total == Wrap(InputSum(m, inputs[..i]))
      {
        var input := inputs[i];
        assert inputs[..i + 1][..i] == inputs[..i];
        CheckInputsPrefix(c, m, inputs, i);
        var output := utxoSet.GetTxOutputFromTxInput(input);
        if output == None {
          return MissingOutput, total;
        }
        if c.keyHash(input.scriptSig.pubKey) != output.value.scriptPubKey.pubKeyHash {
          return WrongKey, total;
        }
        var signature := input.scriptSig.signature;
        var half := |signature| / 2;
        if !c.verify(input.scriptSig.pubKey, Unsigned(input), signature[..half], signature[half..]) {
          return BadSignature, total;
        }
        WrapFacts(InputSum(m, inputs[..i]), output.value.value);
        total := Wrap(total + output.value.value);
      }
      assert inputs[..|inputs|] == inputs;
      return Accepted, total;
    }

    /** `verifyTransaction` on the chain the node has. */
    method VerifyTransaction(c: Crypto, tx: Transaction, ghost chain: seq<Block>) returns (check: Check)
      requires blockchain.At(chain)
      ensures check == Verify(c, Backward(chain), tx)
    {
      if IsCoinbase(tx) {
        return Valid;
      }
      var txnMap := blockchain.GetTransactionMapFromInputs(tx, chain);
      var i := 0;
      while i < |tx.inputs|
        invariant 0 <= i <= |tx.inputs|
        invariant VerifyInputs(c, txnMap, tx.inputs) == VerifyInputs(c, txnMap, tx.inputs[i..])
      {
        var input := tx.inputs[i];
        var outputs := OutputsOf(txnMap, input.txID);
        if !(0 <= input.vOut < |outputs|) {
          return Crash;
        }
        if c.keyHash(input.scriptSig.pubKey) != outputs[input.vOut].scriptPubKey.pubKeyHash {
          return Invalid;
        }
        var signature := input.scriptSig.signature;
        var half := |signature| / 2;
        if !c.verify(input.scriptSig.pubKey, Unsigned(input), signature[..half], signature[half..]) {
          return Invalid;
        }
        i := i + 1;
      }
      return Valid;
    }

    method VerifyBlock(c: Crypto, block: Block, ghost chain: seq<Block>) returns (check: Check)
      requires MeetsTarget(c, block) ==> blockchain.At(chain)
      ensures check == VerifyBlockSpec(c, Backward(chain), block)
    {
      var hash, _ := GetHash(c, block);
      if !c.belowTarget(hash) {
        return Invalid;
      }
      var txs := block.transactions;
      if |txs| == 0 {
        return Crash;
      }
      if !IsCoinbase(txs[0]) {
        return Invalid;
      }
      for i := 0 to |txs|
        invariant VerifyAll(c, Backward(chain), txs[..i]) == Valid
      {
        assert txs[..i + 1][..i] == txs[..i];
        check := VerifyTransaction(c, txs[i], chain);
        if check != Valid {
          VerifyAllPrefix(c, Backward(chain), txs, i);
          return check;
        }
      }
      assert txs[..|txs|] == txs;
      return Valid;
    }

    // ----- blocks -----

    method StoreNewBlock(c: Crypto, block: Block)
      modifies blockchain`lastHash, blockchain.database`blocks, blockchain.database`utxo, blockchain.database`lastHash
      ensures blockchain.lastHash == blockchain.database.lastHash == BlockHash(c, block)
      ensures blockchain.database.blocks == old(blockchain.database.blocks)[BlockHash(c, block) := Seal(c, block)]
      ensures blockchain.database.utxo == ApplyAll(old(blockchain.database.utxo), block.transactions)
    {
      blockchain.SetBlock(c, block);
      blockchain.SetLastHash(BlockHash(c, block));
      var utxoSet := new UTXOSet(blockchain.database);
      utxoSet.UpdateWithNewBlock(block);
    }

    /** `handleBlockdataMsg`: a newly mined block is checked, stored and passed on; other lists are stored as they
        come, and the list with the last index moves the tip.  Only the check of a block that meets the target walks the
        chain. */
    method HandleBlockdata(c: Crypto, msg: Blockdata, ghost chain: seq<Block>) returns (outcome: BlockdataOutcome)
      requires IsNewBlock(msg) && MeetsTarget(c, msg.blockList[0]) ==> blockchain.At(chain)
      modifies blockchain`lastHash, blockchain.database`blocks, blockchain.database`utxo, blockchain.database`lastHash
      ensures var db, was := blockchain.database, Receiver(old(blockchain.database.blocks), old(blockchain.lastHash));
              if IsNewBlock(msg) && VerifyBlockSpec(c, Backward(chain), msg.blockList[0]) == Valid then
                var block := msg.blockList[0];
                && blockchain.lastHash == db.lastHash == BlockHash(c, block)
                && db.blocks == old(blockchain.database.blocks)[BlockHash(c, block) := Seal(c, block)]
                && db.utxo == ApplyAll(old(blockchain.database.utxo), block.transactions)
                && outcome == StoredBlock(
                     Select(connectedPeers, {FULLNODE}),
                     MessagesUpTo(c, Seal(c, block), |block.transactions|, connectedPeers, filters))
              else if IsNewBlock(msg) || (msg.index == getdataMessageCount - 1 && msg.blockList == []) then
                && db.blocks == was.blocks && blockchain.lastHash == was.lastHash
                && db.utxo == old(blockchain.database.utxo) && db.lastHash == old(blockchain.database.lastHash)
                && outcome == if IsNewBlock(msg) && VerifyBlockSpec(c, Backward(chain), msg.blockList[0]) == Invalid
                              then RejectedBlock else Crashed
              else
                && outcome == StoredList
                && Receiver(db.blocks, blockchain.lastHash) == Deliver(c, was, getdataMessageCount, msg)
                && db.utxo == old(blockchain.database.utxo)
                && db.lastHash == if msg.index == getdataMessageCount - 1 then blockchain.lastHash
                                  else old(blockchain.database.lastHash)
    {
      if msg.index == NEWBLOCK_FROM_MINER_INDEX && |msg.blockList| == 1 {
        var block := msg.blockList[0];
        var check := VerifyBlock(c, block, chain);
        if check == Crash {
          return Crashed;
        }
        if check == Invalid {
          return RejectedBlock;
        }
        StoreNewBlock(c, block);
        var relayTo := SelectPeers(connectedPeers, {FULLNODE});
        var _, sealed := GetHash(c, block);
        var messages := MakeMessages(c, sealed, connectedPeers, filters);
        return StoredBlock(relayTo, messages);
      }
      var list := msg.blockList;
      for i := 0 to |list|
        invariant blockchain.database.blocks == PutBlocks(c, old(blockchain.database.blocks), list[..i])
        invariant blockchain.lastHash == old(blockchain.lastHash)
        invariant blockchain.database.lastHash == old(blockchain.database.lastHash)
        invariant blockchain.database.utxo == old(blockchain.database.utxo)
      {
        assert list[..i + 1][..i] == list[..i];
        blockchain.SetBlock(c, list[i]);
      }
      assert list[..|list|] == list;
      if msg.index == getdataMessageCount - 1 {
        if |list| == 0 {
          return Crashed;
        }
        var hash, _ := GetHash(c, list[|list| - 1]);
        blockchain.SetLastHash(hash);
      }
      return StoredList;
    }

    /** `handleFilterloadMsg`: the latest list of an SPV node replaces the one before. */
    method HandleFilterload(from: Address, list: seq<Address>)
      modifies this`filters
      ensures FilterOf(filters, from) == list
      ensures forall peer :: peer != from ==> FilterOf(filters, peer) == FilterOf(old(filters), peer)
    {
      filters := filters[from := list];
    }

    // ----- synchronisation -----

    method HandleGetblocks(c: Crypto, top: Bytes, ghost chain: seq<Block>) returns (reply: Reply<Bytes>)
      requires blockchain.At(chain) && blockchain.lastHash == TipHash(c, chain)
      ensures reply == GetblocksReply(c, chain, top)
    {
      var existed, unmatched := blockchain.GetUnmatchedBlocks(c, top, chain);
      ReverseTwice(AfterTarget(Hashes(c, chain), Hashes(c, chain), top));
      if existed && |unmatched| > 0 {
        var items := TakeOldest(unmatched, MAX_INV);
        return Send(items);
      } else if !existed {
        return AskBack(blockchain.lastHash);
      }
      return Silent;
    }

    method HandleGetheaders(c: Crypto, top: Bytes, ghost chain: seq<Block>) returns (reply: Reply<BlockHeader>)
      requires blockchain.At(chain)
      ensures reply == GetheadersReply(c, chain, top)
    {
      var existed, unmatched := blockchain.GetUnmatchedHeaders(c, top, chain);
      ReverseTwice(AfterTarget(Headers(chain), Hashes(c, chain), top));
      if existed && |unmatched| > 0 {
        var items := TakeOldest(unmatched, MAX_HEADERS);
        return Send(items);
      }
      return Silent;
    }

    method HandleGetdata(msg: Getdata) returns (reply: Blockdata)
      ensures reply == Blockdata(msg.index, FetchAll(blockchain.database.blocks, msg.hashList))
    {
      var blockList := blockchain.GetBlocksFromHashes(msg.hashList);
      reply := Blockdata(msg.index, blockList);
    }

    /** `handleInvMsg` up to the start of the workers, which `Dispatch` models: one for each of the first peers, as
        far as there are requests. */
    method BeginInv(hashes: seq<Bytes>) returns (msgs: seq<Getdata>, askPeers: seq<Address>)
      modifies this`getdataMessageCount
      ensures msgs == Chunks(hashes) && getdataMessageCount == |msgs|
      ensures |askPeers| == Min(|connectedPeers|, |msgs|)
      ensures forall w :: 0 <= w < |askPeers| ==> askPeers[w] == connectedPeers[w].address
    {
      msgs := MakeGetdata(hashes);
      getdataMessageCount := |msgs|;
      askPeers := [];
      for index := 0 to |connectedPeers|
        invariant |askPeers| == index <= |msgs|
        invariant forall w :: 0 <= w < index ==> askPeers[w] == connectedPeers[w].address
      {
        if index >= |msgs| {
          break;
        }
        askPeers := askPeers + [connectedPeers[index].address];
      }
    }

    /** `handleInvMsg` after the wait, and after the pause in which the answers arrive. */
    method FinishInv(c: Crypto, ghost chain: seq<Block>) returns (askPeers: seq<Addressed<Bytes>>)
      requires blockchain.At(chain) && blockchain.lastHash == blockchain.database.lastHash
      modifies blockchain.database`utxo
      ensures blockchain.database.utxo == Rescan(Backward(chain))
      ensures |askPeers| == |connectedPeers|
      ensures forall i :: 0 <= i < |askPeers| ==>
                askPeers[i] == Addressed(connectedPeers[i].address, blockchain.lastHash)
    {
      var utxoSet := new UTXOSet(blockchain.database);
      utxoSet.ReIndex(chain);
      askPeers := [];
      for i := 0 to |connectedPeers|
        invariant |askPeers| == i
        invariant forall j :: 0 <= j < i ==> askPeers[j] == Addressed(connectedPeers[j].address, blockchain.lastHash)
      {
        askPeers := askPeers + [Addressed(connectedPeers[i].address, blockchain.lastHash)];
      }
    }

    // ----- gossip -----

    method HandleVerack(nodeType: NodeType,
                        from: Address) returns (addrs: seq<Gossip.AddrPacket>, getblocks: Option<Bytes>)
      modifies this`connectedPeers
      ensures var o := Gossip.OnVerack(networkAddress, old(AsPeer()), from); AsPeer() == o.peer && addrs == o.addrs
      ensures connectedPeers == if from in AddressesOf(old(connectedPeers)) then old(connectedPeers)
                                else old(connectedPeers) + [NodeInfo(nodeType, from)]
      ensures getblocks == if from in AddressesOf(old(connectedPeers)) then None else Some(blockchain.lastHash)
    {
      if from in AddressesOf(connectedPeers) {
        return [], None;
      }
      connectedPeers := connectedPeers + [NodeInfo(nodeType, from)];
      assert AddressesOf(connectedPeers) == AddressesOf(old(connectedPeers)) + [from];
      return [Gossip.AddrPacket(from, networkAddress)], Some(blockchain.lastHash);
    }

    method HandleAddr(about: Address) returns (addrs: seq<Gossip.AddrPacket>, handshakes: seq<Gossip.Handshake>)
      modifies this`forwardedAddrList
      ensures Gossip.OnAddr(networkAddress, old(AsPeer()), about) == Gossip.Outcome(AsPeer(), addrs, handshakes)
    {
      addrs, handshakes := [], [];
      if about !in AddressesOf(connectedPeers) {
        handshakes := [Gossip.VersionMsg(about, networkAddress)];
      }
      if about !in forwardedAddrList {
        forwardedAddrList := forwardedAddrList + [about];
        ghost var list := AddressesOf(connectedPeers);
        for i := 0 to |connectedPeers|
          invariant addrs == Gossip.ForwardTo(list[..i], about)
        {
          assert list[..i + 1][..i] == list[..i];
          if connectedPeers[i].address != about {
            addrs := addrs + [Gossip.AddrPacket(connectedPeers[i].address, about)];
          }
        }
        assert list[..|list|] == list;
      }
    }

    method HandleVersion(sameVersion: bool, from: Address) returns (handshakes: seq<Gossip.Handshake>)
      ensures handshakes == if sameVersion then Gossip.OnVersion(networkAddress, AsPeer(), from).handshakes else []
    {
      handshakes := [];
      if sameVersion {
        handshakes := [Gossip.VerackMsg(from, networkAddress)];
        if from !in AddressesOf(connectedPeers) {
          handshakes := handshakes + [Gossip.VersionMsg(from, networkAddress)];
        }
      }
    }
  }

  lemma {:induction false} CheckInputsPrefix(c: Crypto, m: Index, inputs: seq<TxInput>, i: int)
    requires 0 <= i < |inputs| && CheckInputs(c, m, inputs[..i]) == Accepted
    ensures CheckInput(c, m, inputs[i]) != Accepted ==> CheckInputs(c, m, inputs) == CheckInput(c, m, inputs[i])
    decreases |inputs|
  {
    var n := |inputs| - 1;
    if i < n {
      assert inputs[..n][..i] == inputs[..i];
      CheckInputsPrefix(c, m, inputs[..n], i);
    }
  }

  lemma {:induction false} VerifyAllPrefix(c: Crypto, scan: seq<Transaction>, txs: seq<Transaction>, i: int)
    requires 0 <= i < |txs| && VerifyAll(c, scan, txs[..i]) == Valid
    ensures Verify(c, scan, txs[i]) != Valid ==> VerifyAll(c, scan, txs) == Verify(c, scan, txs[i])
    decreases |txs|
  {
    var n := |txs| - 1;
    if i < n {
      assert txs[..n][..i] == txs[..i];
      VerifyAllPrefix(c, scan, txs[..n], i);
    }
  }
}
