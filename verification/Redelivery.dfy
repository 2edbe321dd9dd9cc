/** Messages that are relayed without a memory.  Unlike addresses, new blocks and merkleblock messages are passed on
    each time they arrive: by a full node to all its full-node peers, by an SPV node to all its SPV peers. */
module Redelivery {
  import opened Types
  import opened UtxoSpec
  import opened ChainSpec
  import opened ChainStore
  import opened Admission
  import opened Conservation
  import NodeRuns
  import SpvSpec
  import Reentry
  import opened Flooding
  import opened FullNodes
  import SpvNodes

  // ---------- an old block and the index ----------

  lemma {:induction false} ValidAt(chain: seq<Block>, b: int)
    requires ValidChain(chain) && 0 <= b < |chain|
    ensures ValidChain(chain[..b]) && ValidNext(chain[..b], chain[b]) && ValidChain(chain[..b + 1])
  {
    var n := |chain| - 1;
    if b < n {
      ValidAt(chain[..n], b);
      assert chain[..n][..b] == chain[..b] && chain[..n][..b + 1] == chain[..b + 1];
    } else {
      assert chain[..b + 1] == chain;
    }
  }

  /** No input of the block names a transaction of the block. */
  lemma BlockNamesNoneOfItself(chain: seq<Block>, b: int, id: Bytes)
    requires ValidChain(chain) && 0 <= b < |chain| && id in IdsOf(chain[b].transactions)
    ensures SpentOn(chain[b].transactions, id) == {}
  {
    ValidAt(chain, b);
    ValidChainFacts(chain[..b]);
    NewSpendsAreOld(Forward(chain[..b]), chain[b].transactions, id);
  }

  lemma {:induction false} BlockWithin(chain: seq<Block>, b: int)
    requires 0 <= b < |chain|
    ensures forall tx :: tx in chain[b].transactions ==> tx in Forward(chain)
  {
    ForwardSplit(chain, b);
  }

  lemma {:induction false} BlockNamesNotItself(chain: seq<Block>, b: int)
    requires ValidChain(chain) && 0 <= b < |chain|
    ensures forall tx :: tx in chain[b].transactions ==> !Reentry.NamesItself(tx)
  {
    BlockWithin(chain, b);
    assert Causal(Forward(chain)) by {
      ValidChainFacts(chain);
    }
    forall tx | tx in chain[b].transactions ensures !Reentry.NamesItself(tx) {
      Reentry.CausalNamesNot(Forward(chain), tx);
    }
  }

  /** What the index holds, no block of the chain spends. */
  lemma {:induction false} NothingLost(chain: seq<Block>, b: int, id: Bytes)
    requires ValidChain(chain) && 0 <= b < |chain|
    ensures Without(Lookup(IndexOf(chain), id), SpentOn(chain[b].transactions, id)) == Lookup(IndexOf(chain), id)
  {
    var entry, spent := Lookup(IndexOf(chain), id), SpentOn(chain[b].transactions, id);
    assert spent <= SpentOn(Forward(chain), id) by {
      BlockWithin(chain, b);
      Reentry.SpentOnSubset(chain[b].transactions, Forward(chain), id);
    }
    forall e | e in entry ensures e.index !in spent {
      Reentry.HeldUnspent(chain, id, e);
    }
    WithoutCongruent(entry, spent, {});
    WithoutNothing(entry);
  }

  /** Entering a block of the chain once more puts back all its outputs and changes no other entry. */
  lemma {:induction false} BlockReentry(chain: seq<Block>, b: int, id: Bytes)
    requires ValidChain(chain) && 0 <= b < |chain|
    ensures var txs := chain[b].transactions;
            Lookup(ApplyAll(IndexOf(chain), txs), id)
            == match FindTx(txs, id) case None => Lookup(IndexOf(chain), id) case Some(tx) => Unspent(tx.outputs, {})
  {
    var txs := chain[b].transactions;
    assert Lookup(ApplyAll(IndexOf(chain), txs), id)
           == match FindTx(txs, id)
              case None => Without(Lookup(IndexOf(chain), id), SpentOn(txs, id))
              case Some(tx) => Unspent(tx.outputs, Reentry.LaterSpends(txs, id))
    by {
      BlockNamesNotItself(chain, b);
      Reentry.EnterLookup(IndexOf(chain), txs, id);
    }
    if FindTx(txs, id).Some? {
      assert SpentOn(txs, id) == {} by {
        var _ := FindTxFound(txs, id);
        BlockNamesNoneOfItself(chain, b, id);
      }
      Reentry.LaterSpendsWithin(txs, id);
      assert Reentry.LaterSpends(txs, id) == {};
    } else {
      NothingLost(chain, b, id);
    }
  }

  /** The newest block entered again: the index is as before. */
  lemma NewestAgain(chain: seq<Block>)
    requires chain != [] && ValidChain(chain)
    ensures Agree(ApplyAll(IndexOf(chain), chain[|chain| - 1].transactions), IndexOf(chain))
  {
    var n := |chain| - 1;
    var txs := chain[n].transactions;
    forall id ensures Lookup(ApplyAll(IndexOf(chain), txs), id) == Lookup(IndexOf(chain), id) {
      BlockReentry(chain, n, id);
      var k := FindTxFound(txs, id);
      if FindTx(txs, id).Some? {
        NewestEntry(chain, k);
      }
    }
  }

  lemma {:induction false} NewestUnspent(chain: seq<Block>, id: Bytes)
    requires chain != [] && ValidChain(chain) && id in IdsOf(chain[|chain| - 1].transactions)
    ensures SpentOn(Forward(chain), id) == {}
  {
    var n := |chain| - 1;
    var front, txs := Forward(chain[..n]), chain[n].transactions;
    assert ValidNext(chain[..n], chain[n]);
    assert SpentOn(front, id) == {} by {
      ValidChainFacts(chain[..n]);
    }
    BlockNamesNoneOfItself(chain, n, id);
    SpentOnConcat(front, txs, id);
    assert Forward(chain) == front + txs;
  }

  /** The transactions of the newest block are wholly unspent. */
  lemma {:induction false} NewestEntry(chain: seq<Block>, k: int)
    requires chain != [] && ValidChain(chain) && InChain(chain, |chain| - 1, k)
    ensures var tx := chain[|chain| - 1].transactions[k];
            Lookup(IndexOf(chain), tx.hash) == Unspent(tx.outputs, {})
  {
    var tx := chain[|chain| - 1].transactions[k];
    assert tx.hash in IdsOf(chain[|chain| - 1].transactions);
    NewestUnspent(chain, tx.hash);
    ValidChainFacts(chain);
    assert FindTx(Forward(chain), tx.hash) == Some(tx) by {
      CreatorAt(chain, |chain| - 1, k);
    }
    IncrementalIsConfirmed(Forward(chain), tx.hash);
  }

  ghost predicate CreatesOutput(block: Block) {
    exists k :: 0 <= k < |block.transactions| && block.transactions[k].outputs != []
  }

  /** An output of the newest block stays in the index when the tip moves back to an earlier one. */
  lemma {:induction false} StaleEntry(chain: seq<Block>, b: int, k: int)
    requires ValidChain(chain) && 0 <= b < |chain| - 1 && InChain(chain, |chain| - 1, k)
    requires chain[|chain| - 1].transactions[k].outputs != []
    ensures var id := chain[|chain| - 1].transactions[k].hash;
            && Lookup(ApplyAll(IndexOf(chain), chain[b].transactions), id) != []
            && Lookup(IndexOf(chain[..b + 1]), id) == []
  {
    var tx, txs := chain[|chain| - 1].transactions[k], chain[b].transactions;
    assert Unspent(tx.outputs, {}) != [] by {
      UnspentMember(tx.outputs, {}, IndexedOutput(tx.outputs[0], 0));
    }
    NewestElsewhere(chain, b, k);
    BlockReentry(chain, b, tx.hash);
    NewestEntry(chain, k);
  }

  /** A block of the chain is delivered again as a new one, and the tip moves back to it.  If the newest block has any
      output, as its coinbase does, then the index is still that of the chain walked exactly if the block was the
      newest. */
  lemma {:induction false} OldBlockIndexIff(chain: seq<Block>, b: int)
    requires ValidChain(chain) && 0 <= b < |chain| && CreatesOutput(chain[|chain| - 1])
    ensures Agree(ApplyAll(IndexOf(chain), chain[b].transactions), IndexOf(chain[..b + 1])) <==> b == |chain| - 1
  {
    var n := |chain| - 1;
    if b == n {
      assert chain[..b + 1] == chain;
      NewestAgain(chain);
    } else {
      var k :| 0 <= k < |chain[n].transactions| && chain[n].transactions[k].outputs != [];
      var index, walked := ApplyAll(IndexOf(chain), chain[b].transactions), IndexOf(chain[..b + 1]);
      StaleEntry(chain, b, k);
      if Agree(index, walked) {
        AgreeEverywhere(index, walked, chain[n].transactions[k].hash);
      }
    }
  }

  lemma {:induction false} EarlierIds(chain: seq<Block>, b: int)
    requires 0 <= b < |chain|
    ensures IdsOf(chain[b].transactions) <= IdsOf(Forward(chain[..b + 1])) <= IdsOf(Forward(chain))
  {
    var front := chain[..b + 1];
    assert front[..b] == chain[..b] && chain == front + chain[b + 1..];
    IdsOfConcat(Forward(chain[..b]), chain[b].transactions);
    ForwardConcat(front, chain[b + 1..]);
    IdsOfConcat(Forward(front), Forward(chain[b + 1..]));
  }

  /** Earlier blocks know nothing of a transaction of the newest one. */
  lemma {:induction false} NewestElsewhere(chain: seq<Block>, b: int, k: int)
    requires ValidChain(chain) && 0 <= b < |chain| - 1 && InChain(chain, |chain| - 1, k)
    ensures var id := chain[|chain| - 1].transactions[k].hash;
            FindTx(chain[b].transactions, id) == None && Lookup(IndexOf(chain[..b + 1]), id) == []
  {
    var n := |chain| - 1;
    var id, earlier := chain[n].transactions[k].hash, chain[..b + 1];
    assert id in IdsOf(chain[n].transactions);
    assert ValidNext(chain[..n], chain[n]);
    EarlierIds(chain[..n], b);
    assert chain[..n][..b + 1] == earlier && id !in IdsOf(Forward(earlier));
    var _ := FindTxFound(chain[b].transactions, id);
    var _ := FindTxFound(Forward(earlier), id);
    assert Lookup(IndexOf(earlier), id) == Confirmed(Forward(earlier), id) by {
      ValidAt(chain, b);
      ValidChainFacts(earlier);
      IncrementalIsConfirmed(Forward(earlier), id);
    }
  }

  // ---------- an old block and the walk ----------

  /** A block that passed `verifyBlock` passes it again on every longer chain with unique hashes: the walk does not
      ask what is spent, nor whether the block is there already. */
  lemma {:induction false} OldBlockVerifies(c: Crypto, chain: seq<Block>, b: int, k: int)
    requires UniqueIds(Forward(chain)) && 0 <= b <= k <= |chain| && b < |chain|
    requires VerifyBlockSpec(c, Backward(chain[..b]), chain[b]) == Valid
    ensures VerifyBlockSpec(c, Backward(chain[..k]), chain[b]) == Valid
  {
    var txs, front, longer := chain[b].transactions, chain[..b], chain[..k];
    assert longer == front + chain[b..k] && chain == longer + chain[k..];
    ForwardConcat(longer, chain[k..]);
    UniqueConcat(Forward(longer), Forward(chain[k..]));
    VerifyAllMeans(c, Backward(front), txs);
    VerifyAllMeans(c, Backward(longer), txs);
    forall i | 0 <= i < |txs| ensures Verify(c, Backward(longer), txs[i]) == Valid {
      VerifiedLater(c, front, chain[b..k], txs[i]);
    }
  }

  /** Storing it again leaves the store as it is and moves the tip back: the walk is now the chain up to the block. */
  lemma {:induction false} OldBlockStored(c: Crypto, blocks: map<Bytes, Block>, chain: seq<Block>, b: int)
    requires Linked(c, chain) && Stored(c, blocks, chain) && 0 <= b < |chain|
    ensures blocks[BlockHash(c, chain[b]) := Seal(c, chain[b])] == blocks
    ensures ChainTo(blocks, BlockHash(c, chain[b]), chain[..b + 1])
    ensures Linked(c, chain[..b + 1]) && Stored(c, blocks, chain[..b + 1])
  {
    StoredChain(c, blocks, chain[..b + 1]);
  }

  // ---------- a new block passed around ----------

  /** The full nodes of a network while one block is passed around: the chain each walks, and the deliveries to come. */
  datatype BlockNet = BlockNet(walks: map<Address, seq<Block>>, flight: multiset<Address>)

  /** `handleBlockdataMsg` for the block at position `b`: the walk from it is its predecessors and the block itself,
      whether the node had the block or not. */
  ghost function NextBlock(c: Crypto, links: Links, block: Block, b: nat, net: BlockNet, at: Address): BlockNet
    requires at in links && at in net.walks && b <= |net.walks[at]|
  {
    if VerifyBlockSpec(c, Backward(net.walks[at]), block) == Valid
    then BlockNet(net.walks[at := net.walks[at][..b] + [block]], Relay(links, net.flight, at))
    else BlockNet(net.walks, net.flight - multiset{at})
  }

  /** Every node walks a part of the chain that reaches up to the block or beyond, and every delivery is to a node. */
  ghost predicate BlockNetOk(links: Links, chain: seq<Block>, b: nat, net: BlockNet) {
    && Within(links, net.flight)
    && forall a :: a in links ==> a in net.walks && b <= |net.walks[a]| && net.walks[a] <= chain
  }

  /** The deliveries are possible one after the other. */
  ghost predicate BlockRun(c: Crypto, links: Links, chain: seq<Block>, b: nat, net: BlockNet, run: seq<Address>)
    requires b < |chain|
    decreases |run|
  {
    run != [] ==>
      && run[0] in net.flight && BlockNetOk(links, chain, b, net)
      && BlockRun(c, links, chain, b, NextBlock(c, links, chain[b], b, net, run[0]), run[1..])
  }

  ghost function AfterBlocks(c: Crypto, links: Links, chain: seq<Block>, b: nat, net: BlockNet,
                             run: seq<Address>): BlockNet
    requires b < |chain| && BlockRun(c, links, chain, b, net, run)
    decreases |run|
  {
    if run == [] then net
    else AfterBlocks(c, links, chain, b, NextBlock(c, links, chain[b], b, net, run[0]), run[1..])
  }

  /** A block of the chain that was verified on its predecessors, in a network of nodes that know them. */
  ghost predicate BlockPassedAround(c: Crypto, links: Links, chain: seq<Block>, b: nat, net: BlockNet) {
    && WellLinked(links) && b < |chain| && UniqueIds(Forward(chain))
    && VerifyBlockSpec(c, Backward(chain[..b]), chain[b]) == Valid
    && BlockNetOk(links, chain, b, net)
  }

  lemma {:induction false} BlockStep(c: Crypto, links: Links, chain: seq<Block>, b: nat, net: BlockNet, at: Address)
    requires BlockPassedAround(c, links, chain, b, net) && at in net.flight
    ensures var next := NextBlock(c, links, chain[b], b, net, at);
            && BlockPassedAround(c, links, chain, b, next) && next.flight == Relay(links, net.flight, at)
            && next.walks == net.walks[at := chain[..b + 1]]
  {
    var walk := net.walks[at];
    assert walk == chain[..|walk|] && walk[..b] + [chain[b]] == chain[..b + 1];
    OldBlockVerifies(c, chain, b, |walk|);
    RelayKeeps(links, net.flight, at);
  }

  /** Every delivery of the block is relayed. */
  lemma {:induction false} BlockRunRelays(c: Crypto, links: Links, chain: seq<Block>, b: nat, net: BlockNet,
                                          run: seq<Address>)
    requires BlockPassedAround(c, links, chain, b, net)
    ensures BlockRun(c, links, chain, b, net, run) <==> RelayRun(links, net.flight, run)
    ensures BlockRun(c, links, chain, b, net, run) ==>
              var after := AfterBlocks(c, links, chain, b, net, run);
              after.flight == AfterRelays(links, net.flight, run) && BlockPassedAround(c, links, chain, b, after)
    decreases |run|
  {
    if run != [] && run[0] in net.flight {
      BlockStep(c, links, chain, b, net, run[0]);
      BlockRunRelays(c, links, chain, b, NextBlock(c, links, chain[b], b, net, run[0]), run[1..]);
    }
  }

  /** And it moves the tip of its node to the block, back if need be. */
  lemma {:induction false} BlockRunWalks(c: Crypto, links: Links, chain: seq<Block>, b: nat, net: BlockNet,
                                         run: seq<Address>, a: Address)
    requires BlockPassedAround(c, links, chain, b, net) && BlockRun(c, links, chain, b, net, run) && a in links
    ensures var after := AfterBlocks(c, links, chain, b, net, run);
            a in after.walks && after.walks[a] == if a in run then chain[..b + 1] else net.walks[a]
    decreases |run|
  {
    if run != [] {
      BlockStep(c, links, chain, b, net, run[0]);
      BlockRunWalks(c, links, chain, b, NextBlock(c, links, chain[b], b, net, run[0]), run[1..], a);
      assert a in run <==> a == run[0] || a in run[1..];
    }
  }

  ghost predicate BlockRunsBounded(c: Crypto, links: Links, chain: seq<Block>, b: nat, net: BlockNet, bound: nat)
    requires b < |chain|
  {
    forall run :: BlockRun(c, links, chain, b, net, run) ==> |run| <= bound
  }

  /** When a verified block stops being passed around: exactly if from no node to which a copy is on its way a chain
      of relays is as long as there are nodes. */
  lemma {:induction false} BlockFloodStopsIff(c: Crypto, links: Links, chain: seq<Block>, b: nat, net: BlockNet)
    requires BlockPassedAround(c, links, chain, b, net)
    ensures (exists bound: nat :: BlockRunsBounded(c, links, chain, b, net, bound))
            <==> AllDead(links, |links|, net.flight)
  {
    forall bound: nat
      ensures BlockRunsBounded(c, links, chain, b, net, bound) <==> RunsBounded(links, net.flight, bound)
    {
      forall run ensures BlockRun(c, links, chain, b, net, run) <==> RelayRun(links, net.flight, run) {
        BlockRunRelays(c, links, chain, b, net, run);
      }
    }
    RelayingStopsIff(links, net.flight);
  }

  // ---------- merkleblock messages ----------

  /** The SPV nodes of a network while one merkleblock message is passed around. */
  datatype MessageNet = MessageNet(indexes: map<Address, Index>, flight: multiset<Address>)

  /** What does not change meanwhile: the headers each node has, and the addresses it monitors. */
  datatype SpvSetup = SpvSetup(headers: map<Address, map<Bytes, BlockHeader>>, monitored: map<Address, seq<Address>>)

  ghost predicate SetUp(links: Links, setup: SpvSetup, net: MessageNet) {
    && Within(links, net.flight)
    && forall a :: a in links ==> a in setup.headers && a in setup.monitored && a in net.indexes
  }

  /** `handleMerkleblockMsg`. */
  ghost function NextMessage(c: Crypto, links: Links, setup: SpvSetup, msg: MerkleBlock, net: MessageNet, at: Address):
      MessageNet
    requires SetUp(links, setup, net) && at in links
  {
    if SpvNodes.Believed(c, setup.headers[at], msg)
    then
      var tx := SpvSpec.Filtered(c, msg.transaction, setup.monitored[at]);
      MessageNet(net.indexes[at := Apply(net.indexes[at], tx)], Relay(links, net.flight, at))
    else MessageNet(net.indexes, net.flight - multiset{at})
  }

  ghost predicate MessageRun(c: Crypto, links: Links, setup: SpvSetup, msg: MerkleBlock, net: MessageNet,
                             run: seq<Address>)
    decreases |run|
  {
    run != [] ==>
      && run[0] in net.flight && SetUp(links, setup, net)
      && MessageRun(c, links, setup, msg, NextMessage(c, links, setup, msg, net, run[0]), run[1..])
  }

  ghost function AfterMessages(c: Crypto, links: Links, setup: SpvSetup, msg: MerkleBlock, net: MessageNet,
                               run: seq<Address>): MessageNet
    requires MessageRun(c, links, setup, msg, net, run)
    decreases |run|
  {
    if run == [] then net
    else AfterMessages(c, links, setup, msg, NextMessage(c, links, setup, msg, net, run[0]), run[1..])
  }

  /** Entering a transaction twice is entering it once. */
  lemma {:induction false} ApplyTwice(m: Index, tx: Transaction)
    requires SpentBy(tx.inputs, tx.hash) == {}
    ensures Agree(Apply(Apply(m, tx), tx), Apply(m, tx))
  {
    forall id ensures Lookup(Apply(Apply(m, tx), tx), id) == Lookup(Apply(m, tx), id) {
      ApplyLookup(m, tx, id);
      ApplyLookup(Apply(m, tx), tx, id);
      var spent := SpentBy(tx.inputs, id);
      WithoutTwice(Lookup(m, id), spent, spent);
      assert spent + spent == spent;
    }
  }

  lemma {:induction false} EnteredAgain(start: Index, tx: Transaction, m: Index)
    requires Agree(m, Apply(start, tx)) && SpentBy(tx.inputs, tx.hash) == {}
    ensures Agree(Apply(m, tx), Apply(start, tx))
  {
    NodeRuns.ApplyRespectsAgree(m, Apply(start, tx), tx);
    ApplyTwice(start, tx);
    forall id ensures Lookup(Apply(m, tx), id) == Lookup(Apply(start, tx), id) {
      AgreeEverywhere(Apply(m, tx), Apply(Apply(start, tx), tx), id);
      AgreeEverywhere(Apply(Apply(start, tx), tx), Apply(start, tx), id);
    }
  }

  /** A message that every node of the network believes. */
  ghost predicate MessagePassedAround(c: Crypto, links: Links, setup: SpvSetup, msg: MerkleBlock, net: MessageNet) {
    && WellLinked(links) && SetUp(links, setup, net)
    && (forall a :: a in links ==> SpvNodes.Believed(c, setup.headers[a], msg))
    && SpentBy(msg.transaction.inputs, msg.transaction.hash) == {}
  }

  /** What a node enters of the message. */
  function EnteredBy(c: Crypto, setup: SpvSetup, msg: MerkleBlock, a: Address): Transaction
    requires a in setup.monitored
  {
    SpvSpec.Filtered(c, msg.transaction, setup.monitored[a])
  }

  lemma {:induction false} MessageStep(c: Crypto, links: Links, setup: SpvSetup, msg: MerkleBlock, net: MessageNet,
                                       at: Address)
    requires MessagePassedAround(c, links, setup, msg, net) && at in net.flight
    ensures var next := NextMessage(c, links, setup, msg, net, at);
            && MessagePassedAround(c, links, setup, msg, next) && next.flight == Relay(links, net.flight, at)
            && next.indexes == net.indexes[at := Apply(net.indexes[at], EnteredBy(c, setup, msg, at))]
  {
    RelayKeeps(links, net.flight, at);
  }

  lemma {:induction false} EnteredNotSelf(c: Crypto, setup: SpvSetup, msg: MerkleBlock, a: Address)
    requires a in setup.monitored && SpentBy(msg.transaction.inputs, msg.transaction.hash) == {}
    ensures var tx := EnteredBy(c, setup, msg, a); SpentBy(tx.inputs, tx.hash) == {}
  {
    SpvSpec.FilteredSpends(c, setup.monitored[a], msg.transaction, msg.transaction.hash);
  }

  /** Every delivery is relayed; and to a node whose index had the transaction entered, deliveries do nothing more. */
  lemma {:induction false} MessageRunRelays(c: Crypto, links: Links, setup: SpvSetup, msg: MerkleBlock, net: MessageNet,
                                            run: seq<Address>)
    requires MessagePassedAround(c, links, setup, msg, net)
    ensures MessageRun(c, links, setup, msg, net, run) <==> RelayRun(links, net.flight, run)
    ensures MessageRun(c, links, setup, msg, net, run) ==>
              var after := AfterMessages(c, links, setup, msg, net, run);
              after.flight == AfterRelays(links, net.flight, run) && MessagePassedAround(c, links, setup, msg, after)
    decreases |run|
  {
    if run != [] && run[0] in net.flight {
      MessageStep(c, links, setup, msg, net, run[0]);
      MessageRunRelays(c, links, setup, msg, NextMessage(c, links, setup, msg, net, run[0]), run[1..]);
    }
  }

  /** Entered by every delivery to the node, that is, once. */
  lemma {:induction false} RunIndex(c: Crypto, links: Links, setup: SpvSetup, msg: MerkleBlock, start: Index,
                                    net: MessageNet, run: seq<Address>, a: Address)
    requires MessagePassedAround(c, links, setup, msg, net) && MessageRun(c, links, setup, msg, net, run) && a in links
    requires Agree(net.indexes[a], Apply(start, EnteredBy(c, setup, msg, a)))
    ensures var after := AfterMessages(c, links, setup, msg, net, run);
            a in after.indexes && Agree(after.indexes[a], Apply(start, EnteredBy(c, setup, msg, a)))
    decreases |run|
  {
    if run != [] {
      MessageStep(c, links, setup, msg, net, run[0]);
      if run[0] == a {
        EnteredNotSelf(c, setup, msg, a);
        EnteredAgain(start, EnteredBy(c, setup, msg, a), net.indexes[a]);
      }
      RunIndex(c, links, setup, msg, start, NextMessage(c, links, setup, msg, net, run[0]), run[1..], a);
    }
  }

  ghost predicate MessageRunsBounded(c: Crypto, links: Links, setup: SpvSetup, msg: MerkleBlock, net: MessageNet,
                                     bound: nat) {
    forall run :: MessageRun(c, links, setup, msg, net, run) ==> |run| <= bound
  }

  /** When a believed message stops being passed around: under the same condition as a block. */
  lemma {:induction false} MessageFloodStopsIff(c: Crypto, links: Links, setup: SpvSetup, msg: MerkleBlock,
                                                net: MessageNet)
    requires MessagePassedAround(c, links, setup, msg, net)
    ensures (exists bound: nat :: MessageRunsBounded(c, links, setup, msg, net, bound))
            <==> AllDead(links, |links|, net.flight)
  {
    forall bound: nat
      ensures MessageRunsBounded(c, links, setup, msg, net, bound) <==> RunsBounded(links, net.flight, bound)
    {
      forall run ensures MessageRun(c, links, setup, msg, net, run) <==> RelayRun(links, net.flight, run) {
        MessageRunRelays(c, links, setup, msg, net, run);
      }
    }
    RelayingStopsIff(links, net.flight);
  }

  /** What any run of deliveries does to a node's index: nothing if it got none of them, else what one does. */
  lemma {:induction false} MessageRunIndexes(c: Crypto, links: Links, setup: SpvSetup, msg: MerkleBlock,
                                             net: MessageNet,
                                             run: seq<Address>, a: Address)
    requires MessagePassedAround(c, links, setup, msg, net) && MessageRun(c, links, setup, msg, net, run) && a in links
    ensures var after := AfterMessages(c, links, setup, msg, net, run);
            && a in after.indexes
            && Agree(after.indexes[a],
                     if a in run then Apply(net.indexes[a], EnteredBy(c, setup, msg, a)) else net.indexes[a])
    decreases |run|
  {
    if run != [] {
      var next := NextMessage(c, links, setup, msg, net, run[0]);
      MessageStep(c, links, setup, msg, net, run[0]);
      assert a in run <==> a == run[0] || a in run[1..];
      if run[0] == a {
        RunIndex(c, links, setup, msg, net.indexes[a], next, run[1..], a);
      } else {
        MessageRunIndexes(c, links, setup, msg, next, run[1..], a);
      }
    }
  }
}
