/** `network/spv.go`: the handlers of an SPV node. */
module SpvNodes {
  import opened Types
  import opened UtxoSpec
  import ChainSpec
  import Conservation
  import opened ChainStore
  import Database
  import opened UtxoSet
  import opened BlockChains
  import opened SyncSpec
  import opened SpvSpec
  import opened FullNodes
  import Merkle
  import Gossip

  /** `handleGetheadersMsg` on an SPV node, which also asks back. */
  ghost function SpvGetheadersReply(chain: seq<BlockHeader>, keys: seq<Bytes>, top: Bytes): Reply<BlockHeader>
    requires chain != [] && |keys| == |chain|
  {
    var rest := AfterTarget(chain, keys, top);
    if top !in keys then AskBack(keys[|keys| - 1])
    else if rest == [] then Silent
    else Send(rest[..Min(MAX_HEADERS, |rest|)])
  }

  predicate KnownHeader(c: Crypto, headers: map<Bytes, BlockHeader>, header: BlockHeader) {
    c.headerHash(header) in headers && headers[c.headerHash(header)].timestamp != ""
  }

  /** Full nodes and miners among the peers, other than the sender. */
  function OtherHolders(peers: seq<NodeInfo>, from: Address): seq<Address> {
    if peers == [] then []
    else
      var p := peers[|peers| - 1];
      OtherHolders(peers[..|peers| - 1], from) + if p.nodeType != SPV && p.address != from then [p.address] else []
  }

  /** Whom an SPV node asks for headers: exactly the full nodes and miners it is connected to, but not the sender. */
  lemma {:induction false} OtherHoldersMeans(peers: seq<NodeInfo>, from: Address, a: Address)
    ensures a in OtherHolders(peers, from) <==>
            && a != from
            && exists i :: 0 <= i < |peers| && peers[i].address == a && peers[i].nodeType in {FULLNODE, MINER}
  {
    if peers != [] {
      var n := |peers| - 1;
      OtherHoldersMeans(peers[..n], from, a);
      if i :| 0 <= i < n && peers[..n][i].address == a && peers[..n][i].nodeType != SPV {
        assert peers[i].address == a;
      }
    }
  }

  /** What an SPV node sends to another that holds a prefix of its headers: exactly the next min(2000, missing) ones,
      oldest first, or nothing when level; an unknown header is answered with a question. */
  lemma {:induction false} SpvHeaderReply(c: Crypto, blocks: map<Bytes, Block>, s: seq<Block>, k: int, top: Bytes)
    requires Linked(c, s) && Stored(c, blocks, s) && 0 < k <= |s|
    ensures top == TipHash(c, s[..k]) ==>
              SpvGetheadersReply(Headers(s), Hashes(c, s), top)
              == if k == |s| then Silent else Send(Headers(s)[k..Min(k + MAX_HEADERS, |s|)])
    ensures top !in Hashes(c, s) ==> SpvGetheadersReply(Headers(s), Hashes(c, s), top) == AskBack(TipHash(c, s))
  {
    if top == TipHash(c, s[..k]) {
      AfterTip(c, blocks, s, k);
      assert Hashes(c, s)[k - 1] == top;
      var rest := AfterTarget(Headers(s), Hashes(c, s), top);
      assert rest == Headers(s)[k..];
      if k < |s| {
        assert rest[..Min(MAX_HEADERS, |rest|)] == Headers(s)[k..Min(k + MAX_HEADERS, |s|)];
      }
    }
  }

  /** A merkleblock message is believed if its header is known and its proof leads to the header's root. */
  ghost predicate Believed(c: Crypto, headers: map<Bytes, BlockHeader>, msg: MerkleBlock) {
    && KnownHeader(c, headers, msg.header)
    && Merkle.Fold(c, c.digest(Leaf(msg.transaction)), msg.merklePath) == msg.header.merkleRoot
  }

  class SPVNode {
    const networkAddress: Address
    const blockchainHeader: BlockChainHeader
    var connectedPeers: seq<NodeInfo>
    var forwardedAddrList: seq<Address>
    var monitorAddrList: seq<Address>
    var bloomFilter: seq<Address>
    var requestingBlockHeader: bool

    constructor (c: Crypto, networkAddress: Address, database: Database.LevelDB)
      modifies database`headers, database`lastHash
      ensures fresh(blockchainHeader) && blockchainHeader.database == database && this.networkAddress == networkAddress
      ensures connectedPeers == [] && forwardedAddrList == [] && monitorAddrList == [] && bloomFilter == []
      ensures !requestingBlockHeader
      ensures var g := Seal(c, GenesisBlock(c)).header;
              && blockchainHeader.At([g]) && database.headers == old(database.headers)[c.headerHash(g) := g]
    {
      this.networkAddress := networkAddress;
      blockchainHeader := new BlockChainHeader(c, database);
      connectedPeers, forwardedAddrList, monitorAddrList, bloomFilter := [], [], [], [];
      requestingBlockHeader := false;
    }

    method IsTxnInputOfInterest(c: Crypto, input: TxInput) returns (ok: bool)
      ensures ok <==> InputOfInterest(c, input, monitorAddrList)
    {
      for i := 0 to |monitorAddrList|
        invariant forall j :: 0 <= j < i ==> !IsSignedBy(c, input, monitorAddrList[j])
      {
        if IsSignedBy(c, input, monitorAddrList[i]) {
          return true;
        }
      }
      return false;
    }

    /** Step 1 of `handleMerkleblockMsg`: whom to ask for headers when the header is not known.  Asking anybody is
        remembered for good.  The wait that follows is modelled in `HeaderWait`. */
    method AskHeaders(c: Crypto, header: BlockHeader, from: Address) returns (ask: seq<Address>)
      modifies this`requestingBlockHeader
      ensures ask == if KnownHeader(c, blockchainHeader.database.headers, header) then []
              else OtherHolders(connectedPeers, from)
      ensures requestingBlockHeader == (old(requestingBlockHeader) || ask != [])
    {
      ask := [];
      var known := blockchainHeader.CheckHeaderExistence(c, header);
      if !known {
        for i := 0 to |connectedPeers|
          invariant ask == OtherHolders(connectedPeers[..i], from)
          invariant requestingBlockHeader == (old(requestingBlockHeader) || ask != [])
        {
          assert connectedPeers[..i + 1][..i] == connectedPeers[..i];
          var p := connectedPeers[i];
          if (p.nodeType == FULLNODE || p.nodeType == MINER) && p.address != from {
            requestingBlockHeader := true;
            ask := ask + [p.address];
          }
        }
        assert connectedPeers[..|connectedPeers|] == connectedPeers;
      }
    }

    /** `handleMerkleblockMsg` from step 2 on: check, enter the transaction without its foreign inputs, relay. */
    method HandleMerkleblock(c: Crypto, msg: MerkleBlock) returns (believed: bool, relayTo: seq<Address>)
      modifies blockchainHeader.database`utxo
      ensures believed <==> Believed(c, blockchainHeader.database.headers, msg)
      ensures blockchainHeader.database.utxo
              == if believed
                 then Apply(old(blockchainHeader.database.utxo), Filtered(c, msg.transaction, monitorAddrList))
                 else old(blockchainHeader.database.utxo)
      ensures relayTo == if believed then Select(connectedPeers, {SPV}) else []
    {
      believed := blockchainHeader.CheckHeaderExistence(c, msg.header);
      if !believed {
        return false, [];
      }
      believed := Merkle.CheckProof(c, msg.transaction, msg.merklePath, msg.header.merkleRoot);
      if !believed {
        return false, [];
      }
      var inputs := msg.transaction.inputs;
      var newTxInputs := [];
      for i := 0 to |inputs|
        invariant newTxInputs == InterestingInputs(c, inputs[..i], monitorAddrList)
        invariant blockchainHeader.database.utxo == old(blockchainHeader.database.utxo)
      {
        assert inputs[..i + 1][..i] == inputs[..i];
        var keep := IsTxnInputOfInterest(c, inputs[i]);
        if keep {
          newTxInputs := newTxInputs + [inputs[i]];
        }
      }
      assert inputs[..|inputs|] == inputs;
      var utxoSet := new UTXOSet(blockchainHeader.database);
      utxoSet.UpdateWithNewTransaction(msg.transaction.(inputs := newTxInputs));
      relayTo := SelectPeers(connectedPeers, {SPV});
    }

    method HandleNewAddr(address: Address) returns (filterTo: seq<Address>)
      modifies this`monitorAddrList, this`bloomFilter
      ensures monitorAddrList == bloomFilter == old(monitorAddrList) + [address]
      ensures filterTo == Select(connectedPeers, {FULLNODE})
    {
      monitorAddrList := monitorAddrList + [address];
      bloomFilter := monitorAddrList;
      filterTo := SelectPeers(connectedPeers, {FULLNODE});
    }

    /** `handleNewTxnMsg` on an SPV node: a transaction is passed on unchecked to those who can check it. */
    method HandleNewTxn(tx: Transaction) returns (sendTo: seq<Address>)
      ensures sendTo == Select(connectedPeers, {MINER, FULLNODE})
    {
      sendTo := SelectPeers(connectedPeers, {MINER, FULLNODE});
    }

    /** `handleHeadersMsg`.  An empty list makes the program index before the start of the list.  After a question a
        value is offered to whoever waits for headers. */
    method HandleHeaders(c: Crypto, list: seq<BlockHeader>) returns (crashed: bool, offered: bool)
      modifies blockchainHeader`lastHash, blockchainHeader.database`headers, blockchainHeader.database`lastHash
      ensures crashed <==> list == []
      ensures offered <==> !crashed && requestingBlockHeader
      ensures var db, was := blockchainHeader.database,
                             HeaderReceiver(old(blockchainHeader.database.headers), old(blockchainHeader.lastHash));
              if crashed then
                HeaderReceiver(db.headers, blockchainHeader.lastHash) == was
                && db.lastHash == old(blockchainHeader.database.lastHash)
              else
                && HeaderReceiver(db.headers, blockchainHeader.lastHash) == DeliverHeaders(c, was, list)
                && db.lastHash == blockchainHeader.lastHash
    {
      for i := 0 to |list|
        invariant blockchainHeader.database.headers == PutHeaders(c, old(blockchainHeader.database.headers), list[..i])
        invariant blockchainHeader.lastHash == old(blockchainHeader.lastHash)
        invariant blockchainHeader.database.lastHash == old(blockchainHeader.database.lastHash)
      {
        assert list[..i + 1][..i] == list[..i];
        blockchainHeader.SetHeader(c, list[i]);
      }
      assert list[..|list|] == list;
      if |list| == 0 {
        return true, false;
      }
      blockchainHeader.SetLastHash(c.headerHash(list[|list| - 1]));
      return false, requestingBlockHeader;
    }

    method HandleGetheaders(top: Bytes, ghost chain: seq<BlockHeader>) returns (reply: Reply<BlockHeader>)
      requires blockchainHeader.At(chain)
      ensures reply == SpvGetheadersReply(chain, KeysTo(blockchainHeader.lastHash, chain), top)
    {
      var existed, unmatched := blockchainHeader.GetUnmatchedHeaders(top, chain);
      ReverseTwice(AfterTarget(chain, KeysTo(blockchainHeader.lastHash, chain), top));
      if existed && |unmatched| > 0 {
        var items := TakeOldest(unmatched, MAX_HEADERS);
        return Send(items);
      } else if !existed {
        return AskBack(blockchainHeader.lastHash);
      }
      return Silent;
    }

    ghost function AsPeer(): Gossip.Peer
      reads this
    {
      Gossip.Peer(AddressesOf(connectedPeers), forwardedAddrList)
    }

    method HandleVerack(nodeType: NodeType,
                        from: Address) returns (addrs: seq<Gossip.AddrPacket>, getheaders: Option<Bytes>)
      modifies this`connectedPeers
      ensures var o := Gossip.OnVerack(networkAddress, old(AsPeer()), from); AsPeer() == o.peer && addrs == o.addrs
      ensures connectedPeers == if from in AddressesOf(old(connectedPeers)) then old(connectedPeers)
                                else old(connectedPeers) + [NodeInfo(nodeType, from)]
      ensures getheaders == if from in AddressesOf(old(connectedPeers)) then None else Some(blockchainHeader.lastHash)
    {
      if from in AddressesOf(connectedPeers) {
        return [], None;
      }
      connectedPeers := connectedPeers + [NodeInfo(nodeType, from)];
      assert AddressesOf(connectedPeers) == AddressesOf(old(connectedPeers)) + [from];
      return [Gossip.AddrPacket(from, networkAddress)], Some(blockchainHeader.lastHash);
    }

    method HandleAddr(about: Address) returns (addrs: seq<Gossip.AddrPacket>, handshakes: seq<Gossip.Handshake>)
      modifies this`forwardedAddrList
      ensures Gossip.OnAddr(networkAddress, old(AsPeer()), about) == Gossip.Outcome(AsPeer(), addrs, handshakes)
    {
      addrs, handshakes := [], [];
      if about !in AddressesOf(connectedPeers) {
        handshakes := [Gossip.VersionMsg(about, networkAddress)];
      }
      if about !in forwardedAddrList {
        forwardedAddrList := forwardedAddrList + [about];
        ghost var list := AddressesOf(connectedPeers);
        for i := 0 to |connectedPeers|
          invariant addrs == Gossip.ForwardTo(list[..i], about)
        {
          assert list[..i + 1][..i] == list[..i];
          if connectedPeers[i].address != about {
            addrs := addrs + [Gossip.AddrPacket(connectedPeers[i].address, about)];
          }
        }
        assert list[..|list|] == list;
      }
    }
  }

  // ---------- from the full node's block to the SPV node's index ----------

  /** The messages for one address, in order. */
  function SentTo(messages: seq<Addressed<MerkleBlock>>, to: Address): seq<MerkleBlock> {
    if messages == [] then []
    else
      var last := messages[|messages| - 1];
      SentTo(messages[..|messages| - 1], to) + if last.to == to then [last.message] else []
  }

  /** What handling these messages one after the other does to the index. */
  ghost function Absorb(c: Crypto, headers: map<Bytes, BlockHeader>, monitored: seq<Address>, s: Index,
                        list: seq<MerkleBlock>): Index {
    if list == [] then s
    else
      var before := Absorb(c, headers, monitored, s, list[..|list| - 1]);
      var msg := list[|list| - 1];
      if Believed(c, headers, msg) then Apply(before, Filtered(c, msg.transaction, monitored)) else before
  }

  lemma {:induction false} SentToConcat(a: seq<Addressed<MerkleBlock>>, b: seq<Addressed<MerkleBlock>>, to: Address)
    ensures SentTo(a + b, to) == SentTo(a, to) + SentTo(b, to)
  {
    if b == [] {
      assert a + b == a;
    } else {
      assert (a + b)[..|a + b| - 1] == a + b[..|b| - 1];
      SentToConcat(a, b[..|b| - 1], to);
    }
  }

  lemma {:induction false} NothingFor(c: Crypto, block: Block, tx: Transaction, peers: seq<NodeInfo>,
                                      filters: map<Address, seq<Address>>, to: Address)
    requires block.transactions != [] && to !in AddressesOf(peers)
    ensures SentTo(MessagesFor(c, block, tx, peers, filters), to) == []
  {
    if peers != [] {
      var n := |peers| - 1;
      assert AddressesOf(peers)[n] == peers[n].address;
      assert forall i :: 0 <= i < n ==> AddressesOf(peers)[i] == AddressesOf(peers[..n])[i];
      NothingFor(c, block, tx, peers[..n], filters, to);
      PeersUnfold(c, block, tx, peers, filters, to);
      LastSentTo(c, block, tx, peers[n], filters, to);
    }
  }

  function LastMessage(c: Crypto, block: Block, tx: Transaction, p: NodeInfo, filters: map<Address, seq<Address>>):
      seq<Addressed<MerkleBlock>>
    requires block.transactions != []
  {
    if p.nodeType == SPV && OfInterest(c, tx, FilterOf(filters, p.address))
    then [Addressed(p.address, MerkleBlock(block.header, Merkle.Proof(c, block.transactions, tx), tx))] else []
  }

  /** The message about a transaction, if it is of interest. */
  function AnswerFor(c: Crypto, block: Block, tx: Transaction, monitored: seq<Address>): seq<MerkleBlock>
    requires block.transactions != []
  {
    if OfInterest(c, tx, monitored)
    then [MerkleBlock(block.header, Merkle.Proof(c, block.transactions, tx), tx)] else []
  }

  lemma LastSentTo(c: Crypto, block: Block, tx: Transaction, p: NodeInfo, filters: map<Address, seq<Address>>,
                   to: Address)
    requires block.transactions != []
    ensures SentTo(LastMessage(c, block, tx, p, filters), to)
            == if p == NodeInfo(SPV, to) && OfInterest(c, tx, FilterOf(filters, to))
               then [MerkleBlock(block.header, Merkle.Proof(c, block.transactions, tx), tx)] else []
  {
    var list := LastMessage(c, block, tx, p, filters);
    if list != [] {
      assert list[..0] == [];
      assert SentTo(list[..0], to) == [];
    }
  }

  lemma PeersUnfold(c: Crypto, block: Block, tx: Transaction, peers: seq<NodeInfo>,
                    filters: map<Address, seq<Address>>, to: Address)
    requires block.transactions != [] && peers != []
    ensures SentTo(MessagesFor(c, block, tx, peers, filters), to)
            == SentTo(MessagesFor(c, block, tx, peers[..|peers| - 1], filters), to)
               + SentTo(LastMessage(c, block, tx, peers[|peers| - 1], filters), to)
  {
    SentToConcat(MessagesFor(c, block, tx, peers[..|peers| - 1], filters),
                 LastMessage(c, block, tx, peers[|peers| - 1], filters), to);
  }

  lemma FrontAddresses(peers: seq<NodeInfo>)
    requires peers != [] && Gossip.NoRepeats(AddressesOf(peers))
    ensures Gossip.NoRepeats(AddressesOf(peers[..|peers| - 1]))
    ensures peers[|peers| - 1].address !in AddressesOf(peers[..|peers| - 1])
  {
    var addresses, n := AddressesOf(peers), |peers| - 1;
    assert addresses[n] == peers[n].address;
    assert AddressesOf(peers[..n]) == addresses[..n];
    assert forall i :: 0 <= i < n ==> addresses[i] != addresses[n];
  }

  lemma AbsorbOne(c: Crypto, headers: map<Bytes, BlockHeader>, monitored: seq<Address>, s: Index,
                  block: Block, before: seq<MerkleBlock>, tx: Transaction)
    requires tx in block.transactions && KnownHeader(c, headers, block.header)
    requires block.header.merkleRoot == Merkle.Root(c, block.transactions)
    ensures var msg := MerkleBlock(block.header, Merkle.Proof(c, block.transactions, tx), tx);
            Absorb(c, headers, monitored, s, before + [msg])
            == Apply(Absorb(c, headers, monitored, s, before), Filtered(c, tx, monitored))
  {
    var msg := MerkleBlock(block.header, Merkle.Proof(c, block.transactions, tx), tx);
    Merkle.Completeness(c, block.transactions, tx);
    assert (before + [msg])[..|before|] == before;
  }

  /** What the messages about one transaction, if there are any, do after others. */
  lemma {:induction false} AbsorbAnswer(c: Crypto, headers: map<Bytes, BlockHeader>, monitored: seq<Address>, s: Index,
                                        block: Block, before: seq<MerkleBlock>, tx: Transaction)
    requires tx in block.transactions && KnownHeader(c, headers, block.header)
    requires block.header.merkleRoot == Merkle.Root(c, block.transactions)
    ensures Absorb(c, headers, monitored, s, before + AnswerFor(c, block, tx, monitored))
            == SpvStep(c, monitored, Absorb(c, headers, monitored, s, before), tx)
  {
    if OfInterest(c, tx, monitored) {
      AbsorbOne(c, headers, monitored, s, block, before, tx);
    } else {
      assert before + [] == before;
    }
  }

  /** A connected SPV node is sent a transaction once, and only if its filter matches. */
  lemma {:induction false} OneMessage(c: Crypto, block: Block, tx: Transaction, peers: seq<NodeInfo>,
                                      filters: map<Address, seq<Address>>, to: Address)
    requires block.transactions != [] && Gossip.NoRepeats(AddressesOf(peers)) && NodeInfo(SPV, to) in peers
    ensures SentTo(MessagesFor(c, block, tx, peers, filters), to) == AnswerFor(c, block, tx, FilterOf(filters, to))
  {
    var n := |peers| - 1;
    var front := peers[..n];
    FrontAddresses(peers);
    PeersUnfold(c, block, tx, peers, filters, to);
    LastSentTo(c, block, tx, peers[n], filters, to);
    if peers[n] == NodeInfo(SPV, to) {
      NothingFor(c, block, tx, front, filters, to);
    } else {
      assert peers == front + [peers[n]];
      OneMessage(c, block, tx, front, filters, to);
    }
  }

  lemma {:induction false} SentNext(c: Crypto, block: Block, n: int, peers: seq<NodeInfo>,
                                    filters: map<Address, seq<Address>>, to: Address)
    requires 0 < n <= |block.transactions| && Gossip.NoRepeats(AddressesOf(peers)) && NodeInfo(SPV, to) in peers
    ensures SentTo(MessagesUpTo(c, block, n, peers, filters), to)
            == SentTo(MessagesUpTo(c, block, n - 1, peers, filters), to)
               + AnswerFor(c, block, block.transactions[n - 1], FilterOf(filters, to))
  {
    var tx := block.transactions[n - 1];
    SentToConcat(MessagesUpTo(c, block, n - 1, peers, filters), MessagesFor(c, block, tx, peers, filters), to);
    OneMessage(c, block, tx, peers, filters, to);
  }

  lemma {:induction false} AbsorbNext(c: Crypto, headers: map<Bytes, BlockHeader>, monitored: seq<Address>, s: Index,
                                      block: Block, n: int, before: seq<MerkleBlock>)
    requires 0 < n <= |block.transactions| && KnownHeader(c, headers, block.header)
    requires block.header.merkleRoot == Merkle.Root(c, block.transactions)
    requires Absorb(c, headers, monitored, s, before) == SpvAll(c, monitored, s, block.transactions[..n - 1])
    ensures Absorb(c, headers, monitored, s, before + AnswerFor(c, block, block.transactions[n - 1], monitored))
            == SpvAll(c, monitored, s, block.transactions[..n])
  {
    var tx, txs := block.transactions[n - 1], block.transactions[..n];
    assert txs[..n - 1] == block.transactions[..n - 1];
    AbsorbAnswer(c, headers, monitored, s, block, before, tx);
  }

  /** Handling the messages a full node sends for a block does to the SPV node's index what `SpvAll` says, when the
      full node has its present list, the header is known and the block's root is right. */
  lemma {:induction false} BlockDelivered(c: Crypto, headers: map<Bytes, BlockHeader>, monitored: seq<Address>,
                                          s: Index,
                                          block: Block, n: nat, peers: seq<NodeInfo>,
                                          filters: map<Address, seq<Address>>, to: Address)
    requires n <= |block.transactions| && Gossip.NoRepeats(AddressesOf(peers)) && NodeInfo(SPV, to) in peers
    requires FilterOf(filters, to) == monitored && KnownHeader(c, headers, block.header)
    requires block.transactions != [] && block.header.merkleRoot == Merkle.Root(c, block.transactions)
    ensures Absorb(c, headers, monitored, s, SentTo(MessagesUpTo(c, block, n, peers, filters), to))
            == SpvAll(c, monitored, s, block.transactions[..n])
  {
    if n == 0 {
      assert block.transactions[..0] == [];
    } else {
      BlockDelivered(c, headers, monitored, s, block, n - 1, peers, filters, to);
      SentNext(c, block, n, peers, filters, to);
      AbsorbNext(c, headers, monitored, s, block, n, SentTo(MessagesUpTo(c, block, n - 1, peers, filters), to));
    }
  }

  /** The full node's blocks after genesis carry transactions and the right root, and the SPV node has their headers. */
  ghost predicate HeadersArrived(c: Crypto, headers: map<Bytes, BlockHeader>, chain: seq<Block>) {
    forall b :: 1 <= b < |chain| ==>
      && chain[b].transactions != [] && chain[b].header.merkleRoot == Merkle.Root(c, chain[b].transactions)
      && KnownHeader(c, headers, chain[b].header)
  }

  /** The SPV node's index after the messages that the full node sends it for the blocks of a chain, in order. */
  ghost function DeliveredIndex(c: Crypto, headers: map<Bytes, BlockHeader>, monitored: seq<Address>, chain: seq<Block>,
                                peers: seq<NodeInfo>, filters: map<Address, seq<Address>>, to: Address): Index
    requires HeadersArrived(c, headers, chain)
  {
    if |chain| <= 1 then map[]
    else
      var n := |chain| - 1;
      Absorb(c, headers, monitored, DeliveredIndex(c, headers, monitored, chain[..n], peers, filters, to),
             SentTo(MessagesUpTo(c, chain[n], |chain[n].transactions|, peers, filters), to))
  }

  lemma {:induction false} DeliveredIsFiltered(c: Crypto, headers: map<Bytes, BlockHeader>, monitored: seq<Address>,
                                               chain: seq<Block>,
                                               peers: seq<NodeInfo>, filters: map<Address, seq<Address>>, to: Address)
    requires HeadersArrived(c, headers, chain) && Gossip.NoRepeats(AddressesOf(peers))
    requires NodeInfo(SPV, to) in peers && FilterOf(filters, to) == monitored
    ensures DeliveredIndex(c, headers, monitored, chain, peers, filters, to) == SpvIndex(c, monitored, chain)
  {
    var n := |chain| - 1;
    if n > 0 {
      var block := chain[n];
      DeliveredIsFiltered(c, headers, monitored, chain[..n], peers, filters, to);
      var before := SpvIndex(c, monitored, chain[..n]);
      BlockDelivered(c, headers, monitored, before, block, |block.transactions|, peers, filters, to);
      assert block.transactions[..|block.transactions|] == block.transactions;
    }
  }

  /** From wire to wallet: an SPV node that handles just the messages the full node sends it, filter, proofs and
      all, answers `FindUTXO` for a monitored address as the full node does, before and after a re-index, less the
      outputs of the first block; so the answers are the same exactly if the address has spent those. */
  lemma {:induction false} DeliveredAnswers(c: Crypto, headers: map<Bytes, BlockHeader>, monitored: seq<Address>,
                                            chain: seq<Block>,
                                            peers: seq<NodeInfo>, filters: map<Address, seq<Address>>, to: Address,
                                            a: Address)
    requires HeadersArrived(c, headers, chain) && Gossip.NoRepeats(AddressesOf(peers))
    requires NodeInfo(SPV, to) in peers && FilterOf(filters, to) == monitored
    requires chain != [] && VerifiedChain(c, chain) && a in monitored
    ensures var s := DeliveredIndex(c, headers, monitored, chain, peers, filters, to);
            && Owned(c, s, a) == Owned(c, Conservation.IndexOf(chain), a) - IdsOf(chain[0].transactions)
                              == Owned(c, Rescan(ChainSpec.Backward(chain)), a) - IdsOf(chain[0].transactions)
            && (Owned(c, s, a) == Owned(c, Conservation.IndexOf(chain), a) <==> GenesisSpent(c, chain, a))
  {
    DeliveredIsFiltered(c, headers, monitored, chain, peers, filters, to);
    SpvAnswers(c, monitored, a, chain);
    SpvAnswersAgreeIff(c, monitored, a, chain);
  }

  /** End to end: for a block with the right root, whose header the SPV node has, every message that a full node
      sends is believed, and a message of any origin is believed only for a transaction of the block, unless
      hashed values collide. */
  lemma {:induction false} BelievedIsInBlock(c: Crypto, headers: map<Bytes, BlockHeader>, block: Block,
                                             peers: seq<NodeInfo>,
                                             filters: map<Address, seq<Address>>, msg: Addressed<MerkleBlock>,
                                             other: MerkleBlock)
    requires block.transactions != [] && block.header.merkleRoot == Merkle.Root(c, block.transactions)
    requires KnownHeader(c, headers, block.header)
    requires msg in MessagesUpTo(c, block, |block.transactions|, peers, filters)
    requires other.header == block.header
    ensures Believed(c, headers, msg.message)
    ensures Believed(c, headers, other)
            && Merkle.CollisionFree(c, Merkle.BlockPreimages(c, block.transactions) + {Leaf(other.transaction)}
                                       + Merkle.FoldPreimages(c, c.digest(Leaf(other.transaction)), other.merklePath))
            ==> other.transaction in block.transactions
  {
    MessagesCheck(c, block, |block.transactions|, peers, filters, msg);
    if Believed(c, headers, other)
       && Merkle.CollisionFree(c, Merkle.BlockPreimages(c, block.transactions) + {Leaf(other.transaction)}
                                  + Merkle.FoldPreimages(c, c.digest(Leaf(other.transaction)), other.merklePath)) {
      Merkle.Soundness(c, block.transactions, other.transaction, other.merklePath);
    }
  }
}
