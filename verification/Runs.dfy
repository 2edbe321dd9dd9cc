/** Whole runs of a full node that mixes the two ways of keeping its index: entering newly mined blocks one by
    one, and rebuilding after a synchronisation round. */
module NodeRuns {
  import opened Types
  import opened UtxoSpec
  import ChainSpec
  import UtxoSet
  import opened Admission
  import opened Conservation
  import opened Balances

  /** A newly mined block is stored, or a round adds blocks to the chain and ends with `ReIndex`. */
  datatype Event = NewBlock(block: Block) | SyncRound(blocks: seq<Block>)

  datatype NodeState = NodeState(chain: seq<Block>, index: Index)

  function Step(n: NodeState, e: Event): NodeState {
    match e
    case NewBlock(block) => NodeState(n.chain + [block], ApplyAll(n.index, block.transactions))
    case SyncRound(blocks) => NodeState(n.chain + blocks, Rescan(ChainSpec.Backward(n.chain + blocks)))
  }

  function Run(n: NodeState, events: seq<Event>): NodeState {
    if events == [] then n else Step(Run(n, events[..|events| - 1]), events[|events| - 1])
  }

  /** A node as it starts: the genesis block, with the index that `InitBlockChain` rebuilds at the end. */
  function Start(genesis: Block): NodeState {
    NodeState([genesis], Rescan(ChainSpec.Backward([genesis])))
  }

  /** A step does not tell apart indexes that differ in empty entries only. */
  lemma {:induction false} ApplyRespectsAgree(m: Index, m': Index, tx: Transaction)
    requires Agree(m, m')
    ensures Agree(Apply(m, tx), Apply(m', tx))
  {
    forall id ensures Lookup(Apply(m, tx), id) == Lookup(Apply(m', tx), id) {
      AgreeEverywhere(m, m', id);
      ApplyLookup(m, tx, id);
      ApplyLookup(m', tx, id);
    }
  }

  lemma {:induction false} ApplyAllRespectsAgree(m: Index, m': Index, txs: seq<Transaction>)
    requires Agree(m, m')
    ensures Agree(ApplyAll(m, txs), ApplyAll(m', txs))
  {
    if txs != [] {
      var n := |txs| - 1;
      ApplyAllRespectsAgree(m, m', txs[..n]);
      ApplyRespectsAgree(ApplyAll(m, txs[..n]), ApplyAll(m', txs[..n]), txs[n]);
    }
  }

  /** Main theorem on runs: as long as the chain is valid, whatever mixture of new blocks and rounds produced it,
      the node's index holds exactly the outputs created on its chain and spent by no input on it. */
  lemma {:induction false} RunIndexed(genesis: Block, events: seq<Event>, id: Bytes)
    requires ChainSpec.ValidChain(Run(Start(genesis), events).chain)
    ensures var n := Run(Start(genesis), events);
            Agree(n.index, IndexOf(n.chain)) && Lookup(n.index, id) == Confirmed(ChainSpec.Forward(n.chain), id)
  {
    var n := Run(Start(genesis), events);
    if events != [] && events[|events| - 1].NewBlock? {
      var before, block := Run(Start(genesis), events[..|events| - 1]), events[|events| - 1].block;
      assert n.chain[..|n.chain| - 1] == before.chain;
      RunIndexed(genesis, events[..|events| - 1], id);
      EnteredIndexed(before, block);
    } else {
      RebuiltIndexed(n.chain);
    }
    assert Lookup(n.index, id) == Lookup(IndexOf(n.chain), id) by {
      AgreeEverywhere(n.index, IndexOf(n.chain), id);
    }
    assert Lookup(IndexOf(n.chain), id) == Confirmed(ChainSpec.Forward(n.chain), id) by {
      ChainSpec.IndexesAgree(n.chain);
    }
  }

  lemma {:induction false} EnteredIndexed(before: NodeState, block: Block)
    requires Agree(before.index, IndexOf(before.chain))
    ensures Agree(ApplyAll(before.index, block.transactions), IndexOf(before.chain + [block]))
  {
    var chain := before.chain + [block];
    assert chain[..|chain| - 1] == before.chain;
    ApplyAllRespectsAgree(before.index, IndexOf(before.chain), block.transactions);
    ApplyAllConcat(map[], ChainSpec.Forward(before.chain), block.transactions);
  }

  lemma {:induction false} RebuiltIndexed(chain: seq<Block>)
    requires ChainSpec.ValidChain(chain)
    ensures Agree(Rescan(ChainSpec.Backward(chain)), IndexOf(chain))
  {
    ChainSpec.IndexesAgree(chain);
  }

  /** On every such run of mined blocks the node's index is worth one reward for each block, less the fees.  This
      is the signed sum of all outputs; what it means for a single address is the next theorem. */
  lemma {:induction false} RunValue(c: Crypto, genesis: Block, events: seq<Event>)
    requires MinedChain(c, Run(Start(genesis), events).chain)
    ensures var n := Run(Start(genesis), events);
            Total(n.index) == COINBASE_REWARD * |n.chain| - Fees(n.chain) <= COINBASE_REWARD * |n.chain|
  {
    var n := Run(Start(genesis), events);
    MinedIsValid(c, n.chain);
    RunIndexed(genesis, events, []);
    AgreeTotal(n.index, IndexOf(n.chain));
    ValueConserved(c, n.chain);
  }

  /** On every such run that leaves no negative output unspent, what `FindUTXO` answers for any address is worth no
      more than the rewards. */
  lemma {:induction false} RunBalance(c: Crypto, genesis: Block, events: seq<Event>, address: Address)
    requires MinedChain(c, Run(Start(genesis), events).chain) && NonNegative(Run(Start(genesis), events).index)
    ensures var n := Run(Start(genesis), events);
            0 <= Total(UtxoSet.Owned(c, n.index, address)) <= COINBASE_REWARD * |n.chain|
  {
    var n := Run(Start(genesis), events);
    RunValue(c, genesis, events);
    BalanceAndRest(c, n.index, address);
    PartBounded(n.index, BoundTo(c, address));
    PartBounded(n.index, Rest(BoundTo(c, address)));
  }

  /** A mempool entry stays admissible, with the same sum, while other transactions are entered that spend none of
      its inputs and bring fresh hashes. */
  lemma {:induction false} AdmissionPersists(c: Crypto, m: Index, tx: Transaction, other: Transaction)
    requires forall id :: id in m ==> UniqueIndexes(m[id])
    requires CheckInputs(c, m, tx.inputs) == Accepted && Lookup(m, other.hash) == []
    requires forall i :: 0 <= i < |tx.inputs| ==> tx.inputs[i].vOut !in SpentBy(other.inputs, tx.inputs[i].txID)
    ensures CheckInputs(c, Apply(m, other), tx.inputs) == Accepted
    ensures InputSum(Apply(m, other), tx.inputs) == InputSum(m, tx.inputs)
  {
    var m' := Apply(m, other);
    CheckInputsMeans(c, m, tx.inputs);
    CheckInputsMeans(c, m', tx.inputs);
    forall i | 0 <= i < |tx.inputs|
      ensures CheckInput(c, m', tx.inputs[i]) == Accepted && InputValue(m, tx.inputs[i]) == InputValue(m', tx.inputs[i])
    {
      var x := tx.inputs[i];
      assert CheckInput(c, m, x) == Accepted;
      AcceptedHolds(c, m, tx, i);
      ApplyLookup(m, other, x.txID);
      KeptReference(Lookup(m, x.txID), SpentBy(other.inputs, x.txID), x.vOut);
    }
    SameInputSum(m, m', tx.inputs);
  }
}
