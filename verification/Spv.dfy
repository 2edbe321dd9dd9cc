/** The filtered index of an SPV node and its relation to the full index. */
module SpvSpec {
  import opened Types
  import opened UtxoSpec
  import opened ChainSpec
  import opened UtxoSet
  import opened Admission
  import opened Conservation
  import Reentry

  // ---------- the filters ----------

  /** `isTxnInputOfInterest`. */
  predicate InputOfInterest(c: Crypto, input: TxInput, monitored: seq<Address>) {
    exists a :: a in monitored && IsSignedBy(c, input, a)
  }

  /** `isTransactionOfInterest`, applied by the full node with the list the SPV node has sent it. */
  predicate OfInterest(c: Crypto, tx: Transaction, monitored: seq<Address>) {
    exists a :: a in monitored &&
      ((exists i :: 0 <= i < |tx.inputs| && IsSignedBy(c, tx.inputs[i], a))
       || (exists i :: 0 <= i < |tx.outputs| && IsBoundTo(c, tx.outputs[i], a)))
  }

  function InterestingInputs(c: Crypto, inputs: seq<TxInput>, monitored: seq<Address>): seq<TxInput> {
    if inputs == [] then []
    else
      var x := inputs[|inputs| - 1];
      InterestingInputs(c, inputs[..|inputs| - 1], monitored) + if InputOfInterest(c, x, monitored) then [x] else []
  }

  function Filtered(c: Crypto, tx: Transaction, monitored: seq<Address>): Transaction {
    tx.(inputs := InterestingInputs(c, tx.inputs, monitored))
  }

  /** What one transaction of a block does to the SPV node's index. */
  function SpvStep(c: Crypto, monitored: seq<Address>, s: Index, tx: Transaction): Index {
    if OfInterest(c, tx, monitored) then Apply(s, Filtered(c, tx, monitored)) else s
  }

  function SpvAll(c: Crypto, monitored: seq<Address>, s: Index, txs: seq<Transaction>): Index {
    if txs == [] then s
    else SpvStep(c, monitored, SpvAll(c, monitored, s, txs[..|txs| - 1]), txs[|txs| - 1])
  }

  /** The SPV node's index after the blocks of a chain.  It starts empty, without the genesis output. */
  function SpvIndex(c: Crypto, monitored: seq<Address>, chain: seq<Block>): Index {
    if |chain| <= 1 then map[]
    else SpvAll(c, monitored, SpvIndex(c, monitored, chain[..|chain| - 1]), chain[|chain| - 1].transactions)
  }

  // ---------- the relation ----------

  /** For one address the two indexes hold the same outputs. */
  ghost predicate RelatedFor(c: Crypto, a: Address, s: Index, m: Index) {
    forall id :: Bound(c, Lookup(s, id), a) == Bound(c, Lookup(m, id), a)
  }

  lemma RelatedOwned(c: Crypto, a: Address, s: Index, m: Index)
    requires RelatedFor(c, a, s, m)
    ensures Owned(c, s, a) == Owned(c, m, a)
  {
    forall id | id in Owned(c, s, a) || id in Owned(c, m, a)
      ensures id in Owned(c, s, a) && id in Owned(c, m, a) && Owned(c, s, a)[id] == Owned(c, m, a)[id]
    {
      assert Bound(c, Lookup(s, id), a) == Bound(c, Lookup(m, id), a) != [];
    }
  }

  lemma OwnedLess(c: Crypto, a: Address, s: Index, m: Index, missing: set<Bytes>)
    requires forall id :: Bound(c, Lookup(s, id), a) == if id in missing then [] else Bound(c, Lookup(m, id), a)
    ensures Owned(c, s, a) == Owned(c, m, a) - missing
  {
    forall id | id in Owned(c, s, a) || id in Owned(c, m, a) - missing
      ensures id in Owned(c, s, a) && id in Owned(c, m, a) - missing && Owned(c, s, a)[id] == Owned(c, m, a)[id]
    {
      assert Bound(c, Lookup(s, id), a) == if id in missing then [] else Bound(c, Lookup(m, id), a);
      assert Bound(c, Lookup(s, id), a) != [];
    }
  }

  lemma OwnedRelated(c: Crypto, a: Address, s: Index, m: Index)
    requires Owned(c, s, a) == Owned(c, m, a)
    ensures RelatedFor(c, a, s, m)
  {
    forall id ensures Bound(c, Lookup(s, id), a) == Bound(c, Lookup(m, id), a) {
      assert Bound(c, Lookup(s, id), a) == Lookup(Owned(c, s, a), id);
      assert Bound(c, Lookup(m, id), a) == Lookup(Owned(c, m, a), id);
    }
  }

  lemma {:induction false} BoundWithout(c: Crypto, entry: seq<IndexedOutput>, spent: set<int>, a: Address)
    ensures Bound(c, Without(entry, spent), a) == Without(Bound(c, entry, a), spent)
  {
    if entry != [] {
      var n := |entry| - 1;
      BoundWithout(c, entry[..n], spent, a);
      var w, b := Without(entry, spent), Bound(c, entry, a);
      if entry[n].index in spent {
        assert w == Without(entry[..n], spent);
      } else {
        assert w[..|w| - 1] == Without(entry[..n], spent);
      }
      if IsBoundTo(c, entry[n].output, a) {
        assert b[..|b| - 1] == Bound(c, entry[..n], a);
      } else {
        assert b == Bound(c, entry[..n], a);
      }
    }
  }

  lemma {:induction false} InterestingMember(c: Crypto, inputs: seq<TxInput>, monitored: seq<Address>, x: TxInput)
    ensures x in InterestingInputs(c, inputs, monitored) <==> x in inputs && InputOfInterest(c, x, monitored)
  {
    if inputs != [] {
      InterestingMember(c, inputs[..|inputs| - 1], monitored, x);
      assert inputs == inputs[..|inputs| - 1] + [inputs[|inputs| - 1]];
    }
  }

  /** Each input carries the key of the output it names, as verified blocks guarantee. */
  ghost predicate KeysMatch(c: Crypto, m: Index, tx: Transaction) {
    forall i, e :: 0 <= i < |tx.inputs| && e in Lookup(m, tx.inputs[i].txID) && e.index == tx.inputs[i].vOut
                   ==> c.keyHash(tx.inputs[i].scriptSig.pubKey) == e.output.scriptPubKey.pubKeyHash
  }

  lemma FilteredSpends(c: Crypto, monitored: seq<Address>, tx: Transaction, id: Bytes)
    ensures SpentBy(Filtered(c, tx, monitored).inputs, id) <= SpentBy(tx.inputs, id)
  {
    var kept := Filtered(c, tx, monitored).inputs;
    forall v | v in SpentBy(kept, id) ensures v in SpentBy(tx.inputs, id) {
      var i :| 0 <= i < |kept| && kept[i].txID == id && kept[i].vOut == v;
      InterestingMember(c, tx.inputs, monitored, kept[i]);
    }
  }

  /** A spend of a monitored output survives the filter, and makes the transaction interesting. */
  lemma {:induction false} MonitoredSpendKept(c: Crypto, monitored: seq<Address>, a: Address, m: Index,
                                              tx: Transaction, id: Bytes,
                                              e: IndexedOutput)
    requires a in monitored && KeysMatch(c, m, tx) && e in Bound(c, Lookup(m, id), a)
    requires e.index in SpentBy(tx.inputs, id)
    ensures e.index in SpentBy(Filtered(c, tx, monitored).inputs, id) && OfInterest(c, tx, monitored)
  {
    BoundMember(c, Lookup(m, id), a, e);
    var i :| 0 <= i < |tx.inputs| && tx.inputs[i].txID == id && tx.inputs[i].vOut == e.index;
    assert IsSignedBy(c, tx.inputs[i], a);
    InterestingMember(c, tx.inputs, monitored, tx.inputs[i]);
  }

  /** An old entry after the step, on both sides. */
  lemma OldEntry(c: Crypto, monitored: seq<Address>, a: Address, s: Index, m: Index, tx: Transaction, id: Bytes)
    requires a in monitored && Bound(c, Lookup(s, id), a) == Bound(c, Lookup(m, id), a)
    requires KeysMatch(c, m, tx) && id != tx.hash
    ensures Bound(c, Lookup(SpvStep(c, monitored, s, tx), id), a) == Bound(c, Lookup(Apply(m, tx), id), a)
  {
    var kept := Filtered(c, tx, monitored);
    var mine := Bound(c, Lookup(m, id), a);
    forall e | e in mine
      ensures e.index in SpentBy(tx.inputs, id) ==> e.index in SpentBy(kept.inputs, id) && OfInterest(c, tx, monitored)
    {
      if e.index in SpentBy(tx.inputs, id) {
        MonitoredSpendKept(c, monitored, a, m, tx, id, e);
      }
    }
    FilteredSpends(c, monitored, tx, id);
    ApplyLookup(m, tx, id);
    ApplyLookup(s, kept, id);
    BoundWithout(c, Lookup(m, id), SpentBy(tx.inputs, id), a);
    BoundWithout(c, Lookup(s, id), SpentBy(kept.inputs, id), a);
    if OfInterest(c, tx, monitored) {
      WithoutCongruent(mine, SpentBy(tx.inputs, id), SpentBy(kept.inputs, id));
    } else {
      WithoutCongruent(mine, SpentBy(tx.inputs, id), {});
      WithoutNothing(mine);
    }
  }

  lemma {:induction false} NoneBound(c: Crypto, entry: seq<IndexedOutput>, a: Address)
    requires forall e :: e in entry ==> !IsBoundTo(c, e.output, a)
    ensures Bound(c, entry, a) == []
  {
    if entry != [] {
      NoneBound(c, entry[..|entry| - 1], a);
    }
  }

  lemma NewEntry(c: Crypto, monitored: seq<Address>, a: Address, s: Index, m: Index, tx: Transaction)
    requires a in monitored && Bound(c, Lookup(s, tx.hash), a) == Bound(c, Lookup(m, tx.hash), a)
    requires Lookup(m, tx.hash) == [] && SpentBy(tx.inputs, tx.hash) == {}
    ensures Bound(c, Lookup(SpvStep(c, monitored, s, tx), tx.hash), a) == Bound(c, Lookup(Apply(m, tx), tx.hash), a)
  {
    ApplyLookup(m, tx, tx.hash);
    FilteredSpends(c, monitored, tx, tx.hash);
    ApplyLookup(s, Filtered(c, tx, monitored), tx.hash);
    if !OfInterest(c, tx, monitored) {
      var entry := Unspent(tx.outputs, {});
      assert Bound(c, Lookup(s, tx.hash), a) == Bound(c, [], a);
      forall e | e in entry ensures !IsBoundTo(c, e.output, a) {
        UnspentMember(tx.outputs, {}, e);
      }
      NoneBound(c, entry, a);
    }
  }

  /** Entry by entry, the two indexes stay alike for the address over every verified transaction with a fresh
      hash. */
  lemma {:induction false} StepRelated(c: Crypto, monitored: seq<Address>, a: Address, s: Index, m: Index,
                                       tx: Transaction, id: Bytes)
    requires a in monitored && Bound(c, Lookup(s, id), a) == Bound(c, Lookup(m, id), a) && KeysMatch(c, m, tx)
    requires Lookup(m, tx.hash) == [] && SpentBy(tx.inputs, tx.hash) == {}
    ensures Bound(c, Lookup(SpvStep(c, monitored, s, tx), id), a) == Bound(c, Lookup(Apply(m, tx), id), a)
  {
    if id == tx.hash {
      NewEntry(c, monitored, a, s, m, tx);
    } else {
      OldEntry(c, monitored, a, s, m, tx, id);
    }
  }

  // ---------- a block ----------

  lemma KeysMatchLast(c: Crypto, m: Index, txs: seq<Transaction>)
    requires txs != [] && GoodStep(m, txs) && KeysMatch(c, m, txs[|txs| - 1])
    ensures KeysMatch(c, ApplyAll(m, txs[..|txs| - 1]), txs[|txs| - 1])
  {
    var n := |txs| - 1;
    var before := ApplyAll(m, txs[..n]);
    GoodPrefix(m, txs);
    forall i, e | 0 <= i < |txs[n].inputs| && e in Lookup(before, txs[n].inputs[i].txID)
      && e.index == txs[n].inputs[i].vOut
      ensures c.keyHash(txs[n].inputs[i].scriptSig.pubKey) == e.output.scriptPubKey.pubKeyHash
    {
      var id := txs[n].inputs[i].txID;
      assert Holds(m, id, txs[n].inputs[i].vOut);
      forall k | 0 <= k < n ensures txs[..n][k].hash != id {
        assert Lookup(m, txs[k].hash) == [];
      }
      PrefixLookup(m, txs[..n], id);
      WithoutMember(Lookup(m, id), SpentOn(txs[..n], id), e);
    }
  }

  lemma {:induction false} BlockRelated(c: Crypto, monitored: seq<Address>, a: Address, s: Index, m: Index,
                                        txs: seq<Transaction>, id: Bytes)
    requires a in monitored && Bound(c, Lookup(s, id), a) == Bound(c, Lookup(m, id), a) && GoodStep(m, txs)
    requires forall k :: 0 <= k < |txs| ==> KeysMatch(c, m, txs[k])
    ensures Bound(c, Lookup(SpvAll(c, monitored, s, txs), id), a) == Bound(c, Lookup(ApplyAll(m, txs), id), a)
  {
    if txs != [] {
      var n := |txs| - 1;
      GoodPrefix(m, txs);
      BlockRelated(c, monitored, a, s, m, txs[..n], id);
      KeysMatchLast(c, m, txs);
      FreshLast(m, txs);
      NoSelfSpendLater(m, txs[n], txs, n);
      StepRelated(c, monitored, a, SpvAll(c, monitored, s, txs[..n]), ApplyAll(m, txs[..n]), txs[n], id);
    }
  }

  // ---------- runs ----------

  /** Every block but the first passed `verifyTransaction` for each of its transactions. */
  ghost predicate VerifiedChain(c: Crypto, chain: seq<Block>) {
    && ValidChain(chain)
    && forall b, p :: 1 <= b && InChain(chain, b, p) ==>
         Verify(c, Backward(chain[..b]), chain[b].transactions[p]) == Valid
  }

  lemma VerifiedKeysMatch(c: Crypto, chain: seq<Block>, tx: Transaction)
    requires ValidChain(chain) && Verify(c, Backward(chain), tx) == Valid
    ensures KeysMatch(c, IndexOf(chain), tx)
  {
    var txs := Forward(chain);
    ValidChainFacts(chain);
    VerifyMeans(c, chain, tx);
    forall i, e | 0 <= i < |tx.inputs| && e in Lookup(IndexOf(chain), tx.inputs[i].txID) && e.index == tx.inputs[i].vOut
      ensures c.keyHash(tx.inputs[i].scriptSig.pubKey) == e.output.scriptPubKey.pubKeyHash
    {
      var x := tx.inputs[i];
      assert Authorised(c, txs, x);
      var k :| 0 <= k < |txs| && txs[k].hash == x.txID && 0 <= x.vOut < |txs[k].outputs|
               && c.keyHash(x.scriptSig.pubKey) == txs[k].outputs[x.vOut].scriptPubKey.pubKeyHash;
      IncrementalIsConfirmed(txs, x.txID);
      FindTxAt(txs, k);
      UnspentMember(txs[k].outputs, SpentOn(txs, x.txID), e);
    }
  }

  ghost predicate PaysNothingTo(c: Crypto, block: Block, a: Address) {
    forall p, i :: 0 <= p < |block.transactions| && 0 <= i < |block.transactions[p].outputs|
                   ==> !IsBoundTo(c, block.transactions[p].outputs[i], a)
  }

  /** The empty start is right for an address exactly if the first block pays nothing to it. */
  lemma {:induction false} StartRelatedIff(c: Crypto, a: Address, genesis: Block)
    requires ValidChain([genesis])
    ensures RelatedFor(c, a, map[], IndexOf([genesis])) <==> PaysNothingTo(c, genesis, a)
  {
    var m := IndexOf([genesis]);
    if RelatedFor(c, a, map[], m) {
      forall p, i | 0 <= p < |genesis.transactions| && 0 <= i < |genesis.transactions[p].outputs|
        ensures !IsBoundTo(c, genesis.transactions[p].outputs[i], a)
      {
        var tx := genesis.transactions[p];
        var e := IndexedOutput(tx.outputs[i], i);
        FirstBlockIndex(genesis, tx.hash, e);
        assert Bound(c, Lookup(m, tx.hash), a) == Bound(c, Lookup(map[], tx.hash), a) == [];
        BoundMember(c, Lookup(m, tx.hash), a, e);
      }
    }
    if PaysNothingTo(c, genesis, a) {
      forall id ensures Bound(c, Lookup(m, id), a) == Bound(c, Lookup(map[], id), a) {
        forall e | e in Lookup(m, id) ensures !IsBoundTo(c, e.output, a) {
          FirstBlockIndex(genesis, id, e);
        }
        NoneBound(c, Lookup(m, id), a);
      }
    }
  }

  /** After the first block every output it creates is held. */
  lemma {:induction false} FirstBlockIndex(genesis: Block, id: Bytes, e: IndexedOutput)
    requires ValidChain([genesis])
    ensures e in Lookup(IndexOf([genesis]), id) <==>
            exists p :: 0 <= p < |genesis.transactions| && genesis.transactions[p].hash == id
                        && 0 <= e.index < |genesis.transactions[p].outputs|
                           && genesis.transactions[p].outputs[e.index] == e.output
  {
    assert [genesis][..0] == [];
    var txs := genesis.transactions;
    assert Forward([genesis]) == txs;
    ValidChainFacts([genesis]);
    GenesisSpendsNothing(genesis);
    IncrementalIsConfirmed(txs, id);
    ConfirmedMeans(txs, id, e);
    SpentOnMember(txs, id, e.index);
  }

  lemma GenesisSpendsNothing(genesis: Block)
    requires ValidChain([genesis])
    ensures forall id :: SpentOn(genesis.transactions, id) == {}
  {
    assert [genesis][..0] == [] && Forward([]) == [];
    assert SpendsHeld(map[], genesis.transactions);
    forall id ensures SpentOn(genesis.transactions, id) == {} {
      NewSpendsAreOld([], genesis.transactions, id);
    }
  }

  lemma VerifiedPrefix(c: Crypto, chain: seq<Block>)
    requires chain != [] && VerifiedChain(c, chain)
    ensures VerifiedChain(c, chain[..|chain| - 1])
  {
    var front := chain[..|chain| - 1];
    forall b, p | 1 <= b && InChain(front, b, p)
      ensures Verify(c, Backward(front[..b]), front[b].transactions[p]) == Valid
    {
      assert InChain(chain, b, p) && front[..b] == chain[..b];
    }
  }

  /** Blocks of a coinbase and admitted transactions are verified. */
  lemma {:induction false} MinedIsVerified(c: Crypto, chain: seq<Block>)
    requires MinedChain(c, chain)
    ensures VerifiedChain(c, chain)
  {
    MinedIsValid(c, chain);
    if chain != [] {
      var n := |chain| - 1;
      var front := chain[..n];
      MinedIsVerified(c, front);
      ValidChainFacts(front);
      assert front + [] == front;
      forall b, p | 1 <= b && InChain(chain, b, p)
        ensures Verify(c, Backward(chain[..b]), chain[b].transactions[p]) == Valid
      {
        if b < n {
          assert InChain(front, b, p) && front[..b] == chain[..b];
        } else if p > 0 {
          assert PaidFor(c, IndexOf(front), chain[n].transactions[p]);
          AdmissionImpliesVerification(c, front, [], IndexOf(front), [], chain[n].transactions[p]);
        }
      }
    }
  }

  /** Over a run of verified blocks the two indexes are alike, for a monitored address, at every transaction that
      is not in the first block. */
  lemma {:induction false} RunRelated(c: Crypto, monitored: seq<Address>, a: Address, chain: seq<Block>, id: Bytes)
    requires chain != [] && VerifiedChain(c, chain) && a in monitored && id !in IdsOf(chain[0].transactions)
    ensures Bound(c, Lookup(SpvIndex(c, monitored, chain), id), a) == Bound(c, Lookup(IndexOf(chain), id), a)
  {
    var n := |chain| - 1;
    if n == 0 {
      assert chain == [chain[0]];
      var entry := Lookup(IndexOf(chain), id);
      if entry != [] {
        FirstBlockIndex(chain[0], id, entry[0]);
      }
    } else {
      var front, txs := chain[..n], chain[n].transactions;
      VerifiedPrefix(c, chain);
      RunRelated(c, monitored, a, front, id);
      ValidGoodStep(front, chain[n]);
      forall k | 0 <= k < |txs| ensures KeysMatch(c, IndexOf(front), txs[k]) {
        assert InChain(chain, n, k);
        VerifiedKeysMatch(c, front, txs[k]);
      }
      BlockRelated(c, monitored, a, SpvIndex(c, monitored, front), IndexOf(front), txs, id);
      ApplyAllConcat(map[], Forward(front), txs);
    }
  }

  lemma {:induction false} NeverEntered(c: Crypto, monitored: seq<Address>, s: Index, txs: seq<Transaction>, id: Bytes)
    requires Lookup(s, id) == [] && id !in IdsOf(txs)
    ensures Lookup(SpvAll(c, monitored, s, txs), id) == []
  {
    if txs != [] {
      var n := |txs| - 1;
      IdsSplit(txs);
      NeverEntered(c, monitored, s, txs[..n], id);
      ApplyLookup(SpvAll(c, monitored, s, txs[..n]), Filtered(c, txs[n], monitored), id);
    }
  }

  /** The transactions of the first block never get into an SPV node's index. */
  lemma {:induction false} GenesisAbsent(c: Crypto, monitored: seq<Address>, chain: seq<Block>, id: Bytes)
    requires chain != [] && ValidChain(chain) && id in IdsOf(chain[0].transactions)
    ensures id in IdsOf(Forward(chain)) && Lookup(SpvIndex(c, monitored, chain), id) == []
  {
    var n := |chain| - 1;
    if n == 0 {
      assert chain[..0] == [] && Forward(chain) == chain[0].transactions;
    } else {
      GenesisAbsent(c, monitored, chain[..n], id);
      IdsOfConcat(Forward(chain[..n]), chain[n].transactions);
      NeverEntered(c, monitored, SpvIndex(c, monitored, chain[..n]), chain[n].transactions, id);
    }
  }

  /** Main theorem on SPV nodes: over every run of verified blocks, delivered in order and once, `FindUTXO` on the
      filtered index answers for a monitored address what it answers on the full one, kept or rebuilt, less the
      outputs of the first block. */
  lemma {:induction false} SpvAnswers(c: Crypto, monitored: seq<Address>, a: Address, chain: seq<Block>)
    requires chain != [] && VerifiedChain(c, chain) && a in monitored
    ensures Owned(c, SpvIndex(c, monitored, chain), a)
            == Owned(c, IndexOf(chain), a) - IdsOf(chain[0].transactions)
            == Owned(c, Rescan(Backward(chain)), a) - IdsOf(chain[0].transactions)
  {
    var s, m, first := SpvIndex(c, monitored, chain), IndexOf(chain), IdsOf(chain[0].transactions);
    forall id
      ensures Bound(c, Lookup(s, id), a) == if id in first then [] else Bound(c, Lookup(m, id), a)
    {
      if id in first {
        GenesisAbsent(c, monitored, chain, id);
      } else {
        RunRelated(c, monitored, a, chain, id);
      }
    }
    OwnedLess(c, a, s, m, first);
    IndexesAgree(chain);
    AgreeOwned(c, m, Rescan(Backward(chain)), a);
  }

  /** Whatever the first block paid to the address has been spent on the chain. */
  ghost predicate GenesisSpent(c: Crypto, chain: seq<Block>, a: Address)
    requires chain != []
  {
    forall p, i :: InChain(chain, 0, p) && 0 <= i < |chain[0].transactions[p].outputs|
                   && IsBoundTo(c, chain[0].transactions[p].outputs[i], a)
                   ==> i in SpentOn(Forward(chain), chain[0].transactions[p].hash)
  }

  /** What the full index owns among the transactions of the first block. */
  lemma GenesisEntry(c: Crypto, a: Address, chain: seq<Block>, p: int, i: int)
    requires ValidChain(chain) && InChain(chain, 0, p) && 0 <= i < |chain[0].transactions[p].outputs|
    requires IsBoundTo(c, chain[0].transactions[p].outputs[i], a)
    ensures var tx := chain[0].transactions[p];
            IndexedOutput(tx.outputs[i], i) in Bound(c, Lookup(IndexOf(chain), tx.hash), a)
            <==> i !in SpentOn(Forward(chain), tx.hash)
  {
    var txs, tx := Forward(chain), chain[0].transactions[p];
    ValidChainFacts(chain);
    CreatorAt(chain, 0, p);
    IncrementalIsConfirmed(txs, tx.hash);
    UnspentMember(tx.outputs, SpentOn(txs, tx.hash), IndexedOutput(tx.outputs[i], i));
    BoundMember(c, Lookup(IndexOf(chain), tx.hash), a, IndexedOutput(tx.outputs[i], i));
  }

  /** When the answers are the same: exactly if the address has spent whatever the first block paid to it. */
  lemma {:induction false} SpvAnswersAgreeIff(c: Crypto, monitored: seq<Address>, a: Address, chain: seq<Block>)
    requires chain != [] && VerifiedChain(c, chain) && a in monitored
    ensures Owned(c, SpvIndex(c, monitored, chain), a) == Owned(c, IndexOf(chain), a) <==> GenesisSpent(c, chain, a)
  {
    var m, ids := IndexOf(chain), IdsOf(chain[0].transactions);
    assert Owned(c, SpvIndex(c, monitored, chain), a) == Owned(c, m, a) - ids by {
      SpvAnswers(c, monitored, a, chain);
    }
    if GenesisSpent(c, chain, a) {
      forall id | id in ids ensures id !in Owned(c, m, a) {
        GenesisGone(c, a, chain, id);
      }
    } else {
      var id := GenesisLeft(c, a, chain);
      assert id in ids && id in Owned(c, m, a);
    }
  }

  lemma {:induction false} GenesisLeft(c: Crypto, a: Address, chain: seq<Block>) returns (id: Bytes)
    requires chain != [] && ValidChain(chain) && !GenesisSpent(c, chain, a)
    ensures id in IdsOf(chain[0].transactions) && id in Owned(c, IndexOf(chain), a)
  {
    var first := chain[0].transactions;
    var p, i :| InChain(chain, 0, p) && 0 <= i < |first[p].outputs| && IsBoundTo(c, first[p].outputs[i], a)
                && i !in SpentOn(Forward(chain), first[p].hash);
    GenesisEntry(c, a, chain, p, i);
    id := first[p].hash;
  }

  lemma GenesisGone(c: Crypto, a: Address, chain: seq<Block>, id: Bytes)
    requires chain != [] && ValidChain(chain) && GenesisSpent(c, chain, a) && id in IdsOf(chain[0].transactions)
    ensures Bound(c, Lookup(IndexOf(chain), id), a) == []
  {
    var txs, entry := Forward(chain), Lookup(IndexOf(chain), id);
    var p :| 0 <= p < |chain[0].transactions| && chain[0].transactions[p].hash == id;
    ValidChainFacts(chain);
    assert InChain(chain, 0, p);
    CreatorAt(chain, 0, p);
    IncrementalIsConfirmed(txs, id);
    forall e | e in entry ensures !IsBoundTo(c, e.output, a) {
      UnspentMember(chain[0].transactions[p].outputs, SpentOn(txs, id), e);
    }
    NoneBound(c, entry, a);
  }

  // ---------- a message delivered twice ----------

  lemma {:induction false} BoundUnspentSame(c: Crypto, outputs: seq<TxOutput>, spent: set<int>, a: Address)
    ensures Bound(c, Unspent(outputs, {}), a) == Bound(c, Unspent(outputs, spent), a)
            <==> forall i :: 0 <= i < |outputs| && IsBoundTo(c, outputs[i], a) ==> i !in spent
  {
    var all, left := Unspent(outputs, {}), Unspent(outputs, spent);
    if forall i :: 0 <= i < |outputs| && IsBoundTo(c, outputs[i], a) ==> i !in spent {
      WithoutUnspent(outputs, {}, spent);
      assert {} + spent == spent;
      BoundWithout(c, all, spent, a);
      var mine := Bound(c, all, a);
      forall e | e in mine ensures e.index !in spent {
        BoundMember(c, all, a, e);
        UnspentMember(outputs, {}, e);
      }
      WithoutCongruent(mine, spent, {});
      WithoutNothing(mine);
    } else {
      var i :| 0 <= i < |outputs| && IsBoundTo(c, outputs[i], a) && i in spent;
      var e := IndexedOutput(outputs[i], i);
      UnspentMember(outputs, {}, e);
      UnspentMember(outputs, spent, e);
      BoundMember(c, all, a, e);
      BoundMember(c, left, a, e);
    }
  }

  /** An output that the index holds is spent by no transaction of the chain. */
  lemma HeldNotSpent(chain: seq<Block>, k: int, id: Bytes, e: IndexedOutput)
    requires ValidChain(chain) && 0 <= k < |Forward(chain)| && e in Lookup(IndexOf(chain), id)
    ensures e.index !in SpentBy(Forward(chain)[k].inputs, id)
  {
    Reentry.HeldUnspent(chain, id, e);
    SpentOnMember(Forward(chain), id, e.index);
    assert !Spends(Forward(chain)[k], id, e.index);
  }

  /** Entries of other transactions do not change when a confirmed transaction is delivered again: what it
      spends is gone already. */
  lemma RedeliveryElsewhere(c: Crypto, monitored: seq<Address>, a: Address, chain: seq<Block>, s: Index, k: int,
                            id: Bytes)
    requires ValidChain(chain) && RelatedFor(c, a, s, IndexOf(chain)) && 0 <= k < |Forward(chain)|
    requires id != Forward(chain)[k].hash
    ensures Bound(c, Lookup(SpvStep(c, monitored, s, Forward(chain)[k]), id), a)
            == Bound(c, Lookup(IndexOf(chain), id), a)
  {
    var tx := Filtered(c, Forward(chain)[k], monitored);
    ApplyLookup(s, tx, id);
    BoundWithout(c, Lookup(s, id), SpentBy(tx.inputs, id), a);
    FilteredSpends(c, monitored, Forward(chain)[k], id);
    var mine := Bound(c, Lookup(IndexOf(chain), id), a);
    forall e | e in mine ensures e.index !in SpentBy(tx.inputs, id) {
      BoundMember(c, Lookup(IndexOf(chain), id), a, e);
      HeldNotSpent(chain, k, id, e);
    }
    WithoutCongruent(mine, SpentBy(tx.inputs, id), {});
    WithoutNothing(mine);
  }

  lemma {:induction false} RedeliveredEntry(c: Crypto, monitored: seq<Address>, chain: seq<Block>, s: Index, k: int)
    requires ValidChain(chain) && 0 <= k < |Forward(chain)| && OfInterest(c, Forward(chain)[k], monitored)
    ensures var tx := Forward(chain)[k];
            && Lookup(SpvStep(c, monitored, s, tx), tx.hash) == Unspent(tx.outputs, {})
            && Lookup(IndexOf(chain), tx.hash) == Unspent(tx.outputs, SpentOn(Forward(chain), tx.hash))
  {
    var tx := Forward(chain)[k];
    Reentry.RightEntry(chain, tx);
    assert SpentBy(tx.inputs, tx.hash) == {} by {
      ValidChainFacts(chain);
      Reentry.CausalNamesNot(Forward(chain), tx);
    }
    FilteredSpends(c, monitored, tx, tx.hash);
    ApplyLookup(s, Filtered(c, tx, monitored), tx.hash);
  }

  /** Delivering a confirmed transaction of interest again keeps the answers for an address right exactly if none
      of the outputs it pays to that address has been spent. */
  lemma {:induction false} RedeliveryHarmlessIff(c: Crypto, monitored: seq<Address>, a: Address, chain: seq<Block>,
                                                 s: Index, k: int)
    requires ValidChain(chain) && RelatedFor(c, a, s, IndexOf(chain)) && 0 <= k < |Forward(chain)|
    requires OfInterest(c, Forward(chain)[k], monitored)
    ensures var tx := Forward(chain)[k];
            Owned(c, SpvStep(c, monitored, s, tx), a) == Owned(c, IndexOf(chain), a)
            <==> forall i :: 0 <= i < |tx.outputs| && IsBoundTo(c, tx.outputs[i], a) ==>
                   i !in SpentOn(Forward(chain), tx.hash)
  {
    var tx := Forward(chain)[k];
    var s', m := SpvStep(c, monitored, s, tx), IndexOf(chain);
    RedeliveredEntry(c, monitored, chain, s, k);
    BoundUnspentSame(c, tx.outputs, SpentOn(Forward(chain), tx.hash), a);
    if Bound(c, Lookup(s', tx.hash), a) == Bound(c, Lookup(m, tx.hash), a) {
      forall id ensures Bound(c, Lookup(s', id), a) == Bound(c, Lookup(m, id), a) {
        if id != tx.hash {
          RedeliveryElsewhere(c, monitored, a, chain, s, k, id);
        }
      }
      RelatedOwned(c, a, s', m);
    } else if Owned(c, s', a) == Owned(c, m, a) {
      OwnedRelated(c, a, s', m);
      assert false;
    }
  }
}
