/** Value is conserved: the index is worth what coinbase transactions created, less what was left as fees. */
module Conservation {
  import opened Types
  import opened UtxoSpec
  import opened ChainSpec
  import opened UtxoSet
  import opened Admission

  // ---------- the worth of an index ----------

  function EntrySum(entry: seq<IndexedOutput>): int {
    if entry == [] then 0 else EntrySum(entry[..|entry| - 1]) + entry[|entry| - 1].output.value
  }

  lemma EntrySumSnoc(entry: seq<IndexedOutput>, e: IndexedOutput)
    ensures EntrySum(entry + [e]) == EntrySum(entry) + e.output.value
  {
    assert (entry + [e])[..|entry|] == entry;
  }

  ghost function TotalOver(m: Index, ids: set<Bytes>): int {
    if ids == {} then 0
    else
      var id :| id in ids;
      EntrySum(Lookup(m, id)) + TotalOver(m, ids - {id})
  }

  ghost function Total(m: Index): int {
    TotalOver(m, m.Keys)
  }

  lemma {:induction false} TotalPick(m: Index, ids: set<Bytes>, id: Bytes)
    requires id in ids
    ensures TotalOver(m, ids) == EntrySum(Lookup(m, id)) + TotalOver(m, ids - {id})
    decreases ids
  {
    var pick :| pick in ids && TotalOver(m, ids) == EntrySum(Lookup(m, pick)) + TotalOver(m, ids - {pick});
    if pick != id {
      TotalPick(m, ids - {pick}, id);
      TotalPick(m, ids - {id}, pick);
      assert ids - {pick} - {id} == ids - {id} - {pick};
    }
  }

  /** Two indexes that differ at one transaction only. */
  lemma {:induction false} TotalChange(m: Index, m': Index, ids: set<Bytes>, id: Bytes)
    requires id in ids && forall i :: i in ids && i != id ==> Lookup(m, i) == Lookup(m', i)
    ensures TotalOver(m', ids) == TotalOver(m, ids) - EntrySum(Lookup(m, id)) + EntrySum(Lookup(m', id))
  {
    TotalPick(m, ids, id);
    TotalPick(m', ids, id);
    TotalSame(m, m', ids - {id});
  }

  lemma {:induction false} TotalSame(m: Index, m': Index, ids: set<Bytes>)
    requires forall i :: i in ids ==> Lookup(m, i) == Lookup(m', i)
    ensures TotalOver(m, ids) == TotalOver(m', ids)
    decreases ids
  {
    if ids != {} {
      var id :| id in ids;
      TotalPick(m, ids, id);
      TotalPick(m', ids, id);
      TotalSame(m, m', ids - {id});
    }
  }

  /** Absent entries are worth nothing. */
  lemma {:induction false} TotalWider(m: Index, ids: set<Bytes>)
    requires m.Keys <= ids
    ensures TotalOver(m, ids) == Total(m)
    decreases ids
  {
    if id :| id in ids && id !in m {
      TotalPick(m, ids, id);
      TotalWider(m, ids - {id});
    } else {
      assert ids == m.Keys;
    }
  }

  lemma AgreeTotal(m: Index, m': Index)
    requires Agree(m, m')
    ensures Total(m) == Total(m')
  {
    TotalWider(m, m.Keys + m'.Keys);
    TotalWider(m', m.Keys + m'.Keys);
    TotalSame(m, m', m.Keys + m'.Keys);
  }

  // ---------- spending ----------

  ghost predicate UniqueIndexes(entry: seq<IndexedOutput>) {
    forall i, j :: 0 <= i < j < |entry| ==> entry[i].index != entry[j].index
  }

  lemma {:induction false} UnspentUnique(outputs: seq<TxOutput>, spent: set<int>)
    ensures UniqueIndexes(Unspent(outputs, spent))
  {
    if outputs != [] {
      var n := |outputs| - 1;
      UnspentUnique(outputs[..n], spent);
      forall e | e in Unspent(outputs[..n], spent) ensures e.index < n {
        UnspentMember(outputs[..n], spent, e);
      }
    }
  }

  lemma {:induction false} UnspentSum(outputs: seq<TxOutput>)
    ensures EntrySum(Unspent(outputs, {})) == OutputSum(outputs)
  {
    if outputs != [] {
      UnspentSum(outputs[..|outputs| - 1]);
      var u := Unspent(outputs, {});
      assert u[..|u| - 1] == Unspent(outputs[..|outputs| - 1], {});
    }
  }

  /** Taking one held position out of an entry takes its value out of the sum. */
  lemma {:induction false} WithoutOne(entry: seq<IndexedOutput>, e: IndexedOutput)
    requires UniqueIndexes(entry) && e in entry
    ensures EntrySum(Without(entry, {e.index})) == EntrySum(entry) - e.output.value
  {
    var n := |entry| - 1;
    var w := Without(entry, {e.index});
    if entry[n] == e {
      WithoutAbsent(entry[..n], e.index);
      assert w == entry[..n];
    } else {
      WithoutOne(entry[..n], e);
      assert w[..|w| - 1] == Without(entry[..n], {e.index});
    }
  }

  lemma {:induction false} WithoutAbsent(entry: seq<IndexedOutput>, v: int)
    requires forall i :: 0 <= i < |entry| ==> entry[i].index != v
    ensures Without(entry, {v}) == entry
  {
    if entry != [] {
      WithoutAbsent(entry[..|entry| - 1], v);
    }
  }

  lemma {:induction false} WithoutTwice(entry: seq<IndexedOutput>, s: set<int>, s': set<int>)
    ensures Without(Without(entry, s), s') == Without(entry, s + s')
  {
    if entry != [] {
      var n := |entry| - 1;
      WithoutTwice(entry[..n], s, s');
      var w := Without(entry, s);
      if entry[n].index in s {
        assert w == Without(entry[..n], s);
      } else {
        assert w[..|w| - 1] == Without(entry[..n], s);
      }
    }
  }

  lemma {:induction false} WithoutUnique(entry: seq<IndexedOutput>, spent: set<int>)
    requires UniqueIndexes(entry)
    ensures UniqueIndexes(Without(entry, spent))
  {
    if entry != [] {
      var n := |entry| - 1;
      WithoutUnique(entry[..n], spent);
      forall e | e in Without(entry[..n], spent) ensures e.index != entry[n].index {
        WithoutMember(entry[..n], spent, e);
      }
    }
  }

  /** The index with these inputs taken out, empty entries kept. */
  function Take(m: Index, inputs: seq<TxInput>): Index {
    map id | id in m :: Without(m[id], SpentBy(inputs, id))
  }

  ghost predicate AllHeld(m: Index, inputs: seq<TxInput>) {
    forall i :: 0 <= i < |inputs| ==> Holds(m, inputs[i].txID, inputs[i].vOut)
  }

  lemma TakeStep(m: Index, inputs: seq<TxInput>)
    requires inputs != [] && DistinctInputs(inputs) && AllHeld(m, inputs)
    requires forall id :: id in m ==> UniqueIndexes(m[id])
    ensures var n := |inputs| - 1;
            Total(Take(m, inputs)) == Total(Take(m, inputs[..n])) - InputValue(m, inputs[n])
  {
    var n := |inputs| - 1;
    var x := inputs[n];
    var before, after := Take(m, inputs[..n]), Take(m, inputs);
    assert inputs[..n + 1] == inputs;
    forall id ensures SpentBy(inputs, id) == SpentBy(inputs[..n], id) + if x.txID == id then {x.vOut} else {} {
      SpentBySnoc(inputs, n, id);
    }
    assert Holds(m, x.txID, x.vOut);
    ReferencedMember(m[x.txID], x.vOut);
    var e := IndexedOutput(Referenced(m[x.txID], x.vOut).value, x.vOut);
    WithoutMember(m[x.txID], SpentBy(inputs[..n], x.txID), e);
    WithoutUnique(m[x.txID], SpentBy(inputs[..n], x.txID));
    WithoutOne(before[x.txID], e);
    WithoutTwice(m[x.txID], SpentBy(inputs[..n], x.txID), {x.vOut});
    assert before.Keys == after.Keys == m.Keys;
    forall id | id in m.Keys && id != x.txID ensures Lookup(before, id) == Lookup(after, id) {
      assert SpentBy(inputs, id) == SpentBy(inputs[..n], id);
    }
    TotalChange(before, after, m.Keys, x.txID);
  }

  lemma {:induction false} TakeTotal(m: Index, inputs: seq<TxInput>)
    requires DistinctInputs(inputs) && AllHeld(m, inputs)
    requires forall id :: id in m ==> UniqueIndexes(m[id])
    ensures Total(Take(m, inputs)) == Total(m) - InputSum(m, inputs)
  {
    if inputs == [] {
      forall id | id in m ensures Take(m, [])[id] == m[id] {
        WithoutNothing(m[id]);
        assert SpentBy([], id) == {};
      }
      assert Take(m, []) == m;
    } else {
      var n := |inputs| - 1;
      assert AllHeld(m, inputs[..n]) by {
        forall i | 0 <= i < n ensures Holds(m, inputs[..n][i].txID, inputs[..n][i].vOut) {
          assert Holds(m, inputs[i].txID, inputs[i].vOut);
        }
      }
      TakeTotal(m, inputs[..n]);
      TakeStep(m, inputs);
    }
  }

  /** One transaction changes the worth of the index by its outputs minus what its inputs were worth. */
  lemma {:induction false} ApplyTotal(m: Index, tx: Transaction)
    requires DistinctInputs(tx.inputs) && AllHeld(m, tx.inputs) && Lookup(m, tx.hash) == []
    requires forall id :: id in m ==> UniqueIndexes(m[id])
    ensures Total(Apply(m, tx)) == Total(m) + OutputSum(tx.outputs) - InputSum(m, tx.inputs)
  {
    var taken := Take(m, tx.inputs);
    var outputs := Unspent(tx.outputs, {});
    var m' := taken[tx.hash := outputs];
    NoSelfSpend(m, tx);
    forall id ensures Lookup(Apply(m, tx), id) == Lookup(m', id) {
      ApplyLookup(m, tx, id);
    }
    AgreeTotal(Apply(m, tx), m');
    TakeTotal(m, tx.inputs);
    TotalWider(taken, m'.Keys);
    assert EntrySum(Lookup(taken, tx.hash)) == 0;
    TotalChange(taken, m', m'.Keys, tx.hash);
    UnspentSum(tx.outputs);
  }

  lemma NoSelfSpend(m: Index, tx: Transaction)
    requires AllHeld(m, tx.inputs) && Lookup(m, tx.hash) == []
    ensures SpentBy(tx.inputs, tx.hash) == {}
  {
    forall i | 0 <= i < |tx.inputs| ensures tx.inputs[i].txID != tx.hash {
      assert Holds(m, tx.inputs[i].txID, tx.inputs[i].vOut);
    }
    SpentByNothing(tx.inputs, tx.hash);
  }

  // ---------- a block ----------

  function BlockOutputs(txs: seq<Transaction>): int {
    if txs == [] then 0 else BlockOutputs(txs[..|txs| - 1]) + OutputSum(txs[|txs| - 1].outputs)
  }

  function BlockInputs(m: Index, txs: seq<Transaction>): int {
    if txs == [] then 0 else BlockInputs(m, txs[..|txs| - 1]) + InputSum(m, txs[|txs| - 1].inputs)
  }

  /** The structural part of a valid step, on an index and a list of transactions. */
  ghost predicate GoodStep(m: Index, txs: seq<Transaction>) {
    && UniqueIds(txs) && SpendsHeld(m, txs) && SpentOnce(txs)
    && (forall k :: 0 <= k < |txs| ==> DistinctInputs(txs[k].inputs))
    && (forall k :: 0 <= k < |txs| ==> Lookup(m, txs[k].hash) == [])
    && (forall id :: id in m ==> UniqueIndexes(m[id]))
  }

  lemma GoodPrefix(m: Index, txs: seq<Transaction>)
    requires txs != [] && GoodStep(m, txs)
    ensures GoodStep(m, txs[..|txs| - 1])
  {
    var front := txs[..|txs| - 1];
    forall j, k, id, v | 0 <= j < k < |front| && Spends(front[j], id, v) ensures !Spends(front[k], id, v) {
      assert Spends(txs[j], id, v) && txs[k] == front[k];
    }
    forall k, i | 0 <= k < |front| && 0 <= i < |front[k].inputs|
      ensures Holds(m, front[k].inputs[i].txID, front[k].inputs[i].vOut)
    {
      assert Holds(m, txs[k].inputs[i].txID, txs[k].inputs[i].vOut);
    }
  }

  /** What a prefix of the block leaves of the entries that were there before the block. */
  lemma {:induction false} PrefixLookup(m: Index, txs: seq<Transaction>, id: Bytes)
    requires GoodStep(m, txs)
    ensures id !in IdsOf(txs) ==> Lookup(ApplyAll(m, txs), id) == Without(Lookup(m, id), SpentOn(txs, id))
    ensures UniqueIndexes(Lookup(ApplyAll(m, txs), id))
  {
    if txs == [] {
      WithoutNothing(Lookup(m, id));
    } else {
      var n := |txs| - 1;
      var tx := txs[n];
      GoodPrefix(m, txs);
      PrefixLookup(m, txs[..n], id);
      IdsSplit(txs);
      var before := ApplyAll(m, txs[..n]);
      NoSelfSpendLater(m, tx, txs, n);
      ApplyLookup(before, tx, id);
      WithoutTwice(Lookup(m, id), SpentOn(txs[..n], id), SpentBy(tx.inputs, id));
      UnspentUnique(tx.outputs, {});
      WithoutUnique(Lookup(before, id), SpentBy(tx.inputs, id));
    }
  }

  lemma IdsSplit(txs: seq<Transaction>)
    requires txs != []
    ensures IdsOf(txs) == IdsOf(txs[..|txs| - 1]) + {txs[|txs| - 1].hash}
  {
    assert txs == txs[..|txs| - 1] + [txs[|txs| - 1]];
    IdsOfConcat(txs[..|txs| - 1], [txs[|txs| - 1]]);
    assert IdsOf([txs[|txs| - 1]]) == {txs[|txs| - 1].hash} by {
      assert [txs[|txs| - 1]][0].hash in IdsOf([txs[|txs| - 1]]);
    }
  }

  lemma NoSelfSpendLater(m: Index, tx: Transaction, txs: seq<Transaction>, k: int)
    requires GoodStep(m, txs) && 0 <= k < |txs| && tx == txs[k]
    ensures SpentBy(tx.inputs, tx.hash) == {}
  {
    forall i | 0 <= i < |tx.inputs| ensures Holds(m, tx.inputs[i].txID, tx.inputs[i].vOut) {
      assert Holds(m, txs[k].inputs[i].txID, txs[k].inputs[i].vOut);
    }
    NoSelfSpend(m, tx);
  }

  /** An input of the block's last transaction is worth the same after the transactions before it. */
  lemma LastInput(m: Index, txs: seq<Transaction>, i: int)
    requires txs != [] && GoodStep(m, txs) && 0 <= i < |txs[|txs| - 1].inputs|
    ensures var before := ApplyAll(m, txs[..|txs| - 1]); var x := txs[|txs| - 1].inputs[i];
            Holds(before, x.txID, x.vOut) && InputValue(before, x) == InputValue(m, x)
  {
    var n := |txs| - 1;
    var x := txs[n].inputs[i];
    var before := ApplyAll(m, txs[..n]);
    GoodPrefix(m, txs);
    PrefixLookup(m, txs[..n], x.txID);
    assert Holds(m, x.txID, x.vOut);
    var spent := SpentOn(txs[..n], x.txID);
    assert x.vOut !in spent by {
      SpentOnMember(txs[..n], x.txID, x.vOut);
      assert Spends(txs[n], x.txID, x.vOut);
      forall k | 0 <= k < n ensures !Spends(txs[..n][k], x.txID, x.vOut) {
        assert txs[..n][k] == txs[k];
      }
    }
    assert x.txID !in IdsOf(txs[..n]) by {
      forall k | 0 <= k < n ensures txs[..n][k].hash != x.txID {
        assert Lookup(m, txs[k].hash) == [];
      }
    }
    KeptReference(Lookup(m, x.txID), spent, x.vOut);
  }

  lemma KeptReference(entry: seq<IndexedOutput>, spent: set<int>, v: int)
    requires UniqueIndexes(entry) && v !in spent && exists e :: e in entry && e.index == v
    ensures Referenced(Without(entry, spent), v) == Referenced(entry, v)
    ensures exists e :: e in Without(entry, spent) && e.index == v
  {
    ReferencedMember(entry, v);
    ReferencedMember(Without(entry, spent), v);
    var e := IndexedOutput(Referenced(entry, v).value, v);
    WithoutMember(entry, spent, e);
    if Referenced(Without(entry, spent), v).Some? {
      WithoutMember(entry, spent, IndexedOutput(Referenced(Without(entry, spent), v).value, v));
    }
  }

  lemma {:induction false} SameInputSum(m: Index, m': Index, inputs: seq<TxInput>)
    requires forall i :: 0 <= i < |inputs| ==> InputValue(m, inputs[i]) == InputValue(m', inputs[i])
    ensures InputSum(m, inputs) == InputSum(m', inputs)
  {
    if inputs != [] {
      SameInputSum(m, m', inputs[..|inputs| - 1]);
    }
  }

  lemma {:induction false} BlockTotal(m: Index, txs: seq<Transaction>)
    requires GoodStep(m, txs)
    ensures Total(ApplyAll(m, txs)) == Total(m) + BlockOutputs(txs) - BlockInputs(m, txs)
  {
    if txs != [] {
      var n := |txs| - 1;
      var before := ApplyAll(m, txs[..n]);
      GoodPrefix(m, txs);
      BlockTotal(m, txs[..n]);
      forall i | 0 <= i < |txs[n].inputs|
        ensures Holds(before, txs[n].inputs[i].txID, txs[n].inputs[i].vOut)
        ensures InputValue(m, txs[n].inputs[i]) == InputValue(before, txs[n].inputs[i])
      {
        LastInput(m, txs, i);
      }
      SameInputSum(m, before, txs[n].inputs);
      forall id | id in before ensures UniqueIndexes(before[id]) {
        PrefixLookup(m, txs[..n], id);
      }
      FreshLast(m, txs);
      ApplyTotal(before, txs[n]);
    }
  }

  lemma FreshLast(m: Index, txs: seq<Transaction>)
    requires txs != [] && GoodStep(m, txs)
    ensures Lookup(ApplyAll(m, txs[..|txs| - 1]), txs[|txs| - 1].hash) == []
  {
    var n := |txs| - 1;
    GoodPrefix(m, txs);
    PrefixLookup(m, txs[..n], txs[n].hash);
    forall k | 0 <= k < n ensures txs[..n][k].hash != txs[n].hash {}
  }

  // ---------- runs of blocks ----------

  function IndexOf(chain: seq<Block>): Index {
    ApplyAll(map[], Forward(chain))
  }

  /** A block as a miner assembles it: a coinbase transaction worth the reward, then transactions that were
      admitted against the present index, with sums in the range of a 64-bit integer. */
  ghost predicate MinedNext(c: Crypto, chain: seq<Block>, block: Block) {
    && ValidNext(chain, block)
    && block.transactions != []
    && IsCoinbase(block.transactions[0]) && OutputSum(block.transactions[0].outputs) == COINBASE_REWARD
    && forall k :: 1 <= k < |block.transactions| ==> PaidFor(c, IndexOf(chain), block.transactions[k])
  }

  ghost predicate PaidFor(c: Crypto, m: Index, tx: Transaction) {
    && Admit(c, m, [], tx) == Accepted
    && Fits(InputSum(m, tx.inputs)) && OutputSum(tx.outputs) < TWO63
  }

  ghost predicate MinedChain(c: Crypto, chain: seq<Block>) {
    chain == [] || (MinedChain(c, chain[..|chain| - 1]) && MinedNext(c, chain[..|chain| - 1], chain[|chain| - 1]))
  }

  /** What the admitted transactions of the chain took in beyond what they paid out. */
  function Fees(chain: seq<Block>): int {
    if chain == [] then 0
    else
      var n := |chain| - 1;
      Fees(chain[..n]) + BlockFees(IndexOf(chain[..n]), chain[n].transactions)
  }

  function BlockFees(m: Index, txs: seq<Transaction>): int {
    if |txs| <= 1 then 0
    else BlockFees(m, txs[..|txs| - 1]) + InputSum(m, txs[|txs| - 1].inputs) - OutputSum(txs[|txs| - 1].outputs)
  }

  lemma {:induction false} BlockFeesSum(c: Crypto, m: Index, txs: seq<Transaction>)
    requires txs != [] && IsCoinbase(txs[0]) && OutputSum(txs[0].outputs) == COINBASE_REWARD
    requires forall k :: 1 <= k < |txs| ==> PaidFor(c, m, txs[k])
    ensures BlockOutputs(txs) - BlockInputs(m, txs) == COINBASE_REWARD - BlockFees(m, txs)
    ensures BlockFees(m, txs) >= 0
  {
    var n := |txs| - 1;
    if n == 0 {
      assert txs[..0] == [];
      assert BlockOutputs(txs) == BlockOutputs([]) + COINBASE_REWARD;
      assert BlockInputs(m, txs) == BlockInputs(m, []) + InputSum(m, txs[0].inputs) == 0;
    } else {
      BlockFeesSum(c, m, txs[..n]);
      assert PaidFor(c, m, txs[n]);
      NoOverspendIff(c, m, [], txs[n]);
    }
  }

  lemma {:induction false} MinedIsValid(c: Crypto, chain: seq<Block>)
    requires MinedChain(c, chain)
    ensures ValidChain(chain)
  {
    if chain != [] {
      MinedIsValid(c, chain[..|chain| - 1]);
    }
  }

  lemma IndexUnique(chain: seq<Block>, id: Bytes)
    requires ValidChain(chain)
    ensures UniqueIndexes(Lookup(IndexOf(chain), id))
  {
    ValidChainFacts(chain);
    IncrementalIsConfirmed(Forward(chain), id);
    match FindTx(Forward(chain), id)
    case None =>
    case Some(tx) => UnspentUnique(tx.outputs, SpentOn(Forward(chain), id));
  }

  lemma ValidGoodStep(chain: seq<Block>, block: Block)
    requires ValidChain(chain) && ValidNext(chain, block)
    ensures GoodStep(IndexOf(chain), block.transactions)
  {
    var txs := Forward(chain);
    ValidChainFacts(chain);
    forall k | 0 <= k < |block.transactions| ensures Lookup(IndexOf(chain), block.transactions[k].hash) == [] {
      assert block.transactions[k].hash in IdsOf(block.transactions);
      IncrementalIsConfirmed(txs, block.transactions[k].hash);
      var _ := FindTxFound(txs, block.transactions[k].hash);
    }
    forall id | id in IndexOf(chain) ensures UniqueIndexes(IndexOf(chain)[id]) {
      IndexUnique(chain, id);
    }
  }

  /** What the blocks of the chain put into the index beyond the reward of one block each: their outputs less the
      inputs they spend. */
  function Excess(chain: seq<Block>): int {
    if chain == [] then 0
    else
      var n := |chain| - 1;
      var txs := chain[n].transactions;
      Excess(chain[..n]) + BlockOutputs(txs) - BlockInputs(IndexOf(chain[..n]), txs) - COINBASE_REWARD
  }

  /** Any valid chain, whatever its coinbase transactions and others create: the index is worth the outputs less the
      inputs, and so stays within the rewards exactly if the blocks together create no more than that. */
  lemma {:induction false} ValidTotal(chain: seq<Block>)
    requires ValidChain(chain)
    ensures Total(IndexOf(chain)) == COINBASE_REWARD * |chain| + Excess(chain)
    ensures Total(IndexOf(chain)) <= COINBASE_REWARD * |chain| <==> Excess(chain) <= 0
  {
    if chain != [] {
      var n := |chain| - 1;
      ValidTotal(chain[..n]);
      ValidGoodStep(chain[..n], chain[n]);
      BlockTotal(IndexOf(chain[..n]), chain[n].transactions);
      ApplyAllConcat(map[], Forward(chain[..n]), chain[n].transactions);
    }
  }

  lemma {:induction false} ApplyAllConcat(m: Index, a: seq<Transaction>, b: seq<Transaction>)
    ensures ApplyAll(m, a + b) == ApplyAll(ApplyAll(m, a), b)
  {
    if b == [] {
      assert a + b == a;
    } else {
      assert (a + b)[..|a + b| - 1] == a + b[..|b| - 1];
      ApplyAllConcat(m, a, b[..|b| - 1]);
    }
  }

  /** Main theorem on value: after any run of mined blocks the index, kept or rebuilt, is worth one reward for
      each block, less the fees, and so never more than one reward for each block. */
  lemma {:induction false} ValueConserved(c: Crypto, chain: seq<Block>)
    requires MinedChain(c, chain)
    ensures Total(IndexOf(chain)) == COINBASE_REWARD * |chain| - Fees(chain)
    ensures Total(Rescan(Backward(chain))) == Total(IndexOf(chain)) <= COINBASE_REWARD * |chain|
    ensures Fees(chain) >= 0
  {
    MinedIsValid(c, chain);
    IndexesAgree(chain);
    AgreeTotal(IndexOf(chain), Rescan(Backward(chain)));
    if chain != [] {
      var n := |chain| - 1;
      var txs := chain[n].transactions;
      ValueConserved(c, chain[..n]);
      MinedIsValid(c, chain[..n]);
      ValidGoodStep(chain[..n], chain[n]);
      BlockTotal(IndexOf(chain[..n]), txs);
      BlockFeesSum(c, IndexOf(chain[..n]), txs);
      ApplyAllConcat(map[], Forward(chain[..n]), txs);
    }
  }
}
