/** `blockchain/utxoset.go`: the index of unspent outputs as the program keeps it in the database. */
module UtxoSet {
  import opened Types
  import opened UtxoSpec
  import opened ChainSpec
  import ChainStore
  import opened Database

  // ---------- what the queries answer ----------

  function Bound(c: Crypto, entry: seq<IndexedOutput>, address: Address): seq<IndexedOutput> {
    if entry == [] then []
    else
      var e := entry[|entry| - 1];
      Bound(c, entry[..|entry| - 1], address) + if IsBoundTo(c, e.output, address) then [e] else []
  }

  /** The entries that `FindUTXO` returns: for every transaction the outputs bound to the address, if any. */
  function Owned(c: Crypto, m: Index, address: Address): Index {
    map id | id in m && Bound(c, m[id], address) != [] :: Bound(c, m[id], address)
  }

  function Referenced(entry: seq<IndexedOutput>, v: int): Option<TxOutput> {
    if entry == [] then None
    else if entry[0].index == v then Some(entry[0].output)
    else Referenced(entry[1..], v)
  }

  lemma {:induction false} BoundMember(c: Crypto, entry: seq<IndexedOutput>, address: Address, e: IndexedOutput)
    ensures e in Bound(c, entry, address) <==> e in entry && IsBoundTo(c, e.output, address)
  {
    if entry == [] {
    } else {
      BoundMember(c, entry[..|entry| - 1], address, e);
    }
  }

  /** Indexes that agree up to empty entries give the same answer for every address. */
  lemma {:induction false} AgreeOwned(c: Crypto, m: Index, m': Index, address: Address)
    requires Agree(m, m')
    ensures Owned(c, m, address) == Owned(c, m', address)
  {
    forall id | id in Owned(c, m, address) || id in Owned(c, m', address)
      ensures id in Owned(c, m, address) && id in Owned(c, m', address)
      ensures Owned(c, m, address)[id] == Owned(c, m', address)[id]
    {
      AgreeEverywhere(m, m', id);
      assert Bound(c, Lookup(m, id), address) != [];
    }
  }

  /** What `FindUTXO` answers on a valid chain, from either index, stated on the chain alone. */
  lemma {:induction false} FindUTXOMeans(c: Crypto, chain: seq<Block>, address: Address, id: Bytes, e: IndexedOutput)
    requires ValidChain(chain)
    ensures Owned(c, ApplyAll(map[], Forward(chain)), address) == Owned(c, Rescan(Backward(chain)), address)
    ensures e in Lookup(Owned(c, Rescan(Backward(chain)), address), id) <==>
            && IsBoundTo(c, e.output, address)
            && (exists k :: 0 <= k < |Forward(chain)| && Forward(chain)[k].hash == id
                            && 0 <= e.index < |Forward(chain)[k].outputs|
                               && Forward(chain)[k].outputs[e.index] == e.output)
            && !exists k :: 0 <= k < |Forward(chain)| && Spends(Forward(chain)[k], id, e.index)
  {
    var m := Rescan(Backward(chain));
    IndexesAgree(chain);
    AgreeOwned(c, ApplyAll(map[], Forward(chain)), m, address);
    ValidChainFacts(chain);
    ConfirmedMeans(Forward(chain), id, e);
    BoundMember(c, Lookup(m, id), address, e);
    assert Lookup(m, id) == Confirmed(Forward(chain), id);
  }

  // ---------- the maps and lists the loops build ----------

  function AsSet(s: seq<int>): set<int> {
    set v | v in s
  }

  function SpentIn(spent: map<Bytes, seq<int>>, id: Bytes): set<int> {
    if id in spent then AsSet(spent[id]) else {}
  }

  ghost function WithEntry(m: Index, id: Bytes, entry: seq<IndexedOutput>): Index {
    if entry == [] then m else m[id := entry]
  }

  function AddSpend(spent: map<Bytes, seq<int>>, input: TxInput): map<Bytes, seq<int>> {
    spent[input.txID := (if input.txID in spent then spent[input.txID] else []) + [input.vOut]]
  }

  lemma AddSpendEffect(spent: map<Bytes, seq<int>>, input: TxInput, id: Bytes)
    ensures SpentIn(AddSpend(spent, input), id)
            == SpentIn(spent, id) + if input.txID == id then {input.vOut} else {}
  {
  }

  /** Appends every input's output position to the list of the transaction it names. */
  method AddSpends(spent0: map<Bytes, seq<int>>, inputs: seq<TxInput>) returns (spent: map<Bytes, seq<int>>)
    ensures spent.Keys == spent0.Keys + set i | 0 <= i < |inputs| :: inputs[i].txID
    ensures forall id :: SpentIn(spent, id) == SpentIn(spent0, id) + SpentBy(inputs, id)
  {
    spent := spent0;
    for i := 0 to |inputs|
      invariant spent.Keys == spent0.Keys + set j | 0 <= j < i :: inputs[j].txID
      invariant forall id :: SpentIn(spent, id) == SpentIn(spent0, id) + SpentBy(inputs[..i], id)
    {
      ghost var before := spent;
      spent := AddSpend(spent, inputs[i]);
      forall id ensures SpentIn(spent, id) == SpentIn(spent0, id) + SpentBy(inputs[..i + 1], id) {
        SpentBySnoc(inputs, i, id);
        AddSpendEffect(before, inputs[i], id);
      }
    }
    assert inputs[..|inputs|] == inputs;
  }

  lemma SpentBySnoc(inputs: seq<TxInput>, i: int, id: Bytes)
    requires 0 <= i < |inputs|
    ensures SpentBy(inputs[..i + 1], id)
            == SpentBy(inputs[..i], id) + if inputs[i].txID == id then {inputs[i].vOut} else {}
  {
    var a, b := inputs[..i], inputs[..i + 1];
    assert b == a + [inputs[i]];
    forall v | v in SpentBy(a, id) ensures v in SpentBy(b, id) {
      var j :| 0 <= j < |a| && a[j].txID == id && a[j].vOut == v;
      assert b[j] == a[j];
    }
    if inputs[i].txID == id {
      assert b[i].vOut in SpentBy(b, id);
    }
    forall v | v in SpentBy(b, id) ensures v in SpentBy(a, id) || (inputs[i].txID == id && v == inputs[i].vOut) {
      var j :| 0 <= j < |b| && b[j].txID == id && b[j].vOut == v;
      if j < i {
        assert a[j] == b[j];
      }
    }
  }

  /** The index after the part of the batch that covers the new outputs and the spent transactions `done`. */
  ghost function Partial(m: Index, tx: Transaction, done: set<Bytes>): Index {
    map id | id in m.Keys + {tx.hash} && (id in done ==> After(m, tx, id).Some?)
           :: if id in done then After(m, tx, id).value else if id == tx.hash then Unspent(tx.outputs, {}) else m[id]
  }

  lemma PartialStep(m: Index, tx: Transaction, done: set<Bytes>, id: Bytes)
    requires exists i :: 0 <= i < |tx.inputs| && tx.inputs[i].txID == id
    ensures var rest := Without(Lookup(m, id), SpentBy(tx.inputs, id));
            Partial(m, tx, done + {id})
            == if rest == [] then Partial(m, tx, done) - {id} else Partial(m, tx, done)[id := rest]
  {
  }

  lemma BatchStep(m: Index, tx: Transaction, batch: seq<WriteOp>, done: set<Bytes>, id: Bytes, rest: seq<IndexedOutput>)
    requires exists i :: 0 <= i < |tx.inputs| && tx.inputs[i].txID == id
    requires ApplyBatch(m, batch) == Partial(m, tx, done) && rest == Without(Lookup(m, id), SpentBy(tx.inputs, id))
    ensures ApplyBatch(m, batch + [if rest == [] then Delete(id) else Put(id, rest)]) == Partial(m, tx, done + {id})
  {
    var op := if rest == [] then Delete(id) else Put(id, rest);
    assert (batch + [op])[..|batch|] == batch;
    PartialStep(m, tx, done, id);
  }

  lemma PartialAll(m: Index, tx: Transaction, done: set<Bytes>)
    requires forall id :: id in done <==> exists i :: 0 <= i < |tx.inputs| && tx.inputs[i].txID == id
    ensures Partial(m, tx, done) == Apply(m, tx)
  {
  }

  /** The loop that drops spent positions from a stored entry. */
  method Keep(entry: seq<IndexedOutput>, spent: seq<int>) returns (rest: seq<IndexedOutput>)
    ensures rest == Without(entry, AsSet(spent))
  {
    rest := [];
    for i := 0 to |entry|
      invariant rest == Without(entry[..i], AsSet(spent))
    {
      assert entry[..i + 1][..i] == entry[..i];
      if entry[i].index !in spent {
        rest := rest + [entry[i]];
      }
    }
    assert entry[..|entry|] == entry;
  }

  /** The loop that numbers outputs, leaving out those already spent. */
  method KeepOutputs(outputs: seq<TxOutput>, spent: seq<int>) returns (entry: seq<IndexedOutput>)
    ensures entry == Unspent(outputs, AsSet(spent))
  {
    entry := [];
    for i := 0 to |outputs|
      invariant entry == Unspent(outputs[..i], AsSet(spent))
    {
      assert outputs[..i + 1][..i] == outputs[..i];
      if i !in spent {
        entry := entry + [IndexedOutput(outputs[i], i)];
      }
    }
    assert outputs[..|outputs|] == outputs;
  }

  lemma BoundSnoc(c: Crypto, entry: seq<IndexedOutput>, i: int, address: Address)
    requires 0 <= i < |entry|
    ensures Bound(c, entry[..i + 1], address)
            == if IsBoundTo(c, entry[i].output, address) then Bound(c, entry[..i], address) + [entry[i]]
               else Bound(c, entry[..i], address)
  {
    assert entry[..i + 1][..i] == entry[..i];
  }

  /** The inner loop of `FindUTXO`. */
  method AppendBound(c: Crypto, before: Index, id: Bytes, entry: seq<IndexedOutput>,
                     address: Address) returns (utxoMap: Index)
    requires id !in before
    ensures utxoMap == WithEntry(before, id, Bound(c, entry, address))
  {
    utxoMap := before;
    for i := 0 to |entry|
      invariant utxoMap == WithEntry(before, id, Bound(c, entry[..i], address))
    {
      BoundSnoc(c, entry, i, address);
      if IsBoundTo(c, entry[i].output, address) {
        utxoMap := utxoMap[id := (if id in utxoMap then utxoMap[id] else []) + [entry[i]]];
      }
    }
    assert entry[..|entry|] == entry;
  }

  lemma OwnedStep(c: Crypto, m: Index, address: Address, keys: set<Bytes>, id: Bytes)
    requires id in keys && keys <= m.Keys
    ensures Owned(c, m, address) - (keys - {id}) == WithEntry(Owned(c, m, address) - keys, id, Bound(c, m[id], address))
  {
  }

  lemma BackwardStep(scanned: seq<Transaction>, chain: seq<Block>)
    requires chain != []
    ensures scanned + Backward(chain)
            == scanned + chain[|chain| - 1].transactions + Backward(chain[..|chain| - 1])
  {
    Associative(scanned, chain[|chain| - 1].transactions, Backward(chain[..|chain| - 1]));
  }

  lemma OneMore(scanned: seq<Transaction>, txs: seq<Transaction>, i: int)
    requires 0 <= i < |txs|
    ensures scanned + txs[..i] + [txs[i]] == scanned + txs[..i + 1]
  {
  }

  lemma Associative(a: seq<Transaction>, b: seq<Transaction>, d: seq<Transaction>)
    ensures a + (b + d) == a + b + d
  {
  }

  ghost predicate RecordsSpends(spent: map<Bytes, seq<int>>, scanned: seq<Transaction>) {
    forall id :: SpentIn(spent, id) == SpentOn(scanned, id)
  }

  // ---------- the class ----------

  class UTXOSet {
    const database: LevelDB

    constructor (database: LevelDB)
      ensures this.database == database
    {
      this.database := database;
    }

    /** Builds one batch: the new outputs first, then for each spent transaction, in any order, what is left
        of it or its deletion.  All reads see the database as it was before the batch. */
    method UpdateWithNewTransaction(newTransaction: Transaction)
      modifies database`utxo
      ensures database.utxo == Apply(old(database.utxo), newTransaction)
    {
      var spent := AddSpends(map[], newTransaction.inputs);
      var txOutputs := KeepOutputs(newTransaction.outputs, []);
      var batch := [Put(newTransaction.hash, txOutputs)];
      ghost var db, tx := database.utxo, newTransaction;
      var ids := spent.Keys;
      assert AsSet([]) == {} && batch[..0] == [];
      assert ApplyBatch(db, batch) == Partial(db, tx, spent.Keys - ids);
      while ids != {}
        invariant ids <= spent.Keys && database.utxo == db
        invariant ApplyBatch(db, batch) == Partial(db, tx, spent.Keys - ids)
        decreases ids
      {
        var id :| id in ids;
        var current := if id in database.utxo then database.utxo[id] else [];
        var rest := Keep(current, spent[id]);
        assert AsSet(spent[id]) == SpentBy(tx.inputs, id) by {
          assert SpentIn(spent, id) == SpentIn(map[], id) + SpentBy(tx.inputs, id);
        }
        BatchStep(db, tx, batch, spent.Keys - ids, id, rest);
        if |rest| > 0 {
          batch := batch + [Put(id, rest)];
        } else {
          batch := batch + [Delete(id)];
        }
        assert spent.Keys - (ids - {id}) == spent.Keys - ids + {id};
        ids := ids - {id};
      }
      assert spent.Keys - ids == spent.Keys;
      PartialAll(db, tx, spent.Keys);
      database.Write(batch);
    }

    method UpdateWithNewBlock(newBlock: Block)
      modifies database`utxo
      ensures database.utxo == ApplyAll(old(database.utxo), newBlock.transactions)
    {
      var txs := newBlock.transactions;
      for i := 0 to |txs|
        invariant database.utxo == ApplyAll(old(database.utxo), txs[..i])
      {
        assert txs[..i + 1][..i] == txs[..i];
        UpdateWithNewTransaction(txs[i]);
      }
      assert txs[..|txs|] == txs;
    }

    /** The loop body of `ReIndex`, the transaction's own inputs included in what counts as spent. */
    method EnterTransaction(tx: Transaction, spent0: map<Bytes, seq<int>>, ghost scanned: seq<Transaction>)
        returns (spent: map<Bytes, seq<int>>)
      requires database.utxo == Rescan(scanned) && RecordsSpends(spent0, scanned)
      modifies database`utxo
      ensures database.utxo == Rescan(scanned + [tx]) && RecordsSpends(spent, scanned + [tx])
    {
      ghost var after := scanned + [tx];
      assert after[..|after| - 1] == scanned;
      spent := AddSpends(spent0, tx.inputs);
      assert RecordsSpends(spent, after);
      var already := if tx.hash in spent then spent[tx.hash] else [];
      assert AsSet(already) == SpentIn(spent, tx.hash);
      var left := KeepOutputs(tx.outputs, already);
      database.utxo := database.utxo[tx.hash := left];
    }

    /** The loop over one block of the backward walk. */
    method EnterBlock(txs: seq<Transaction>, spent0: map<Bytes, seq<int>>, ghost scanned: seq<Transaction>)
        returns (spent: map<Bytes, seq<int>>)
      requires database.utxo == Rescan(scanned) && RecordsSpends(spent0, scanned)
      modifies database`utxo
      ensures database.utxo == Rescan(scanned + txs) && RecordsSpends(spent, scanned + txs)
    {
      spent := spent0;
      ghost var seen := scanned;
      for i := 0 to |txs|
        invariant seen == scanned + txs[..i]
        invariant database.utxo == Rescan(seen) && RecordsSpends(spent, seen)
      {
        spent := EnterTransaction(txs[i], spent, seen);
        OneMore(scanned, txs, i);
        seen := seen + [txs[i]];
      }
      assert txs[..|txs|] == txs;
    }

    /** Throws the index away and rebuilds it by a backward walk.  The walk must end; the ghost argument is the
        chain it visits. */
    method ReIndex(ghost chain: seq<Block>)
      requires ChainStore.ChainTo(database.blocks, database.lastHash, chain)
      modifies database`utxo
      ensures database.utxo == Rescan(Backward(chain))
    {
      database.utxo := map[];
      var currentHash := database.lastHash;
      var spent: map<Bytes, seq<int>> := map[];
      ghost var scanned: seq<Transaction> := [];
      ghost var k := |chain|;
      assert chain[..k] == chain;
      while true
        invariant 0 < k <= |chain| && ChainStore.ChainTo(database.blocks, currentHash, chain[..k])
        invariant scanned + Backward(chain[..k]) == Backward(chain)
        invariant database.utxo == Rescan(scanned) && RecordsSpends(spent, scanned)
        decreases k
      {
        var currentBlock := ChainStore.Fetch(database.blocks, currentHash);
        spent := EnterBlock(currentBlock.transactions, spent, scanned);
        BackwardStep(scanned, chain[..k]);
        assert chain[..k][..k - 1] == chain[..k - 1];
        scanned := scanned + currentBlock.transactions;
        if currentBlock.header.prevHash == [] {
          assert scanned + Backward(chain[..0]) == scanned;
          break;
        }
        currentHash := currentBlock.header.prevHash;
        k := k - 1;
      }
    }

    method FindUTXO(c: Crypto, address: Address) returns (utxoMap: Index)
      ensures utxoMap == Owned(c, database.utxo, address)
    {
      utxoMap := map[];
      var keys := database.utxo.Keys;
      while keys != {}
        invariant keys <= database.utxo.Keys
        invariant utxoMap == Owned(c, database.utxo, address) - keys
        decreases keys
      {
        var id :| id in keys;
        var entry := database.utxo[id];
        OwnedStep(c, database.utxo, address, keys, id);
        utxoMap := AppendBound(c, utxoMap, id, entry, address);
        keys := keys - {id};
      }
    }

    method GetTxOutputFromTxInput(input: TxInput) returns (output: Option<TxOutput>)
      ensures output == Referenced(Lookup(database.utxo, input.txID), input.vOut)
    {
      var entry := if input.txID in database.utxo then database.utxo[input.txID] else [];
      var i := 0;
      while i < |entry|
        invariant 0 <= i <= |entry|
        invariant Referenced(entry, input.vOut) == Referenced(entry[i..], input.vOut)
      {
        if entry[i].index == input.vOut {
          return Some(entry[i].output);
        }
        i := i + 1;
      }
      return None;
    }
  }
}
