/** What the unspent-output index should hold, stated on sequences of transactions, and how the two ways of
    computing it behave: one transaction at a time, and by a scan of the whole chain. */
module UtxoSpec {
  import opened Types

  /** The `utxo-` part of the database.  A missing entry reads as an empty list. */
  type Index = map<Bytes, seq<IndexedOutput>>

  function Lookup(m: Index, id: Bytes): seq<IndexedOutput> {
    if id in m then m[id] else []
  }

  predicate Agree(m: Index, m': Index) {
    forall id :: id in m.Keys + m'.Keys ==> Lookup(m, id) == Lookup(m', id)
  }

  lemma AgreeEverywhere(m: Index, m': Index, id: Bytes)
    requires Agree(m, m')
    ensures Lookup(m, id) == Lookup(m', id)
  {
    if id in m.Keys + m'.Keys {}
  }

  // ---------- outputs and spends ----------

  /** The outputs of one transaction whose position is not in `spent`, in ascending order. */
  function Unspent(outputs: seq<TxOutput>, spent: set<int>): seq<IndexedOutput> {
    if outputs == [] then []
    else
      var n := |outputs| - 1;
      Unspent(outputs[..n], spent) + if n in spent then [] else [IndexedOutput(outputs[n], n)]
  }

  function Without(entry: seq<IndexedOutput>, spent: set<int>): seq<IndexedOutput> {
    if entry == [] then []
    else
      var n := |entry| - 1;
      Without(entry[..n], spent) + if entry[n].index in spent then [] else [entry[n]]
  }

  /** The output positions of transaction `id` that these inputs spend. */
  function SpentBy(inputs: seq<TxInput>, id: Bytes): set<int> {
    set i | 0 <= i < |inputs| && inputs[i].txID == id :: inputs[i].vOut
  }

  function SpentOn(txs: seq<Transaction>, id: Bytes): set<int> {
    if txs == [] then {}
    else SpentOn(txs[..|txs| - 1], id) + SpentBy(txs[|txs| - 1].inputs, id)
  }

  ghost predicate Spends(tx: Transaction, id: Bytes, v: int) {
    v in SpentBy(tx.inputs, id)
  }

  function IdsOf(txs: seq<Transaction>): set<Bytes> {
    set k | 0 <= k < |txs| :: txs[k].hash
  }

  ghost predicate UniqueIds(txs: seq<Transaction>) {
    forall j, k :: 0 <= j < k < |txs| ==> txs[j].hash != txs[k].hash
  }

  // ---------- the declarative index ----------

  /** The last transaction with this hash; the only one when hashes are unique. */
  function FindTx(txs: seq<Transaction>, id: Bytes): Option<Transaction> {
    if txs == [] then None
    else if txs[|txs| - 1].hash == id then Some(txs[|txs| - 1])
    else FindTx(txs[..|txs| - 1], id)
  }

  /** Outputs created by `txs` and spent by no input of `txs`. */
  function Confirmed(txs: seq<Transaction>, id: Bytes): seq<IndexedOutput> {
    match FindTx(txs, id)
    case None => []
    case Some(tx) => Unspent(tx.outputs, SpentOn(txs, id))
  }

  // ---------- the incremental index ----------

  function After(m: Index, tx: Transaction, id: Bytes): Option<seq<IndexedOutput>> {
    if exists i :: 0 <= i < |tx.inputs| && tx.inputs[i].txID == id then
      var rest := Without(Lookup(m, id), SpentBy(tx.inputs, id));
      if rest == [] then None else Some(rest)
    else if id == tx.hash then Some(Unspent(tx.outputs, {}))
    else if id in m then Some(m[id])
    else None
  }

  function Apply(m: Index, tx: Transaction): Index {
    map id | id in m.Keys + {tx.hash} && After(m, tx, id).Some? :: After(m, tx, id).value
  }

  function ApplyAll(m: Index, txs: seq<Transaction>): Index {
    if txs == [] then m else Apply(ApplyAll(m, txs[..|txs| - 1]), txs[|txs| - 1])
  }

  // ---------- the rebuilt index ----------

  /** The index that a scan builds: each transaction is entered with the outputs not spent by it or by a
      transaction scanned before it. */
  function Rescan(scan: seq<Transaction>): Index {
    if scan == [] then map[]
    else
      var tx := scan[|scan| - 1];
      Rescan(scan[..|scan| - 1])[tx.hash := Unspent(tx.outputs, SpentOn(scan, tx.hash))]
  }

  // ---------- facts about lists ----------

  lemma {:induction false} UnspentMember(outputs: seq<TxOutput>, spent: set<int>, e: IndexedOutput)
    ensures e in Unspent(outputs, spent) <==>
            0 <= e.index < |outputs| && e.index !in spent && e.output == outputs[e.index]
  {
    if outputs == [] {
    } else {
      UnspentMember(outputs[..|outputs| - 1], spent, e);
    }
  }

  lemma {:induction false} WithoutUnspent(outputs: seq<TxOutput>, s: set<int>, s': set<int>)
    ensures Without(Unspent(outputs, s), s') == Unspent(outputs, s + s')
  {
    if outputs == [] {
    } else {
      var n := |outputs| - 1;
      WithoutUnspent(outputs[..n], s, s');
      var u := Unspent(outputs, s);
      if n in s {
        assert u == Unspent(outputs[..n], s);
      } else {
        assert u[..|u| - 1] == Unspent(outputs[..n], s);
      }
    }
  }

  lemma {:induction false} UnspentCongruent(outputs: seq<TxOutput>, s: set<int>, s': set<int>)
    requires forall i :: 0 <= i < |outputs| ==> (i in s <==> i in s')
    ensures Unspent(outputs, s) == Unspent(outputs, s')
  {
    if outputs == [] {
    } else {
      UnspentCongruent(outputs[..|outputs| - 1], s, s');
    }
  }

  lemma {:induction false} WithoutNothing(entry: seq<IndexedOutput>)
    ensures Without(entry, {}) == entry
  {
    if entry == [] {
    } else {
      WithoutNothing(entry[..|entry| - 1]);
    }
  }

  lemma {:induction false} WithoutCongruent(entry: seq<IndexedOutput>, s: set<int>, s': set<int>)
    requires forall e :: e in entry ==> (e.index in s <==> e.index in s')
    ensures Without(entry, s) == Without(entry, s')
  {
    if entry != [] {
      WithoutCongruent(entry[..|entry| - 1], s, s');
    }
  }

  lemma {:induction false} WithoutMember(entry: seq<IndexedOutput>, spent: set<int>, e: IndexedOutput)
    ensures e in Without(entry, spent) <==> e in entry && e.index !in spent
  {
    if entry == [] {
    } else {
      WithoutMember(entry[..|entry| - 1], spent, e);
    }
  }

  lemma SpentByNothing(inputs: seq<TxInput>, id: Bytes)
    requires !exists i :: 0 <= i < |inputs| && inputs[i].txID == id
    ensures SpentBy(inputs, id) == {}
  {
  }

  lemma {:induction false} SpentOnConcat(a: seq<Transaction>, b: seq<Transaction>, id: Bytes)
    ensures SpentOn(a + b, id) == SpentOn(a, id) + SpentOn(b, id)
  {
    if b == [] {
      assert a + b == a;
    } else {
      assert (a + b)[..|a + b| - 1] == a + b[..|b| - 1];
      SpentOnConcat(a, b[..|b| - 1], id);
    }
  }

  lemma {:induction false} SpentOnMember(txs: seq<Transaction>, id: Bytes, v: int)
    ensures v in SpentOn(txs, id) <==> exists k :: 0 <= k < |txs| && Spends(txs[k], id, v)
  {
    if txs == [] {
    } else {
      var n := |txs| - 1;
      SpentOnMember(txs[..n], id, v);
      if k :| 0 <= k < n && Spends(txs[..n][k], id, v) {
        assert Spends(txs[k], id, v);
      }
      if v in SpentOn(txs, id) && v !in SpentOn(txs[..n], id) {
        assert Spends(txs[n], id, v);
      }
      if k :| 0 <= k < |txs| && Spends(txs[k], id, v) {
        if k < n {
          assert Spends(txs[..n][k], id, v);
        }
      }
    }
  }

  lemma {:induction false} FindTxAt(txs: seq<Transaction>, k: int)
    requires UniqueIds(txs) && 0 <= k < |txs|
    ensures FindTx(txs, txs[k].hash) == Some(txs[k])
  {
    var n := |txs| - 1;
    if k < n {
      FindTxAt(txs[..n], k);
    }
  }

  lemma {:induction false} FindTxFound(txs: seq<Transaction>, id: Bytes) returns (k: int)
    ensures FindTx(txs, id).Some? <==> id in IdsOf(txs)
    ensures FindTx(txs, id).Some? ==> 0 <= k < |txs| && txs[k].hash == id && FindTx(txs, id) == Some(txs[k])
  {
    k := 0;
    if txs != [] {
      var n := |txs| - 1;
      if txs[n].hash == id {
        k := n;
      } else {
        k := FindTxFound(txs[..n], id);
        assert forall j :: 0 <= j < n ==> txs[j].hash == txs[..n][j].hash;
      }
    }
  }

  /** The declarative reading of `Confirmed`. */
  lemma {:induction false} ConfirmedMeans(txs: seq<Transaction>, id: Bytes, e: IndexedOutput)
    requires UniqueIds(txs)
    ensures e in Confirmed(txs, id) <==>
            (exists k :: 0 <= k < |txs| && txs[k].hash == id && 0 <= e.index < |txs[k].outputs|
                         && txs[k].outputs[e.index] == e.output)
            && !exists k :: 0 <= k < |txs| && Spends(txs[k], id, e.index)
  {
    SpentOnMember(txs, id, e.index);
    var k := FindTxFound(txs, id);
    if FindTx(txs, id).Some? {
      UnspentMember(txs[k].outputs, SpentOn(txs, id), e);
    }
  }

  // ---------- one incremental step ----------

  /** One step, read through `Lookup`: the entry of the transaction holds its outputs in full, unless it names
      itself, and every other entry loses what is spent. */
  lemma {:induction false} ApplyLookup(m: Index, tx: Transaction, id: Bytes)
    ensures Lookup(Apply(m, tx), id)
            == if id == tx.hash && SpentBy(tx.inputs, id) == {} then Unspent(tx.outputs, {})
               else Without(Lookup(m, id), SpentBy(tx.inputs, id))
  {
    if i :| 0 <= i < |tx.inputs| && tx.inputs[i].txID == id {
      assert tx.inputs[i].vOut in SpentBy(tx.inputs, id);
    } else {
      SpentByNothing(tx.inputs, id);
      WithoutNothing(Lookup(m, id));
    }
  }

  /** No transaction spends from itself or from a later one. */
  ghost predicate Causal(txs: seq<Transaction>) {
    forall k :: 0 <= k < |txs| ==> SpentOn(txs[..k + 1], txs[k].hash) == {}
  }

  lemma PrefixCausal(txs: seq<Transaction>, n: int)
    requires Causal(txs) && 0 <= n <= |txs|
    ensures Causal(txs[..n])
  {
    forall k | 0 <= k < n
      ensures SpentOn(txs[..n][..k + 1], txs[..n][k].hash) == {}
    {
      assert txs[..n][..k + 1] == txs[..k + 1];
    }
  }

  /** Entering transactions one at a time computes the declarative index. */
  lemma {:induction false} IncrementalIsConfirmed(txs: seq<Transaction>, id: Bytes)
    requires UniqueIds(txs) && Causal(txs)
    ensures Lookup(ApplyAll(map[], txs), id) == Confirmed(txs, id)
  {
    if txs == [] {
    } else {
      var n := |txs| - 1;
      var tx := txs[n];
      PrefixCausal(txs, n);
      IncrementalIsConfirmed(txs[..n], id);
      ApplyLookup(ApplyAll(map[], txs[..n]), tx, id);
      assert txs[..n + 1] == txs;
      if id != tx.hash {
        match FindTx(txs[..n], id)
        case None =>
        case Some(t) => WithoutUnspent(t.outputs, SpentOn(txs[..n], id), SpentBy(tx.inputs, id));
      }
    }
  }

  /** The entry a scan leaves for its `k`-th transaction. */
  lemma {:induction false} RescanEntry(scan: seq<Transaction>, k: int)
    requires UniqueIds(scan) && 0 <= k < |scan|
    ensures Lookup(Rescan(scan), scan[k].hash) == Unspent(scan[k].outputs, SpentOn(scan[..k + 1], scan[k].hash))
  {
    var n := |scan| - 1;
    if k == n {
      assert scan[..n + 1] == scan;
    } else {
      RescanEntry(scan[..n], k);
      assert scan[..n][..k + 1] == scan[..k + 1];
    }
  }

  lemma {:induction false} RescanDomain(scan: seq<Transaction>)
    ensures Rescan(scan).Keys == IdsOf(scan)
  {
    if scan == [] {
    } else {
      var n := |scan| - 1;
      RescanDomain(scan[..n]);
      assert IdsOf(scan) == IdsOf(scan[..n]) + {scan[n].hash} by {
        forall id | id in IdsOf(scan[..n]) ensures id in IdsOf(scan) {
          var k :| 0 <= k < n && scan[..n][k].hash == id;
          assert scan[k].hash == id;
        }
        forall id | id in IdsOf(scan) ensures id in IdsOf(scan[..n]) + {scan[n].hash} {
          var k :| 0 <= k < |scan| && scan[k].hash == id;
          if k < n { assert scan[..n][k].hash == id; }
        }
      }
    }
  }
}
