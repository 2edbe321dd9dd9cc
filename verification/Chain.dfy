/** Chains of blocks, oldest first, and the theorem that rebuilding the index by walking the chain backwards
    agrees with maintaining it forwards. */
module ChainSpec {
  import opened Types
  import opened UtxoSpec

  /** Transactions in the order in which they are confirmed. */
  function Forward(chain: seq<Block>): seq<Transaction> {
    if chain == [] then [] else Forward(chain[..|chain| - 1]) + chain[|chain| - 1].transactions
  }

  /** Transactions in the order in which `ReIndex` meets them: newest block first, but each block from its
      first transaction to its last. */
  function Backward(chain: seq<Block>): seq<Transaction> {
    if chain == [] then [] else chain[|chain| - 1].transactions + Backward(chain[..|chain| - 1])
  }

  ghost predicate InChain(chain: seq<Block>, b: int, p: int) {
    0 <= b < |chain| && 0 <= p < |chain[b].transactions|
  }

  // ---------- splitting a chain at a block ----------

  lemma {:induction false} ForwardSplit(chain: seq<Block>, b: int)
    requires 0 <= b < |chain|
    ensures Forward(chain) == Forward(chain[..b]) + chain[b].transactions + Forward(chain[b + 1..])
  {
    var n := |chain| - 1;
    if b == n {
      assert chain[b + 1..] == [];
    } else {
      ForwardSplit(chain[..n], b);
      assert chain[..n][..b] == chain[..b];
      assert chain[..n][b + 1..] == chain[b + 1..][..n - b - 1];
      calc {
        Forward(chain);
        Forward(chain[..n]) + chain[n].transactions;
        Forward(chain[..b]) + chain[b].transactions + Forward(chain[..n][b + 1..]) + chain[n].transactions;
        Forward(chain[..b]) + chain[b].transactions + (Forward(chain[..n][b + 1..]) + chain[n].transactions);
        Forward(chain[..b]) + chain[b].transactions + Forward(chain[b + 1..]);
      }
    }
  }

  lemma {:induction false} BackwardSplit(chain: seq<Block>, b: int)
    requires 0 <= b < |chain|
    ensures Backward(chain) == Backward(chain[b + 1..]) + chain[b].transactions + Backward(chain[..b])
  {
    var n := |chain| - 1;
    if b == n {
      assert chain[b + 1..] == [];
    } else {
      BackwardSplit(chain[..n], b);
      assert chain[..n][..b] == chain[..b];
      assert chain[..n][b + 1..] == chain[b + 1..][..n - b - 1];
      calc {
        Backward(chain);
        chain[n].transactions + Backward(chain[..n]);
        chain[n].transactions + (Backward(chain[..n][b + 1..]) + chain[b].transactions + Backward(chain[..b]));
        chain[n].transactions + Backward(chain[..n][b + 1..]) + chain[b].transactions + Backward(chain[..b]);
        Backward(chain[b + 1..]) + chain[b].transactions + Backward(chain[..b]);
      }
    }
  }

  /** The place of a transaction of the forward order. */
  lemma {:induction false} Locate(chain: seq<Block>, k: int) returns (b: int, p: int)
    requires 0 <= k < |Forward(chain)|
    ensures InChain(chain, b, p) && k == |Forward(chain[..b])| + p && Forward(chain)[k] == chain[b].transactions[p]
  {
    var n := |chain| - 1;
    if k < |Forward(chain[..n])| {
      b, p := Locate(chain[..n], k);
      assert chain[..n][..b] == chain[..b];
    } else {
      b, p := n, k - |Forward(chain[..n])|;
    }
  }

  lemma BackwardAt(chain: seq<Block>, b: int, p: int)
    requires InChain(chain, b, p)
    ensures |Backward(chain[b + 1..])| + p < |Backward(chain)|
    ensures Backward(chain)[|Backward(chain[b + 1..])| + p] == chain[b].transactions[p]
    ensures Backward(chain)[..|Backward(chain[b + 1..])| + p + 1]
            == Backward(chain[b + 1..]) + chain[b].transactions[..p + 1]
  {
    BackwardSplit(chain, b);
  }

  // ---------- the two orders hold the same transactions ----------

  lemma {:induction false} SameSpends(chain: seq<Block>, id: Bytes)
    ensures SpentOn(Backward(chain), id) == SpentOn(Forward(chain), id)
  {
    if chain == [] {
    } else {
      var n := |chain| - 1;
      SameSpends(chain[..n], id);
      SpentOnConcat(chain[n].transactions, Backward(chain[..n]), id);
      SpentOnConcat(Forward(chain[..n]), chain[n].transactions, id);
    }
  }

  lemma IdsOfConcat(a: seq<Transaction>, b: seq<Transaction>)
    ensures IdsOf(a + b) == IdsOf(a) + IdsOf(b)
  {
    forall id | id in IdsOf(a) + IdsOf(b) ensures id in IdsOf(a + b) {
      if k :| 0 <= k < |a| && a[k].hash == id {
        assert (a + b)[k].hash == id;
      } else {
        var k :| 0 <= k < |b| && b[k].hash == id;
        assert (a + b)[|a| + k].hash == id;
      }
    }
  }

  lemma {:induction false} SameIds(chain: seq<Block>)
    ensures IdsOf(Backward(chain)) == IdsOf(Forward(chain))
  {
    if chain == [] {
    } else {
      var n := |chain| - 1;
      SameIds(chain[..n]);
      IdsOfConcat(chain[n].transactions, Backward(chain[..n]));
      IdsOfConcat(Forward(chain[..n]), chain[n].transactions);
    }
  }

  lemma UniqueConcat(a: seq<Transaction>, b: seq<Transaction>)
    ensures UniqueIds(a + b) <==> UniqueIds(a) && UniqueIds(b) && IdsOf(a) !! IdsOf(b)
  {
    var c := a + b;
    if UniqueIds(c) {
      forall j, k | 0 <= j < k < |b| ensures b[j].hash != b[k].hash {
        assert c[|a| + j].hash != c[|a| + k].hash;
      }
      forall id | id in IdsOf(a) ensures id !in IdsOf(b) {
        var j :| 0 <= j < |a| && a[j].hash == id;
        forall k | 0 <= k < |b| ensures b[k].hash != id {
          assert c[j] == a[j] && c[|a| + k] == b[k];
        }
      }
      forall j, k | 0 <= j < k < |a| ensures a[j].hash != a[k].hash {
        assert c[j].hash != c[k].hash;
      }
    }
    if UniqueIds(a) && UniqueIds(b) && IdsOf(a) !! IdsOf(b) {
      forall j, k | 0 <= j < k < |c| ensures c[j].hash != c[k].hash {
        if j < |a| <= k {
          assert a[j].hash in IdsOf(a) && b[k - |a|].hash in IdsOf(b);
        }
      }
    }
  }

  lemma {:induction false} BackwardUnique(chain: seq<Block>)
    requires UniqueIds(Forward(chain))
    ensures UniqueIds(Backward(chain))
  {
    if chain == [] {
    } else {
      var n := |chain| - 1;
      UniqueConcat(Forward(chain[..n]), chain[n].transactions);
      BackwardUnique(chain[..n]);
      SameIds(chain[..n]);
      UniqueConcat(chain[n].transactions, Backward(chain[..n]));
    }
  }

  // ---------- what ReIndex leaves behind ----------

  /** The entry of the transaction at block `b`, position `p` holds exactly the outputs spent neither in a
      block after `b` nor at a position up to `p` of block `b`. */
  lemma {:induction false} ReIndexEntry(chain: seq<Block>, b: int, p: int)
    requires UniqueIds(Forward(chain)) && InChain(chain, b, p)
    ensures var tx := chain[b].transactions[p];
            Lookup(Rescan(Backward(chain)), tx.hash)
            == Unspent(tx.outputs, SpentOn(Forward(chain[b + 1..]), tx.hash)
                                   + SpentOn(chain[b].transactions[..p + 1], tx.hash))
  {
    BackwardUnique(chain);
    ScannedEntry(chain, b, p);
    var id := chain[b].transactions[p].hash;
    SpentOnConcat(Backward(chain[b + 1..]), chain[b].transactions[..p + 1], id);
    SameSpends(chain[b + 1..], id);
  }

  lemma ScannedEntry(chain: seq<Block>, b: int, p: int)
    requires UniqueIds(Backward(chain)) && InChain(chain, b, p)
    ensures var tx := chain[b].transactions[p];
            Lookup(Rescan(Backward(chain)), tx.hash)
            == Unspent(tx.outputs, SpentOn(Backward(chain[b + 1..]) + chain[b].transactions[..p + 1], tx.hash))
  {
    BackwardSplit(chain, b);
    SplitEntry(Backward(chain[b + 1..]), chain[b].transactions, Backward(chain[..b]), p);
  }

  lemma SplitEntry(before: seq<Transaction>, txs: seq<Transaction>, after: seq<Transaction>, p: int)
    requires UniqueIds(before + txs + after) && 0 <= p < |txs|
    ensures Lookup(Rescan(before + txs + after), txs[p].hash)
            == Unspent(txs[p].outputs, SpentOn(before + txs[..p + 1], txs[p].hash))
  {
    var scan, k := before + txs + after, |before| + p;
    assert scan[k] == txs[p] && scan[..k + 1] == before + txs[..p + 1];
    RescanEntry(scan, k);
  }

  /** The declarative entry of a transaction, with its spenders split by where they stand. */
  lemma ConfirmedEntry(chain: seq<Block>, b: int, p: int)
    requires UniqueIds(Forward(chain)) && Causal(Forward(chain)) && InChain(chain, b, p)
    ensures var tx := chain[b].transactions[p];
            Confirmed(Forward(chain), tx.hash)
            == Unspent(tx.outputs, SpentOn(chain[b].transactions[p + 1..], tx.hash)
                                   + SpentOn(Forward(chain[b + 1..]), tx.hash))
    ensures SpentOn(chain[b].transactions[..p + 1], chain[b].transactions[p].hash) == {}
  {
    var tx := chain[b].transactions[p];
    CreatorAt(chain, b, p);
    SpendersSplit(chain, b, p, tx.hash);
    assert SpentOn(Forward(chain), tx.hash)
           == SpentOn(chain[b].transactions[p + 1..], tx.hash) + SpentOn(Forward(chain[b + 1..]), tx.hash);
  }

  lemma CreatorAt(chain: seq<Block>, b: int, p: int)
    requires UniqueIds(Forward(chain)) && Causal(Forward(chain)) && InChain(chain, b, p)
    ensures var tx := chain[b].transactions[p];
            && FindTx(Forward(chain), tx.hash) == Some(tx)
            && SpentOn(Forward(chain[..b]) + chain[b].transactions[..p + 1], tx.hash) == {}
  {
    ForwardSplit(chain, b);
    SplitCreator(Forward(chain[..b]), chain[b].transactions, Forward(chain[b + 1..]), p);
  }

  lemma SplitCreator(before: seq<Transaction>, txs: seq<Transaction>, after: seq<Transaction>, p: int)
    requires UniqueIds(before + txs + after) && Causal(before + txs + after) && 0 <= p < |txs|
    ensures FindTx(before + txs + after, txs[p].hash) == Some(txs[p])
    ensures SpentOn(before + txs[..p + 1], txs[p].hash) == {}
  {
    var all, k := before + txs + after, |before| + p;
    assert all[k] == txs[p] && all[..k + 1] == before + txs[..p + 1];
    FindTxAt(all, k);
    assert SpentOn(all[..k + 1], all[k].hash) == {};
  }

  lemma SpendersSplit(chain: seq<Block>, b: int, p: int, id: Bytes)
    requires InChain(chain, b, p)
    ensures SpentOn(Forward(chain), id)
            == SpentOn(Forward(chain[..b]) + chain[b].transactions[..p + 1], id)
               + (SpentOn(chain[b].transactions[p + 1..], id) + SpentOn(Forward(chain[b + 1..]), id))
    ensures SpentOn(chain[b].transactions[..p + 1], id)
            <= SpentOn(Forward(chain[..b]) + chain[b].transactions[..p + 1], id)
  {
    var before, after := Forward(chain[..b]), Forward(chain[b + 1..]);
    var head, tail := chain[b].transactions[..p + 1], chain[b].transactions[p + 1..];
    ForwardSplit(chain, b);
    assert chain[b].transactions == head + tail;
    assert Forward(chain) == (before + head) + (tail + after);
    SpentOnConcat(before + head, tail + after, id);
    SpentOnConcat(tail, after, id);
    SpentOnConcat(before, head, id);
  }

  /** Some transaction spends an existing output of an earlier transaction of the same block. */
  ghost predicate SpendsInside(block: Block) {
    exists p, q, v :: 0 <= p < q < |block.transactions| && 0 <= v < |block.transactions[p].outputs|
                      && Spends(block.transactions[q], block.transactions[p].hash, v)
  }

  ghost predicate NoSpendInside(chain: seq<Block>) {
    forall b :: 0 <= b < |chain| ==> !SpendsInside(chain[b])
  }

  /** No output is spent by two transactions. */
  ghost predicate SpentOnce(txs: seq<Transaction>) {
    forall j, k, id, v :: 0 <= j < k < |txs| && Spends(txs[j], id, v) ==> !Spends(txs[k], id, v)
  }

  lemma NotSpentInside(block: Block, p: int, v: int)
    requires !SpendsInside(block) && 0 <= p < |block.transactions| && 0 <= v < |block.transactions[p].outputs|
    ensures v !in SpentOn(block.transactions[p + 1..], block.transactions[p].hash)
  {
    var tail, id := block.transactions[p + 1..], block.transactions[p].hash;
    SpentOnMember(tail, id, v);
    forall k | 0 <= k < |tail| ensures !Spends(tail[k], id, v) {
      assert tail[k] == block.transactions[p + 1 + k];
    }
  }

  lemma AgreeAt(chain: seq<Block>, b: int, p: int)
    requires UniqueIds(Forward(chain)) && Causal(Forward(chain)) && InChain(chain, b, p)
    requires !SpendsInside(chain[b])
    ensures var id := chain[b].transactions[p].hash;
            Lookup(Rescan(Backward(chain)), id) == Confirmed(Forward(chain), id)
  {
    var tx := chain[b].transactions[p];
    var tail := chain[b].transactions[p + 1..];
    ReIndexEntry(chain, b, p);
    ConfirmedEntry(chain, b, p);
    forall v | 0 <= v < |tx.outputs| ensures v !in SpentOn(tail, tx.hash) {
      NotSpentInside(chain[b], p, v);
    }
    var later := SpentOn(Forward(chain[b + 1..]), tx.hash);
    UnspentCongruent(tx.outputs, SpentOn(tail, tx.hash) + later, later + {});
  }

  lemma AgreeElsewhere(chain: seq<Block>, id: Bytes)
    requires id !in IdsOf(Forward(chain))
    ensures Lookup(Rescan(Backward(chain)), id) == Confirmed(Forward(chain), id) == []
  {
    RescanDomain(Backward(chain));
    SameIds(chain);
    var _ := FindTxFound(Forward(chain), id);
  }

  lemma NotSpentLater(chain: seq<Block>, b: int, q: int, id: Bytes, v: int)
    requires SpentOnce(Forward(chain)) && InChain(chain, b, q) && Spends(chain[b].transactions[q], id, v)
    ensures v !in SpentOn(Forward(chain[b + 1..]), id)
  {
    var txs, later, n := chain[b].transactions, Forward(chain[b + 1..]), |Forward(chain[..b])|;
    ForwardSplit(chain, b);
    SpentOnMember(later, id, v);
    forall k | 0 <= k < |later| ensures !Spends(later[k], id, v) {
      assert Forward(chain)[n + q] == txs[q];
      assert Forward(chain)[n + |txs| + k] == later[k];
    }
  }

  lemma {:induction false} DisagreeAt(chain: seq<Block>, b: int, p: int, q: int, v: int)
    requires UniqueIds(Forward(chain)) && Causal(Forward(chain)) && SpentOnce(Forward(chain))
    requires 0 <= b < |chain| && 0 <= p < q < |chain[b].transactions| && 0 <= v < |chain[b].transactions[p].outputs|
    requires Spends(chain[b].transactions[q], chain[b].transactions[p].hash, v)
    ensures var id := chain[b].transactions[p].hash;
            Lookup(Rescan(Backward(chain)), id) != Confirmed(Forward(chain), id)
  {
    var txs := chain[b].transactions;
    var id := txs[p].hash;
    var e := IndexedOutput(txs[p].outputs[v], v);
    ReIndexEntry(chain, b, p);
    ConfirmedEntry(chain, b, p);
    var later := Forward(chain[b + 1..]);
    NotSpentLater(chain, b, q, id, v);
    assert v in SpentOn(txs[p + 1..], id) by {
      SpentOnMember(txs[p + 1..], id, v);
      assert Spends(txs[p + 1..][q - p - 1], id, v);
    }
    UnspentMember(txs[p].outputs, SpentOn(later, id) + {}, e);
    UnspentMember(txs[p].outputs, SpentOn(txs[p + 1..], id) + SpentOn(later, id), e);
  }

  /** Main theorem on the rebuild.  On a chain with unique hashes, causal and without double spends, the
      backward walk agrees with the declarative index exactly when no block spends its own outputs. */
  lemma {:induction false} ReIndexAgreesIff(chain: seq<Block>)
    requires UniqueIds(Forward(chain)) && Causal(Forward(chain)) && SpentOnce(Forward(chain))
    ensures (forall id :: Lookup(Rescan(Backward(chain)), id) == Confirmed(Forward(chain), id))
            <==> NoSpendInside(chain)
  {
    if NoSpendInside(chain) {
      ReIndexAgrees(chain);
    } else {
      var b :| 0 <= b < |chain| && SpendsInside(chain[b]);
      var p, q, v :| 0 <= p < q < |chain[b].transactions| && 0 <= v < |chain[b].transactions[p].outputs|
                     && Spends(chain[b].transactions[q], chain[b].transactions[p].hash, v);
      DisagreeAt(chain, b, p, q, v);
    }
  }

  lemma ReIndexAgrees(chain: seq<Block>)
    requires UniqueIds(Forward(chain)) && Causal(Forward(chain)) && NoSpendInside(chain)
    ensures forall id :: Lookup(Rescan(Backward(chain)), id) == Confirmed(Forward(chain), id)
    ensures forall id :: Lookup(ApplyAll(map[], Forward(chain)), id) == Confirmed(Forward(chain), id)
  {
    var txs := Forward(chain);
    forall id
      ensures Lookup(Rescan(Backward(chain)), id) == Confirmed(txs, id)
    {
      if id in IdsOf(txs) {
        var k :| 0 <= k < |txs| && txs[k].hash == id;
        var b, p := Locate(chain, k);
        AgreeAt(chain, b, p);
      } else {
        AgreeElsewhere(chain, id);
      }
    }
    forall id ensures Lookup(ApplyAll(map[], txs), id) == Confirmed(txs, id) {
      IncrementalIsConfirmed(txs, id);
    }
  }

  // ---------- valid chains ----------

  ghost predicate Holds(m: Index, id: Bytes, v: int) {
    exists e :: e in Lookup(m, id) && e.index == v
  }

  /** Every input of the block spends an output that the index holds before the block. */
  ghost predicate SpendsHeld(m: Index, txs: seq<Transaction>) {
    forall k, i :: 0 <= k < |txs| && 0 <= i < |txs[k].inputs| ==> Holds(m, txs[k].inputs[i].txID, txs[k].inputs[i].vOut)
  }

  /** No two of these inputs name the same output. */
  ghost predicate DistinctInputs(inputs: seq<TxInput>) {
    forall i, j :: 0 <= i < j < |inputs| ==> !(inputs[i].txID == inputs[j].txID && inputs[i].vOut == inputs[j].vOut)
  }

  /** What the program assumes of a block that extends a chain and never checks in one place: fresh unique
      hashes, only confirmed outputs spent, and each of them once. */
  ghost predicate ValidNext(chain: seq<Block>, block: Block) {
    && UniqueIds(block.transactions)
    && IdsOf(block.transactions) !! IdsOf(Forward(chain))
    && SpendsHeld(ApplyAll(map[], Forward(chain)), block.transactions)
    && SpentOnce(block.transactions)
    && forall k :: 0 <= k < |block.transactions| ==> DistinctInputs(block.transactions[k].inputs)
  }

  ghost predicate ValidChain(chain: seq<Block>) {
    chain == [] || (ValidChain(chain[..|chain| - 1]) && ValidNext(chain[..|chain| - 1], chain[|chain| - 1]))
  }

  /** An output held by the index was created and is not spent. */
  lemma HeldMeans(txs: seq<Transaction>, id: Bytes, v: int)
    requires UniqueIds(txs) && Causal(txs) && Holds(ApplyAll(map[], txs), id, v)
    ensures id in IdsOf(txs) && v !in SpentOn(txs, id)
  {
    IncrementalIsConfirmed(txs, id);
    var e :| e in Lookup(ApplyAll(map[], txs), id) && e.index == v;
    var k := FindTxFound(txs, id);
    UnspentMember(txs[k].outputs, SpentOn(txs, id), e);
    assert txs[k].hash in IdsOf(txs);
  }

  /** Every hash named by an input belongs to a transaction of these. */
  ghost predicate KnownInputs(txs: seq<Transaction>) {
    forall id :: id !in IdsOf(txs) ==> SpentOn(txs, id) == {}
  }

  /** What validity of every step gives for the whole chain. */
  lemma {:induction false} ValidChainFacts(chain: seq<Block>)
    requires ValidChain(chain)
    ensures UniqueIds(Forward(chain)) && Causal(Forward(chain)) && KnownInputs(Forward(chain))
    ensures SpentOnce(Forward(chain))
    ensures NoSpendInside(chain)
  {
    if chain == [] {
    } else {
      var old' := chain[..|chain| - 1];
      var block := chain[|chain| - 1];
      ValidChainFacts(old');
      ExtendFacts(Forward(old'), block.transactions);
      NoSpendInsideNext(Forward(old'), block);
      assert forall i :: 0 <= i < |old'| ==> chain[i] == old'[i];
    }
  }

  lemma ExtendFacts(a: seq<Transaction>, b: seq<Transaction>)
    requires UniqueIds(a) && Causal(a) && KnownInputs(a) && SpentOnce(a)
    requires UniqueIds(b) && SpentOnce(b) && IdsOf(a) !! IdsOf(b) && SpendsHeld(ApplyAll(map[], a), b)
    ensures UniqueIds(a + b) && Causal(a + b) && KnownInputs(a + b) && SpentOnce(a + b)
  {
    UniqueConcat(a, b);
    forall id | id !in IdsOf(a) ensures SpentOn(b, id) == {} {
      NewSpendsAreOld(a, b, id);
    }
    CausalExtend(a, b);
    SpentOnceExtend(a, b);
    IdsOfConcat(a, b);
    forall id | id !in IdsOf(a + b) ensures SpentOn(a + b, id) == {} {
      SpentOnConcat(a, b, id);
    }
  }

  lemma NoSpendInsideNext(a: seq<Transaction>, block: Block)
    requires UniqueIds(a) && Causal(a)
    requires IdsOf(a) !! IdsOf(block.transactions) && SpendsHeld(ApplyAll(map[], a), block.transactions)
    ensures !SpendsInside(block)
  {
    var b := block.transactions;
    forall p, q, v | 0 <= p < q < |b| && 0 <= v < |b[p].outputs| ensures !Spends(b[q], b[p].hash, v) {
      assert b[p].hash in IdsOf(b);
      NewSpendsAreOld(a, b, b[p].hash);
      SpentOnMember(b, b[p].hash, v);
    }
  }

  lemma NewSpendsAreOld(a: seq<Transaction>, b: seq<Transaction>, id: Bytes)
    requires UniqueIds(a) && Causal(a) && SpendsHeld(ApplyAll(map[], a), b) && id !in IdsOf(a)
    ensures SpentOn(b, id) == {}
  {
    forall v ensures v !in SpentOn(b, id) {
      SpentOnMember(b, id, v);
      forall k | 0 <= k < |b| ensures !Spends(b[k], id, v) {
        forall i | 0 <= i < |b[k].inputs| ensures b[k].inputs[i].txID != id {
          assert Holds(ApplyAll(map[], a), b[k].inputs[i].txID, b[k].inputs[i].vOut);
          HeldMeans(a, b[k].inputs[i].txID, b[k].inputs[i].vOut);
        }
      }
    }
  }

  lemma CausalExtend(a: seq<Transaction>, b: seq<Transaction>)
    requires Causal(a) && KnownInputs(a) && IdsOf(a) !! IdsOf(b)
    requires forall id :: id !in IdsOf(a) ==> SpentOn(b, id) == {}
    ensures Causal(a + b)
  {
    forall k | 0 <= k < |a + b| ensures SpentOn((a + b)[..k + 1], (a + b)[k].hash) == {} {
      var id := (a + b)[k].hash;
      if k < |a| {
        assert (a + b)[..k + 1] == a[..k + 1];
      } else {
        assert b[k - |a|].hash in IdsOf(b);
        assert a + b == (a + b)[..k + 1] + (a + b)[k + 1..];
        SpentOnConcat((a + b)[..k + 1], (a + b)[k + 1..], id);
        SpentOnConcat(a, b, id);
      }
    }
  }

  lemma SpentOnceExtend(a: seq<Transaction>, b: seq<Transaction>)
    requires UniqueIds(a) && Causal(a) && SpentOnce(a) && SpentOnce(b)
    requires SpendsHeld(ApplyAll(map[], a), b)
    ensures SpentOnce(a + b)
  {
    var c := a + b;
    forall j, k, id, v | 0 <= j < k < |c| && Spends(c[j], id, v) ensures !Spends(c[k], id, v) {
      if j < |a| <= k {
        var inputs := b[k - |a|].inputs;
        SpentOnMember(a, id, v);
        assert Spends(a[j], id, v);
        forall i | 0 <= i < |inputs| ensures !(inputs[i].txID == id && inputs[i].vOut == v) {
          assert Holds(ApplyAll(map[], a), inputs[i].txID, inputs[i].vOut);
          HeldMeans(a, inputs[i].txID, inputs[i].vOut);
        }
      }
    }
  }

  /** On every valid chain the incremental index, the rebuilt index and the declarative index answer alike. */
  lemma {:induction false} IndexesAgree(chain: seq<Block>)
    requires ValidChain(chain)
    ensures forall id :: Lookup(ApplyAll(map[], Forward(chain)), id) == Confirmed(Forward(chain), id)
    ensures forall id :: Lookup(Rescan(Backward(chain)), id) == Confirmed(Forward(chain), id)
    ensures Agree(ApplyAll(map[], Forward(chain)), Rescan(Backward(chain)))
  {
    ValidChainFacts(chain);
    ReIndexAgrees(chain);
  }
}
