/** What the filters of an SPV node let through, and what its index holds, stated on the chain alone. */
module SpvIndexes {
  import opened Types
  import opened UtxoSpec
  import opened ChainSpec
  import opened Admission
  import opened Conservation
  import opened SpvSpec
  import Reentry

  // ---------- which transactions are of interest ----------

  /** Some transaction of these pays a monitored address with the output that the input names. */
  ghost predicate SpendsMonitored(c: Crypto, txs: seq<Transaction>, monitored: seq<Address>, input: TxInput) {
    exists k, a :: 0 <= k < |txs| && txs[k].hash == input.txID && 0 <= input.vOut < |txs[k].outputs|
                   && a in monitored && IsBoundTo(c, txs[k].outputs[input.vOut], a)
  }

  /** Some output pays a monitored address. */
  ghost predicate PaysMonitored(c: Crypto, tx: Transaction, monitored: seq<Address>) {
    exists i, a :: 0 <= i < |tx.outputs| && a in monitored && IsBoundTo(c, tx.outputs[i], a)
  }

  /** An authorised input is signed by a monitored address exactly if it names an output paid to one. */
  lemma {:induction false} SignedMeans(c: Crypto, txs: seq<Transaction>, monitored: seq<Address>, input: TxInput)
    requires UniqueIds(txs) && Authorised(c, txs, input)
    ensures InputOfInterest(c, input, monitored) <==> SpendsMonitored(c, txs, monitored, input)
  {
    var k :| 0 <= k < |txs| && txs[k].hash == input.txID && 0 <= input.vOut < |txs[k].outputs|
             && c.keyHash(input.scriptSig.pubKey) == txs[k].outputs[input.vOut].scriptPubKey.pubKeyHash;
    if InputOfInterest(c, input, monitored) {
      var a :| a in monitored && IsSignedBy(c, input, a);
      assert IsBoundTo(c, txs[k].outputs[input.vOut], a);
    }
    if SpendsMonitored(c, txs, monitored, input) {
      var j, a :| 0 <= j < |txs| && txs[j].hash == input.txID && 0 <= input.vOut < |txs[j].outputs|
                  && a in monitored && IsBoundTo(c, txs[j].outputs[input.vOut], a);
      assert j == k;
      assert IsSignedBy(c, input, a);
    }
  }

  lemma {:induction false} OfInterestParts(c: Crypto, tx: Transaction, monitored: seq<Address>)
    ensures OfInterest(c, tx, monitored) <==>
            PaysMonitored(c, tx, monitored)
            || exists i :: 0 <= i < |tx.inputs| && InputOfInterest(c, tx.inputs[i], monitored)
  {
    if OfInterest(c, tx, monitored) {
      var a :| a in monitored && ((exists i :: 0 <= i < |tx.inputs| && IsSignedBy(c, tx.inputs[i], a))
                                  || (exists i :: 0 <= i < |tx.outputs| && IsBoundTo(c, tx.outputs[i], a)));
      if i :| 0 <= i < |tx.inputs| && IsSignedBy(c, tx.inputs[i], a) {
        assert InputOfInterest(c, tx.inputs[i], monitored);
      }
    }
    if i :| 0 <= i < |tx.inputs| && InputOfInterest(c, tx.inputs[i], monitored) {
      var a :| a in monitored && IsSignedBy(c, tx.inputs[i], a);
    }
    if PaysMonitored(c, tx, monitored) {
      var i, a :| 0 <= i < |tx.outputs| && a in monitored && IsBoundTo(c, tx.outputs[i], a);
    }
  }

  /** Main theorem on the filter: of a block that was verified on its chain, exactly those transactions are of interest
      that pay a monitored address or spend an output that was paid to one. */
  lemma {:induction false} OfInterestIff(c: Crypto, chain: seq<Block>, monitored: seq<Address>, tx: Transaction)
    requires UniqueIds(Forward(chain)) && Verify(c, Backward(chain), tx) == Valid
    ensures OfInterest(c, tx, monitored) <==>
            PaysMonitored(c, tx, monitored)
            || exists i :: 0 <= i < |tx.inputs| && SpendsMonitored(c, Forward(chain), monitored, tx.inputs[i])
  {
    OfInterestParts(c, tx, monitored);
    VerifyMeans(c, chain, tx);
    forall i | 0 <= i < |tx.inputs|
      ensures InputOfInterest(c, tx.inputs[i], monitored)
              <==> SpendsMonitored(c, Forward(chain), monitored, tx.inputs[i])
    {
      SignedMeans(c, Forward(chain), monitored, tx.inputs[i]);
    }
  }

  // ---------- what the index holds ----------

  /** The transactions that are entered, their foreign inputs left out. */
  function Kept(c: Crypto, monitored: seq<Address>, txs: seq<Transaction>): seq<Transaction> {
    if txs == [] then []
    else
      var tx := txs[|txs| - 1];
      Kept(c, monitored, txs[..|txs| - 1]) + if OfInterest(c, tx, monitored) then [Filtered(c, tx, monitored)] else []
  }

  lemma {:induction false} KeptConcat(c: Crypto, monitored: seq<Address>, a: seq<Transaction>, b: seq<Transaction>)
    ensures Kept(c, monitored, a + b) == Kept(c, monitored, a) + Kept(c, monitored, b)
  {
    if b == [] {
      assert a + b == a;
    } else {
      assert (a + b)[..|a + b| - 1] == a + b[..|b| - 1];
      KeptConcat(c, monitored, a, b[..|b| - 1]);
    }
  }

  lemma {:induction false} SpvAllIsKept(c: Crypto, monitored: seq<Address>, s: Index, txs: seq<Transaction>)
    ensures SpvAll(c, monitored, s, txs) == ApplyAll(s, Kept(c, monitored, txs))
  {
    if txs != [] {
      var front, tx := txs[..|txs| - 1], txs[|txs| - 1];
      SpvAllIsKept(c, monitored, s, front);
      KeptNext(c, monitored, s, Kept(c, monitored, front), tx);
    }
  }

  lemma {:induction false} KeptNext(c: Crypto, monitored: seq<Address>, s: Index, kept: seq<Transaction>,
                                    tx: Transaction)
    ensures ApplyAll(s, kept + if OfInterest(c, tx, monitored) then [Filtered(c, tx, monitored)] else [])
            == SpvStep(c, monitored, ApplyAll(s, kept), tx)
  {
    if OfInterest(c, tx, monitored) {
      assert (kept + [Filtered(c, tx, monitored)])[..|kept|] == kept;
    } else {
      assert kept + [] == kept;
    }
  }

  lemma {:induction false} SpvIndexIsKept(c: Crypto, monitored: seq<Address>, chain: seq<Block>)
    requires chain != []
    ensures SpvIndex(c, monitored, chain) == ApplyAll(map[], Kept(c, monitored, Forward(chain[1..])))
  {
    var n := |chain| - 1;
    if n > 0 {
      var front, later := chain[..n], chain[1..];
      SpvIndexIsKept(c, monitored, front);
      assert later[..|later| - 1] == front[1..] && later[|later| - 1] == chain[n];
      SpvAllIsKept(c, monitored, SpvIndex(c, monitored, front), chain[n].transactions);
      KeptConcat(c, monitored, Forward(front[1..]), chain[n].transactions);
      ApplyAllConcat(map[], Kept(c, monitored, Forward(front[1..])), Kept(c, monitored, chain[n].transactions));
    } else {
      assert chain[1..] == [];
    }
  }

  lemma {:induction false} KeptMember(c: Crypto, monitored: seq<Address>, txs: seq<Transaction>, t: Transaction)
    ensures t in Kept(c, monitored, txs) <==>
            exists k ::
              0 <= k < |txs| && OfInterest(c, txs[k], monitored) && t == Filtered(c, txs[k], monitored)
  {
    if txs != [] {
      var n := |txs| - 1;
      KeptMember(c, monitored, txs[..n], t);
      if k :| 0 <= k < n && OfInterest(c, txs[..n][k], monitored) && t == Filtered(c, txs[..n][k], monitored) {
        assert OfInterest(c, txs[k], monitored);
      }
      if k :| 0 <= k < |txs| && OfInterest(c, txs[k], monitored) && t == Filtered(c, txs[k], monitored) {
        if k < n {
          assert OfInterest(c, txs[..n][k], monitored) && t == Filtered(c, txs[..n][k], monitored);
        }
      }
    }
  }

  lemma {:induction false} KeptIds(c: Crypto, monitored: seq<Address>, txs: seq<Transaction>)
    ensures IdsOf(Kept(c, monitored, txs)) <= IdsOf(txs)
    ensures UniqueIds(txs) ==> UniqueIds(Kept(c, monitored, txs))
  {
    if txs != [] {
      var n := |txs| - 1;
      var front, kept := txs[..n], Kept(c, monitored, txs[..n]);
      KeptIds(c, monitored, front);
      IdsSplit(txs);
      if OfInterest(c, txs[n], monitored) {
        KeptOneMore(kept, Filtered(c, txs[n], monitored));
        if UniqueIds(txs) {
          forall k | 0 <= k < n ensures front[k].hash != txs[n].hash {}
        }
      } else {
        assert kept + [] == kept;
      }
    }
  }

  lemma {:induction false} KeptOneMore(kept: seq<Transaction>, t: Transaction)
    ensures IdsOf(kept + [t]) == IdsOf(kept) + {t.hash}
    ensures UniqueIds(kept) && t.hash !in IdsOf(kept) ==> UniqueIds(kept + [t])
  {
    assert IdsOf([t]) == {t.hash} by {
      assert [t][0].hash in IdsOf([t]);
    }
    IdsOfConcat(kept, [t]);
    UniqueConcat(kept, [t]);
  }

  /** What the entered transactions spend: what inputs signed by monitored addresses name. */
  ghost predicate SpentByMonitored(c: Crypto, monitored: seq<Address>, txs: seq<Transaction>, id: Bytes, v: int) {
    exists k, i :: 0 <= k < |txs| && 0 <= i < |txs[k].inputs| && txs[k].inputs[i].txID == id
                   && txs[k].inputs[i].vOut == v && InputOfInterest(c, txs[k].inputs[i], monitored)
  }

  lemma {:induction false} FilteredSpendsIff(c: Crypto, monitored: seq<Address>, tx: Transaction, id: Bytes, v: int)
    ensures v in SpentBy(Filtered(c, tx, monitored).inputs, id) <==>
            exists i :: 0 <= i < |tx.inputs| && tx.inputs[i].txID == id && tx.inputs[i].vOut == v
                        && InputOfInterest(c, tx.inputs[i], monitored)
  {
    var kept := Filtered(c, tx, monitored).inputs;
    if v in SpentBy(kept, id) {
      var i :| 0 <= i < |kept| && kept[i].txID == id && kept[i].vOut == v;
      InterestingMember(c, tx.inputs, monitored, kept[i]);
      var j :| 0 <= j < |tx.inputs| && tx.inputs[j] == kept[i];
    }
    if i :| 0 <= i < |tx.inputs| && tx.inputs[i].txID == id && tx.inputs[i].vOut == v
            && InputOfInterest(c, tx.inputs[i], monitored) {
      InterestingMember(c, tx.inputs, monitored, tx.inputs[i]);
      var j :| 0 <= j < |kept| && kept[j] == tx.inputs[i];
      assert kept[j].vOut in SpentBy(kept, id);
    }
  }

  lemma {:induction false} KeptSpends(c: Crypto, monitored: seq<Address>, txs: seq<Transaction>, id: Bytes, v: int)
    ensures v in SpentOn(Kept(c, monitored, txs), id) <==> SpentByMonitored(c, monitored, txs, id, v)
  {
    if txs != [] {
      var n := |txs| - 1;
      var front, tx := txs[..n], txs[n];
      KeptSpends(c, monitored, front, id, v);
      FilteredSpendsIff(c, monitored, tx, id, v);
      OfInterestParts(c, tx, monitored);
      SpentSplit(c, monitored, txs, id, v);
      if OfInterest(c, tx, monitored) {
        var kept := Kept(c, monitored, front);
        assert (kept + [Filtered(c, tx, monitored)])[..|kept|] == kept;
      } else {
        assert Kept(c, monitored, front) + [] == Kept(c, monitored, front);
      }
    }
  }

  lemma {:induction false} SpentSplit(c: Crypto, monitored: seq<Address>, txs: seq<Transaction>, id: Bytes, v: int)
    requires txs != []
    ensures var tx := txs[|txs| - 1];
            SpentByMonitored(c, monitored, txs, id, v) <==>
            SpentByMonitored(c, monitored, txs[..|txs| - 1], id, v)
            || exists i :: 0 <= i < |tx.inputs| && tx.inputs[i].txID == id && tx.inputs[i].vOut == v
                           && InputOfInterest(c, tx.inputs[i], monitored)
  {
    var n := |txs| - 1;
    var front := txs[..n];
    if k, i :| 0 <= k < |front| && 0 <= i < |front[k].inputs| && front[k].inputs[i].txID == id
               && front[k].inputs[i].vOut == v && InputOfInterest(c, front[k].inputs[i], monitored) {
      assert txs[k] == front[k];
    }
    if k, i :| 0 <= k < |txs| && 0 <= i < |txs[k].inputs| && txs[k].inputs[i].txID == id
               && txs[k].inputs[i].vOut == v && InputOfInterest(c, txs[k].inputs[i], monitored) {
      if k < n {
        assert front[k] == txs[k];
      }
    }
  }

  lemma {:induction false} KeptSpendsLess(c: Crypto, monitored: seq<Address>, txs: seq<Transaction>, id: Bytes)
    ensures SpentOn(Kept(c, monitored, txs), id) <= SpentOn(txs, id)
  {
    forall v | v in SpentOn(Kept(c, monitored, txs), id) ensures v in SpentOn(txs, id) {
      KeptSpends(c, monitored, txs, id, v);
      var k, i :| 0 <= k < |txs| && 0 <= i < |txs[k].inputs| && txs[k].inputs[i].txID == id
                  && txs[k].inputs[i].vOut == v && InputOfInterest(c, txs[k].inputs[i], monitored);
      assert Spends(txs[k], id, v);
      SpentOnMember(txs, id, v);
    }
  }

  lemma {:induction false} KeptCausal(c: Crypto, monitored: seq<Address>, txs: seq<Transaction>)
    requires Causal(txs)
    ensures Causal(Kept(c, monitored, txs))
  {
    if txs != [] {
      var n := |txs| - 1;
      var front, all := Kept(c, monitored, txs[..n]), Kept(c, monitored, txs);
      PrefixCausal(txs, n);
      KeptCausal(c, monitored, txs[..n]);
      forall k | 0 <= k < |all| ensures SpentOn(all[..k + 1], all[k].hash) == {} {
        if k < |front| {
          assert all[..k + 1] == front[..k + 1];
        } else {
          assert all[..k + 1] == all && txs[..n + 1] == txs && all[k].hash == txs[n].hash;
          KeptSpendsLess(c, monitored, txs, txs[n].hash);
        }
      }
    }
  }

  /** What comes after the first transactions of a chain. */
  lemma {:induction false} LaterPart(first: seq<Transaction>, later: seq<Transaction>)
    requires UniqueIds(first + later) && Causal(first + later)
    ensures UniqueIds(later) && Causal(later)
  {
    UniqueConcat(first, later);
    var all := first + later;
    forall k | 0 <= k < |later| ensures SpentOn(later[..k + 1], later[k].hash) == {} {
      var j := |first| + k;
      assert all[j] == later[k] && all[..j + 1] == first + later[..k + 1];
      SpentOnConcat(first, later[..k + 1], later[k].hash);
      assert SpentOn(all[..j + 1], all[j].hash) == {};
    }
  }

  lemma {:induction false} AfterGenesis(chain: seq<Block>)
    requires chain != [] && ValidChain(chain)
    ensures UniqueIds(Forward(chain[1..])) && Causal(Forward(chain[1..]))
  {
    assert chain[..0] == [] && chain[0 + 1..] == chain[1..];
    ForwardSplit(chain, 0);
    assert Forward(chain) == chain[0].transactions + Forward(chain[1..]);
    ValidChainFacts(chain);
    LaterPart(chain[0].transactions, Forward(chain[1..]));
  }

  /** The transaction of interest that created an output. */
  ghost predicate CreatedWithInterest(c: Crypto, monitored: seq<Address>, txs: seq<Transaction>, id: Bytes,
                                      e: IndexedOutput) {
    exists k :: 0 <= k < |txs| && OfInterest(c, txs[k], monitored) && txs[k].hash == id
                && 0 <= e.index < |txs[k].outputs| && txs[k].outputs[e.index] == e.output
  }

  lemma {:induction false} KeptCreates(c: Crypto, monitored: seq<Address>, txs: seq<Transaction>, id: Bytes,
                                       e: IndexedOutput)
    ensures var kept := Kept(c, monitored, txs);
            CreatedWithInterest(c, monitored, txs, id, e) <==>
            exists k :: 0 <= k < |kept| && kept[k].hash == id && 0 <= e.index < |kept[k].outputs|
                        && kept[k].outputs[e.index] == e.output
  {
    var kept := Kept(c, monitored, txs);
    if CreatedWithInterest(c, monitored, txs, id, e) {
      var k :| 0 <= k < |txs| && OfInterest(c, txs[k], monitored) && txs[k].hash == id
               && 0 <= e.index < |txs[k].outputs| && txs[k].outputs[e.index] == e.output;
      KeptMember(c, monitored, txs, Filtered(c, txs[k], monitored));
      var j :| 0 <= j < |kept| && kept[j] == Filtered(c, txs[k], monitored);
    }
    if k :| 0 <= k < |kept| && kept[k].hash == id && 0 <= e.index < |kept[k].outputs|
            && kept[k].outputs[e.index] == e.output {
      KeptMember(c, monitored, txs, kept[k]);
      var j :| 0 <= j < |txs| && OfInterest(c, txs[j], monitored) && kept[k] == Filtered(c, txs[j], monitored);
      assert txs[j].hash == id && txs[j].outputs == kept[k].outputs;
    }
  }

  /** Main theorem on the filtered index, for all its entries and not just those of monitored addresses: it holds an
      output exactly if a transaction of interest after the first block created it and no input that a monitored address
      signed names it. */
  lemma {:induction false} SpvIndexMeans(c: Crypto, monitored: seq<Address>, chain: seq<Block>, id: Bytes,
                                         e: IndexedOutput)
    requires chain != [] && ValidChain(chain)
    ensures var txs := Forward(chain[1..]);
            e in Lookup(SpvIndex(c, monitored, chain), id) <==>
            CreatedWithInterest(c, monitored, txs, id, e) && !SpentByMonitored(c, monitored, txs, id, e.index)
  {
    var txs := Forward(chain[1..]);
    var kept := Kept(c, monitored, txs);
    AfterGenesis(chain);
    KeptIds(c, monitored, txs);
    KeptCausal(c, monitored, txs);
    assert Lookup(SpvIndex(c, monitored, chain), id) == Confirmed(kept, id) by {
      SpvIndexIsKept(c, monitored, chain);
      IncrementalIsConfirmed(kept, id);
    }
    ConfirmedMeans(kept, id, e);
    KeptCreates(c, monitored, txs, id, e);
    SpentOnMember(kept, id, e.index);
    KeptSpends(c, monitored, txs, id, e.index);
  }
}
