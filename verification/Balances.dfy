/** What parts of an index are worth.  The total says nothing of a part, such as the outputs of one address, while
    outputs may have negative values: no check looks at the sign of an output. */
module Balances {
  import opened Types
  import opened UtxoSpec
  import opened ChainSpec
  import opened UtxoSet
  import opened Conservation
  import Reentry

  ghost predicate NonNegative(m: Index) {
    forall id, e :: id in m && e in m[id] ==> e.output.value >= 0
  }

  // ---------- sums without negative values ----------

  lemma {:induction false} PrefixSum(entry: seq<IndexedOutput>, n: nat)
    requires n <= |entry| && forall e :: e in entry ==> e.output.value >= 0
    ensures 0 <= EntrySum(entry[..n]) <= EntrySum(entry)
  {
    if n < |entry| {
      var last := |entry| - 1;
      PrefixSum(entry[..last], n);
      assert entry[..last][..n] == entry[..n];
    } else if n > 0 {
      assert entry[..n] == entry;
      PrefixSum(entry[..n - 1], n - 1);
      assert entry[..n - 1][..n - 1] == entry[..n - 1];
    }
  }

  lemma {:induction false} TotalNonNegative(m: Index, ids: set<Bytes>)
    requires NonNegative(m)
    ensures TotalOver(m, ids) >= 0
    decreases ids
  {
    if id :| id in ids {
      TotalPick(m, ids, id);
      TotalNonNegative(m, ids - {id});
      if id in m {
        PrefixSum(m[id], |m[id]|);
        assert m[id][..|m[id]|] == m[id];
      }
    }
  }

  // ---------- a part and the rest ----------

  type Selection = (Bytes, IndexedOutput) -> bool

  function Rest(keep: Selection): Selection {
    (id: Bytes, e: IndexedOutput) => !keep(id, e)
  }

  function KeptEntry(id: Bytes, entry: seq<IndexedOutput>, keep: Selection): seq<IndexedOutput> {
    if entry == [] then []
    else
      var e := entry[|entry| - 1];
      KeptEntry(id, entry[..|entry| - 1], keep) + if keep(id, e) then [e] else []
  }

  /** The part of an index that a selection keeps. */
  function Kept(m: Index, keep: Selection): Index {
    map id | id in m :: KeptEntry(id, m[id], keep)
  }

  lemma {:induction false} KeptEntryMember(id: Bytes, entry: seq<IndexedOutput>, keep: Selection, e: IndexedOutput)
    ensures e in KeptEntry(id, entry, keep) <==> e in entry && keep(id, e)
  {
    if entry != [] {
      KeptEntryMember(id, entry[..|entry| - 1], keep, e);
    }
  }

  lemma {:induction false} KeptEntrySplit(id: Bytes, entry: seq<IndexedOutput>, keep: Selection)
    ensures EntrySum(KeptEntry(id, entry, keep)) + EntrySum(KeptEntry(id, entry, Rest(keep))) == EntrySum(entry)
  {
    if entry != [] {
      var n := |entry| - 1;
      KeptEntrySplit(id, entry[..n], keep);
      var mine, others := KeptEntry(id, entry[..n], keep), KeptEntry(id, entry[..n], Rest(keep));
      assert mine + [] == mine && others + [] == others;
      EntrySumSnoc(mine, entry[n]);
      EntrySumSnoc(others, entry[n]);
    }
  }

  lemma {:induction false} KeptSplitOver(m: Index, keep: Selection, ids: set<Bytes>)
    requires ids <= m.Keys
    ensures TotalOver(Kept(m, keep), ids) + TotalOver(Kept(m, Rest(keep)), ids) == TotalOver(m, ids)
    decreases ids
  {
    if ids != {} {
      var id :| id in ids;
      TotalPick(m, ids, id);
      TotalPick(Kept(m, keep), ids, id);
      TotalPick(Kept(m, Rest(keep)), ids, id);
      KeptEntrySplit(id, m[id], keep);
      assert Lookup(Kept(m, keep), id) == KeptEntry(id, m[id], keep);
      assert Lookup(Kept(m, Rest(keep)), id) == KeptEntry(id, m[id], Rest(keep));
      KeptSplitOver(m, keep, ids - {id});
    }
  }

  /** A part and the rest are worth the whole. */
  lemma {:induction false} KeptSplit(m: Index, keep: Selection)
    ensures Total(Kept(m, keep)) + Total(Kept(m, Rest(keep))) == Total(m)
  {
    KeptSplitOver(m, keep, m.Keys);
    assert Kept(m, keep).Keys == Kept(m, Rest(keep)).Keys == m.Keys;
  }

  lemma {:induction false} NegativeSum(entry: seq<IndexedOutput>)
    requires entry != [] && forall e :: e in entry ==> e.output.value < 0
    ensures EntrySum(entry) < 0
  {
    if |entry| > 1 {
      NegativeSum(entry[..|entry| - 1]);
    }
  }

  /** The part of an index that is one kind of output of one transaction. */
  lemma KeptOne(m: Index, id: Bytes, e: IndexedOutput)
    requires id in m && e in m[id] && e.output.value < 0
    ensures Total(Kept(m, (i, x) => i == id && x == e)) < 0
  {
    var keep: Selection := (i, x) => i == id && x == e;
    var part := Kept(m, keep);
    assert part[id] == KeptEntry(id, m[id], keep);
    forall x: IndexedOutput ensures x in part[id] <==> x == e {
      KeptEntryMember(id, m[id], keep, x);
    }
    assert e in part[id];
    NegativeSum(part[id]);
    TotalPick(part, part.Keys, id);
    forall i | i in part.Keys - {id} ensures Lookup(part, i) == Lookup(map[], i) {
      if part[i] != [] {
        KeptEntryMember(i, m[i], keep, part[i][0]);
        assert false;
      }
    }
    TotalSame(part, map[], part.Keys - {id});
    TotalWider(map[], part.Keys - {id});
  }

  /** No part of an index is worth more than the whole exactly if the index holds no negative value. */
  lemma {:induction false} PartBoundedIff(m: Index)
    ensures (forall keep: Selection :: Total(Kept(m, keep)) <= Total(m)) <==> NonNegative(m)
  {
    if NonNegative(m) {
      forall keep: Selection ensures Total(Kept(m, keep)) <= Total(m) {
        PartBounded(m, keep);
      }
    } else {
      var id: Bytes, e: IndexedOutput :| id in m && e in m[id] && e.output.value < 0;
      var one: Selection := (i, x) => i == id && x == e;
      KeptOne(m, id, e);
      KeptSplit(m, one);
      assert Total(Kept(m, Rest(one))) > Total(m);
    }
  }

  lemma PartBounded(m: Index, keep: Selection)
    requires NonNegative(m)
    ensures Total(Kept(m, keep)) <= Total(m)
  {
    var rest := Kept(m, Rest(keep));
    forall id: Bytes, e: IndexedOutput | id in rest && e in rest[id] ensures e.output.value >= 0 {
      KeptEntryMember(id, m[id], Rest(keep), e);
    }
    TotalNonNegative(rest, rest.Keys);
    KeptSplit(m, keep);
  }

  // ---------- the balance of an address ----------

  function BoundTo(c: Crypto, address: Address): Selection {
    (id: Bytes, e: IndexedOutput) => IsBoundTo(c, e.output, address)
  }

  lemma {:induction false} BoundIsKept(c: Crypto, id: Bytes, entry: seq<IndexedOutput>, address: Address)
    ensures Bound(c, entry, address) == KeptEntry(id, entry, BoundTo(c, address))
  {
    if entry != [] {
      BoundIsKept(c, id, entry[..|entry| - 1], address);
    }
  }

  /** The answer of `FindUTXO` is worth what the index is worth less everybody else's outputs. */
  lemma {:induction false} BalanceAndRest(c: Crypto, m: Index, address: Address)
    ensures Total(Owned(c, m, address)) == Total(Kept(m, BoundTo(c, address)))
    ensures Total(Owned(c, m, address)) + Total(Kept(m, Rest(BoundTo(c, address)))) == Total(m)
  {
    forall id | id in m ensures Bound(c, m[id], address) == KeptEntry(id, m[id], BoundTo(c, address)) {
      BoundIsKept(c, id, m[id], address);
    }
    AgreeTotal(Owned(c, m, address), Kept(m, BoundTo(c, address)));
    KeptSplit(m, BoundTo(c, address));
  }

  /** The output at position `i` of the `k`-th transaction is not spent. */
  ghost predicate LeftUnspent(txs: seq<Transaction>, k: int, i: int) {
    0 <= k < |txs| && 0 <= i < |txs[k].outputs| && i !in SpentOn(txs, txs[k].hash)
  }

  lemma {:induction false} UnspentHeld(chain: seq<Block>, k: int, i: int)
    requires ValidChain(chain) && LeftUnspent(Forward(chain), k, i)
    ensures var tx, m := Forward(chain)[k], IndexOf(chain);
            tx.hash in m && IndexedOutput(tx.outputs[i], i) in m[tx.hash]
  {
    var tx := Forward(chain)[k];
    Reentry.RightEntry(chain, tx);
    UnspentMember(tx.outputs, SpentOn(Forward(chain), tx.hash), IndexedOutput(tx.outputs[i], i));
  }

  lemma {:induction false} HeldIsUnspent(chain: seq<Block>, id: Bytes, e: IndexedOutput) returns (k: int)
    requires ValidChain(chain) && e in Lookup(IndexOf(chain), id)
    ensures LeftUnspent(Forward(chain), k, e.index) && Forward(chain)[k].outputs[e.index] == e.output
  {
    var txs := Forward(chain);
    assert Lookup(IndexOf(chain), id) == Confirmed(txs, id) by {
      ValidChainFacts(chain);
      IncrementalIsConfirmed(txs, id);
    }
    k := FindTxFound(txs, id);
    UnspentMember(txs[k].outputs, SpentOn(txs, id), e);
  }

  /** An index of a valid chain holds no negative value exactly if no unspent output of the chain is negative. */
  lemma {:induction false} NonNegativeIff(chain: seq<Block>)
    requires ValidChain(chain)
    ensures NonNegative(IndexOf(chain)) <==>
            forall k, i :: LeftUnspent(Forward(chain), k, i) ==> Forward(chain)[k].outputs[i].value >= 0
  {
    if NonNegative(IndexOf(chain)) {
      forall k, i | LeftUnspent(Forward(chain), k, i) ensures Forward(chain)[k].outputs[i].value >= 0 {
        UnspentHeld(chain, k, i);
      }
    } else {
      var id: Bytes, e: IndexedOutput :| id in IndexOf(chain) && e in IndexOf(chain)[id] && e.output.value < 0;
      var k := HeldIsUnspent(chain, id, e);
      assert LeftUnspent(Forward(chain), k, e.index);
    }
  }

  /** Main theorem on balances: after any run of mined blocks that leaves no negative output unspent, no address
      owns more than the rewards, by the kept index and by the rebuilt one. */
  lemma {:induction false} BalanceBounded(c: Crypto, chain: seq<Block>, address: Address)
    requires MinedChain(c, chain) && NonNegative(IndexOf(chain))
    ensures 0 <= Total(Owned(c, IndexOf(chain), address)) <= COINBASE_REWARD * |chain|
    ensures Owned(c, Rescan(Backward(chain)), address) == Owned(c, IndexOf(chain), address)
  {
    var m := IndexOf(chain);
    ValueConserved(c, chain);
    MinedIsValid(c, chain);
    IndexesAgree(chain);
    AgreeOwned(c, m, Rescan(Backward(chain)), address);
    BalanceAndRest(c, m, address);
    PartBounded(m, BoundTo(c, address));
    PartBounded(m, Rest(BoundTo(c, address)));
  }
}
