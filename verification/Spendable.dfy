/** `FindSpendableOutput` of `blockchain/utxoset.go`: collecting outputs of an address up to an amount. */
module Spendable {
  import opened Types
  import opened UtxoSpec
  import opened UtxoSet
  import opened Admission
  import opened Conservation

  /** The outputs of the address among a first part of the stored entry. */
  ghost predicate FirstPart(c: Crypto, entry: seq<IndexedOutput>, address: Address, list: seq<IndexedOutput>) {
    exists n :: 0 <= n <= |entry| && list == Bound(c, entry[..n], address)
  }

  /** Every entry but one is what the address owns of the stored entry, and that one is a first part of it. */
  ghost predicate CompleteButFor(c: Crypto, m: Index, address: Address, utxoMap: Index, last: Bytes) {
    && (forall id :: id in utxoMap ==> id in m && utxoMap[id] != [])
    && (forall id :: id in utxoMap && id != last ==> utxoMap[id] == Bound(c, m[id], address))
    && (last in utxoMap ==> FirstPart(c, m[last], address, utxoMap[last]))
  }

  ghost predicate PartOf(c: Crypto, m: Index, address: Address, utxoMap: Index) {
    exists last :: CompleteButFor(c, m, address, utxoMap, last)
  }

  lemma WithEntryTotal(m: Index, id: Bytes, entry: seq<IndexedOutput>)
    requires id !in m
    ensures Total(WithEntry(m, id, entry)) == Total(m) + EntrySum(entry)
  {
    var m' := WithEntry(m, id, entry);
    TotalWider(m, m.Keys + {id});
    TotalWider(m', m.Keys + {id});
    TotalChange(m, m', m.Keys + {id}, id);
  }

  /** The outputs of the address among the first `n` have been collected, after others worth `total0`. */
  ghost predicate Partly(c: Crypto, entry: seq<IndexedOutput>, n: int, address: Address, total0: int,
                         list: seq<IndexedOutput>, sum: int) {
    0 <= n <= |entry| && list == Bound(c, entry[..n], address) && sum == Wrap(total0 + EntrySum(list))
  }

  lemma CollectStep(c: Crypto, entry: seq<IndexedOutput>, i: int, address: Address, total0: int,
                    list: seq<IndexedOutput>, sum: int)
    requires i < |entry| && Partly(c, entry, i, address, total0, list, sum)
    ensures if IsBoundTo(c, entry[i].output, address)
            then Partly(c, entry, i + 1, address, total0, list + [entry[i]], Wrap(sum + entry[i].output.value))
            else Partly(c, entry, i + 1, address, total0, list, sum)
    ensures Wrap(total0 + EntrySum((list + [entry[i]])[..|list|])) == sum
  {
    assert (list + [entry[i]])[..|list|] == list;
    assert Bound(c, entry[..i + 1], address) == if IsBoundTo(c, entry[i].output, address) then list + [entry[i]]
           else list by {
      BoundSnoc(c, entry, i, address);
    }
    EntrySumSnoc(list, entry[i]);
    WrapFacts(total0 + EntrySum(list), entry[i].output.value);
  }

  /** The loop over one stored entry, with the 64-bit sum of what has been collected before.  The amount is looked at
      after every output, bound to the address or not. */
  method CollectBound(c: Crypto, entry: seq<IndexedOutput>, address: Address, ghost total0: int, sum0: int, amount: int)
      returns (list: seq<IndexedOutput>, sum: int, reached: bool, ghost n: nat)
    requires sum0 == Wrap(total0)
    ensures Partly(c, entry, n, address, total0, list, sum)
    ensures if reached then sum >= amount else n == |entry| && (entry != [] || sum0 < amount ==> sum < amount)
    ensures reached && sum0 < amount ==> list != [] && Wrap(total0 + EntrySum(list[..|list| - 1])) < amount
  {
    list, sum, reached, n := [], sum0, false, 0;
    for i := 0 to |entry|
      invariant n == i && Partly(c, entry, n, address, total0, list, sum)
      invariant i > 0 || sum0 < amount ==> sum < amount
    {
      CollectStep(c, entry, i, address, total0, list, sum);
      n := i + 1;
      if IsBoundTo(c, entry[i].output, address) {
        sum := Wrap(sum + entry[i].output.value);
        list := list + [entry[i]];
      }
      if sum >= amount {
        return list, sum, true, n;
      }
    }
  }

  /** Collecting stopped with an output without which the amount would not have been reached. */
  ghost predicate NeededLast(utxoMap: Index, amount: int) {
    exists id :: id in utxoMap && utxoMap[id] != []
                 && Wrap(Total(utxoMap) - utxoMap[id][|utxoMap[id]| - 1].output.value) < amount
  }

  lemma {:induction false} WholePart(c: Crypto, m: Index, address: Address)
    ensures PartOf(c, m, address, Owned(c, m, address))
  {
    var owned := Owned(c, m, address);
    if last :| last in owned {
      assert m[last][..|m[last]|] == m[last];
      assert CompleteButFor(c, m, address, owned, last);
    } else {
      assert CompleteButFor(c, m, address, owned, []);
    }
  }

  lemma {:induction false} ReachedPart(c: Crypto, m: Index, address: Address, keys: set<Bytes>, before: Index,
                                       id: Bytes,
                                       n: nat)
    requires before == Owned(c, m, address) - keys && id in keys && id in m && n <= |m[id]|
    ensures PartOf(c, m, address, WithEntry(before, id, Bound(c, m[id][..n], address)))
  {
    assert CompleteButFor(c, m, address, WithEntry(before, id, Bound(c, m[id][..n], address)), id);
  }

  lemma {:induction false} SumAfter(before: Index, id: Bytes, list: seq<IndexedOutput>, sum: int)
    requires id !in before && sum == Wrap(Total(before) + EntrySum(list))
    ensures sum == Wrap(Total(WithEntry(before, id, list)))
  {
    WithEntryTotal(before, id, list);
  }

  lemma {:induction false} LastNeeded(before: Index, id: Bytes, list: seq<IndexedOutput>, amount: int)
    requires id !in before && list != [] && Wrap(Total(before) + EntrySum(list[..|list| - 1])) < amount
    ensures NeededLast(WithEntry(before, id, list), amount)
  {
    var after, front, last := WithEntry(before, id, list), list[..|list| - 1], list[|list| - 1];
    WithEntryTotal(before, id, list);
    assert EntrySum(list) == EntrySum(front) + last.output.value;
    assert Total(after) - last.output.value == Total(before) + EntrySum(front);
    assert id in after && after[id] == list;
  }

  /** What is known while entries are looked at: those not waiting have been collected in full. */
  ghost predicate Collecting(c: Crypto, m: Index, address: Address, keys: set<Bytes>, amount: int, utxoMap: Index,
                             sum: int) {
    && keys <= m.Keys && utxoMap == Owned(c, m, address) - keys
    && sum == Wrap(Total(utxoMap)) && (amount > 0 ==> sum < amount)
  }

  ghost predicate Collected(c: Crypto, m: Index, address: Address, amount: int, utxoMap: Index, sum: int) {
    && sum == Wrap(Total(utxoMap)) && PartOf(c, m, address, utxoMap)
    && (sum < amount ==> utxoMap == Owned(c, m, address))
    && (sum >= amount > 0 ==> NeededLast(utxoMap, amount))
  }

  lemma {:induction false} StopsHere(c: Crypto, m: Index, address: Address, keys: set<Bytes>, id: Bytes, n: nat,
                                     amount: int,
                                     before: Index, list: seq<IndexedOutput>, sum: int)
    requires keys <= m.Keys && before == Owned(c, m, address) - keys && id in keys
    requires n <= |m[id]| && list == Bound(c, m[id][..n], address)
    requires sum == Wrap(Total(before) + EntrySum(list)) && sum >= amount
    requires amount > 0 ==> list != [] && Wrap(Total(before) + EntrySum(list[..|list| - 1])) < amount
    ensures Collected(c, m, address, amount, WithEntry(before, id, list), sum)
  {
    assert id !in before;
    SumAfter(before, id, list, sum);
    ReachedPart(c, m, address, keys, before, id, n);
    if amount > 0 {
      LastNeeded(before, id, list, amount);
    }
  }

  lemma {:induction false} GoesOn(c: Crypto, m: Index, address: Address, keys: set<Bytes>, id: Bytes, amount: int,
                                  before: Index, list: seq<IndexedOutput>, sum: int)
    requires keys <= m.Keys && before == Owned(c, m, address) - keys && id in keys && list == Bound(c, m[id], address)
    requires sum == Wrap(Total(before) + EntrySum(list)) && (amount > 0 ==> sum < amount)
    ensures Collecting(c, m, address, keys - {id}, amount, WithEntry(before, id, list), sum)
  {
    assert id !in before;
    SumAfter(before, id, list, sum);
    OwnedStep(c, m, address, keys, id);
  }

  /** One entry of the map. */
  method CollectNext(c: Crypto, m: Index, address: Address, ghost keys: set<Bytes>, id: Bytes, amount: int,
                     before: Index, sum0: int)
      returns (utxoMap: Index, sum: int, reached: bool)
    requires id in keys && Collecting(c, m, address, keys, amount, before, sum0)
    ensures if reached then sum >= amount && Collected(c, m, address, amount, utxoMap, sum)
            else Collecting(c, m, address, keys - {id}, amount, utxoMap, sum)
  {
    var list;
    ghost var n;
    list, sum, reached, n := CollectBound(c, m[id], address, Total(before), sum0, amount);
    utxoMap := if list != [] then before[id := list] else before;
    assert utxoMap == WithEntry(before, id, list);
    if reached {
      StopsHere(c, m, address, keys, id, n, amount, before, list, sum);
    } else {
      assert m[id][..n] == m[id];
      GoesOn(c, m, address, keys, id, amount, before, list, sum);
    }
  }

  /** Returns the 64-bit sum of what it collects.  A sum below the amount means that everything the address owns has
      been collected; otherwise nothing is collected beyond the output that reaches the amount. */
  method FindSpendableOutput(utxoSet: UTXOSet, c: Crypto, address: Address, amount: int)
      returns (accumulatedAmount: int, utxoMap: Index)
    ensures accumulatedAmount == Wrap(Total(utxoMap)) && PartOf(c, utxoSet.database.utxo, address, utxoMap)
    ensures accumulatedAmount < amount ==> utxoMap == Owned(c, utxoSet.database.utxo, address)
    ensures accumulatedAmount >= amount > 0 ==> NeededLast(utxoMap, amount)
  {
    accumulatedAmount, utxoMap := 0, map[];
    var m := utxoSet.database.utxo;
    var keys := m.Keys;
    assert utxoMap == Owned(c, m, address) - keys;
    while keys != {}
      invariant Collecting(c, m, address, keys, amount, utxoMap, accumulatedAmount)
      decreases keys
    {
      var id :| id in keys;
      var reached;
      utxoMap, accumulatedAmount, reached := CollectNext(c, m, address, keys, id, amount, utxoMap, accumulatedAmount);
      if reached {
        return;
      }
      keys := keys - {id};
    }
    WholePart(c, m, address);
    assert utxoMap == Owned(c, m, address);
  }
}
