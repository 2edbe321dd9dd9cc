/** Entering transactions again.  A mempool is never emptied, so the block a miner assembles holds confirmed
    transactions beside fresh ones; and a block that is delivered again is entered again as a whole. */
module Reentry {
  import opened Types
  import opened UtxoSpec
  import opened ChainSpec
  import opened Conservation

  // ---------- what entering a list of transactions leaves ----------

  /** The output positions of transaction `id` that are spent after its last occurrence in the list. */
  function LaterSpends(txs: seq<Transaction>, id: Bytes): set<int> {
    if txs == [] || txs[|txs| - 1].hash == id then {}
    else LaterSpends(txs[..|txs| - 1], id) + SpentBy(txs[|txs| - 1].inputs, id)
  }

  ghost predicate NamesItself(tx: Transaction) {
    SpentBy(tx.inputs, tx.hash) != {}
  }

  /** Every entry after a list of transactions: outputs entered by the list lack what the rest of it spends, other
      entries lack what the list spends. */
  lemma {:induction false} EnterLookup(m: Index, txs: seq<Transaction>, id: Bytes)
    requires forall tx :: tx in txs ==> !NamesItself(tx)
    ensures Lookup(ApplyAll(m, txs), id)
            == match FindTx(txs, id)
               case None => Without(Lookup(m, id), SpentOn(txs, id))
               case Some(tx) => Unspent(tx.outputs, LaterSpends(txs, id))
  {
    if txs == [] {
      WithoutNothing(Lookup(m, id));
    } else {
      var n := |txs| - 1;
      var front, tx := txs[..n], txs[n];
      assert !NamesItself(tx);
      EnterLookup(m, front, id);
      ApplyLookup(ApplyAll(m, front), tx, id);
      if tx.hash != id {
        match FindTx(front, id)
        case None => WithoutTwice(Lookup(m, id), SpentOn(front, id), SpentBy(tx.inputs, id));
        case Some(t) => WithoutUnspent(t.outputs, LaterSpends(front, id), SpentBy(tx.inputs, id));
      }
    }
  }

  lemma {:induction false} LaterSpendsWithin(txs: seq<Transaction>, id: Bytes)
    ensures LaterSpends(txs, id) <= SpentOn(txs, id)
  {
    if txs != [] {
      LaterSpendsWithin(txs[..|txs| - 1], id);
    }
  }

  lemma {:induction false} LaterSpendsAt(txs: seq<Transaction>, j: int)
    requires UniqueIds(txs) && 0 <= j < |txs|
    ensures LaterSpends(txs, txs[j].hash) == SpentOn(txs[j + 1..], txs[j].hash)
  {
    var n := |txs| - 1;
    if j == n {
      assert txs[n + 1..] == [];
    } else {
      var front, rest := txs[..n], txs[j + 1..];
      LaterSpendsAt(front, j);
      assert txs[n].hash != txs[j].hash;
      assert rest[..|rest| - 1] == front[j + 1..] && rest[|rest| - 1] == txs[n];
    }
  }

  lemma {:induction false} UnspentSameIff(outputs: seq<TxOutput>, s: set<int>, s': set<int>)
    ensures Unspent(outputs, s) == Unspent(outputs, s')
            <==> forall i :: 0 <= i < |outputs| ==> (i in s <==> i in s')
  {
    if i :| 0 <= i < |outputs| && !(i in s <==> i in s') {
      UnspentMember(outputs, s, IndexedOutput(outputs[i], i));
      UnspentMember(outputs, s', IndexedOutput(outputs[i], i));
    } else {
      UnspentCongruent(outputs, s, s');
    }
  }

  // ---------- confirmed and fresh transactions ----------

  /** The transactions that are not confirmed yet. */
  function Fresh(known: set<Bytes>, txs: seq<Transaction>): seq<Transaction> {
    if txs == [] then []
    else
      var tx := txs[|txs| - 1];
      Fresh(known, txs[..|txs| - 1]) + if tx.hash in known then [] else [tx]
  }

  lemma {:induction false} FreshMember(known: set<Bytes>, txs: seq<Transaction>, tx: Transaction)
    ensures tx in Fresh(known, txs) <==> tx in txs && tx.hash !in known
  {
    if txs != [] {
      FreshMember(known, txs[..|txs| - 1], tx);
      assert txs == txs[..|txs| - 1] + [txs[|txs| - 1]];
    }
  }

  lemma {:induction false} FreshFind(known: set<Bytes>, txs: seq<Transaction>, id: Bytes)
    requires FindTx(txs, id) == None
    ensures FindTx(Fresh(known, txs), id) == None
  {
    if txs != [] {
      var front, tx := txs[..|txs| - 1], txs[|txs| - 1];
      FreshFind(known, front, id);
      if tx.hash !in known {
        assert Fresh(known, txs)[..|Fresh(known, txs)| - 1] == Fresh(known, front);
      } else {
        assert Fresh(known, txs) == Fresh(known, front);
      }
    }
  }

  lemma {:induction false} FreshConcat(known: set<Bytes>, a: seq<Transaction>, b: seq<Transaction>)
    ensures Fresh(known, a + b) == Fresh(known, a) + Fresh(known, b)
  {
    if b == [] {
      assert a + b == a;
    } else {
      assert (a + b)[..|a + b| - 1] == a + b[..|b| - 1];
      FreshConcat(known, a, b[..|b| - 1]);
    }
  }

  lemma {:induction false} NoneFresh(known: set<Bytes>, txs: seq<Transaction>)
    requires forall tx :: tx in txs ==> tx.hash in known
    ensures Fresh(known, txs) == []
  {
    if txs != [] {
      NoneFresh(known, txs[..|txs| - 1]);
    }
  }

  /** The chain with the block that holds the fresh transactions only. */
  function WithFresh(chain: seq<Block>, txs: seq<Transaction>): seq<Block> {
    chain + [Block(ZERO_HEADER, Fresh(IdsOf(Forward(chain)), txs))]
  }

  /** A list of confirmed transactions of the chain, each once, and fresh ones that make a valid block. */
  ghost predicate Mixed(chain: seq<Block>, txs: seq<Transaction>) {
    && ValidChain(WithFresh(chain, txs)) && UniqueIds(txs)
    && forall tx :: tx in txs && tx.hash in IdsOf(Forward(chain)) ==> tx in Forward(chain)
  }

  lemma {:induction false} MixedFacts(chain: seq<Block>, txs: seq<Transaction>)
    requires Mixed(chain, txs)
    ensures ValidChain(chain) && UniqueIds(Forward(WithFresh(chain, txs))) && Causal(Forward(WithFresh(chain, txs)))
    ensures Forward(WithFresh(chain, txs)) == Forward(chain) + Fresh(IdsOf(Forward(chain)), txs)
    ensures IndexOf(WithFresh(chain, txs)) == ApplyAll(IndexOf(chain), Fresh(IdsOf(Forward(chain)), txs))
    ensures forall tx :: tx in txs ==> tx in Forward(WithFresh(chain, txs))
  {
    var whole, recent := WithFresh(chain, txs), Fresh(IdsOf(Forward(chain)), txs);
    assert whole[..|whole| - 1] == chain && whole[|whole| - 1].transactions == recent;
    ValidChainFacts(whole);
    ApplyAllConcat(map[], Forward(chain), recent);
    forall tx | tx in txs ensures tx in Forward(whole) {
      FreshMember(IdsOf(Forward(chain)), txs, tx);
    }
  }

  lemma {:induction false} CausalNamesNot(txs: seq<Transaction>, tx: Transaction)
    requires Causal(txs) && tx in txs
    ensures !NamesItself(tx)
  {
    var k :| 0 <= k < |txs| && txs[k] == tx;
    var before := txs[..k + 1];
    assert SpentOn(before, tx.hash) == {} && before[|before| - 1] == tx;
    assert SpentOn(before, tx.hash) == SpentOn(before[..k], tx.hash) + SpentBy(tx.inputs, tx.hash);
  }

  lemma {:induction false} SpentOnSubset(txs: seq<Transaction>, all: seq<Transaction>, id: Bytes)
    requires forall tx :: tx in txs ==> tx in all
    ensures SpentOn(txs, id) <= SpentOn(all, id)
  {
    forall v | v in SpentOn(txs, id) ensures v in SpentOn(all, id) {
      SpentOnMember(txs, id, v);
      SpentOnMember(all, id, v);
      var k :| 0 <= k < |txs| && Spends(txs[k], id, v);
      assert txs[k] in all;
      var n :| 0 <= n < |all| && all[n] == txs[k];
      assert Spends(all[n], id, v);
    }
  }

  /** An output that the index holds is spent nowhere on the chain. */
  lemma {:induction false} HeldUnspent(chain: seq<Block>, id: Bytes, e: IndexedOutput)
    requires ValidChain(chain) && e in Lookup(IndexOf(chain), id)
    ensures e.index !in SpentOn(Forward(chain), id)
  {
    assert Holds(IndexOf(chain), id, e.index);
    assert UniqueIds(Forward(chain)) && Causal(Forward(chain)) by {
      ValidChainFacts(chain);
    }
    HeldMeans(Forward(chain), id, e.index);
  }

  lemma {:induction false} MixedNamesNot(chain: seq<Block>, txs: seq<Transaction>)
    requires Mixed(chain, txs)
    ensures forall tx :: tx in txs ==> !NamesItself(tx)
  {
    MixedFacts(chain, txs);
    forall tx | tx in txs ensures !NamesItself(tx) {
      CausalNamesNot(Forward(WithFresh(chain, txs)), tx);
    }
  }

  lemma {:induction false} RightEntry(chain: seq<Block>, tx: Transaction)
    requires ValidChain(chain) && tx in Forward(chain)
    ensures Lookup(IndexOf(chain), tx.hash) == Unspent(tx.outputs, SpentOn(Forward(chain), tx.hash))
  {
    var all := Forward(chain);
    assert UniqueIds(all) && Causal(all) by {
      ValidChainFacts(chain);
    }
    IncrementalIsConfirmed(all, tx.hash);
    assert FindTx(all, tx.hash) == Some(tx) by {
      var k :| 0 <= k < |all| && all[k] == tx;
      FindTxAt(all, k);
    }
  }

  lemma {:induction false} EnteredEntry(m: Index, txs: seq<Transaction>, j: int)
    requires UniqueIds(txs) && 0 <= j < |txs| && forall tx :: tx in txs ==> !NamesItself(tx)
    ensures Lookup(ApplyAll(m, txs), txs[j].hash) == Unspent(txs[j].outputs, SpentOn(txs[j + 1..], txs[j].hash))
  {
    EnterLookup(m, txs, txs[j].hash);
    FindTxAt(txs, j);
    LaterSpendsAt(txs, j);
  }

  /** The right entry of a transaction of the list, and the one that entering the list leaves. */
  lemma {:induction false} EntryHere(chain: seq<Block>, txs: seq<Transaction>, j: int)
    requires Mixed(chain, txs) && 0 <= j < |txs|
    ensures var tx, all := txs[j], Forward(WithFresh(chain, txs));
            && Lookup(ApplyAll(IndexOf(chain), txs), tx.hash) == Unspent(tx.outputs, SpentOn(txs[j + 1..], tx.hash))
            && Lookup(IndexOf(WithFresh(chain, txs)), tx.hash) == Unspent(tx.outputs, SpentOn(all, tx.hash))
            && SpentOn(txs[j + 1..], tx.hash) <= SpentOn(all, tx.hash)
  {
    var tx, whole := txs[j], WithFresh(chain, txs);
    MixedNamesNot(chain, txs);
    EnteredEntry(IndexOf(chain), txs, j);
    assert forall t :: t in txs ==> t in Forward(whole) by {
      MixedFacts(chain, txs);
    }
    RightEntry(whole, tx);
    SpentOnSubset(txs[j + 1..], Forward(whole), tx.hash);
  }

  /** Entries of other transactions do not suffer from what is entered again. */
  lemma {:induction false} EntryElsewhere(chain: seq<Block>, txs: seq<Transaction>, id: Bytes)
    requires Mixed(chain, txs) && id !in IdsOf(txs)
    ensures Lookup(ApplyAll(IndexOf(chain), txs), id) == Lookup(IndexOf(WithFresh(chain, txs)), id)
  {
    var recent, entry := Fresh(IdsOf(Forward(chain)), txs), Lookup(IndexOf(chain), id);
    assert Lookup(ApplyAll(IndexOf(chain), txs), id) == Without(entry, SpentOn(txs, id)) by {
      var _ := FindTxFound(txs, id);
      MixedNamesNot(chain, txs);
      EnterLookup(IndexOf(chain), txs, id);
    }
    assert Lookup(IndexOf(WithFresh(chain, txs)), id) == Without(entry, SpentOn(recent, id)) by {
      FreshElsewhere(chain, txs, id);
    }
    forall e | e in entry ensures e.index in SpentOn(txs, id) <==> e.index in SpentOn(recent, id) {
      SpentByFresh(chain, txs, id, e);
    }
    WithoutCongruent(entry, SpentOn(txs, id), SpentOn(recent, id));
  }

  lemma {:induction false} FreshElsewhere(chain: seq<Block>, txs: seq<Transaction>, id: Bytes)
    requires Mixed(chain, txs) && id !in IdsOf(txs)
    ensures Lookup(IndexOf(WithFresh(chain, txs)), id)
            == Without(Lookup(IndexOf(chain), id), SpentOn(Fresh(IdsOf(Forward(chain)), txs), id))
  {
    var known, recent := IdsOf(Forward(chain)), Fresh(IdsOf(Forward(chain)), txs);
    assert IndexOf(WithFresh(chain, txs)) == ApplyAll(IndexOf(chain), recent) by {
      MixedFacts(chain, txs);
    }
    assert FindTx(recent, id) == None by {
      var _ := FindTxFound(txs, id);
      FreshFind(known, txs, id);
    }
    forall t | t in recent ensures !NamesItself(t) {
      FreshMember(known, txs, t);
      MixedNamesNot(chain, txs);
    }
    EnterLookup(IndexOf(chain), recent, id);
  }

  /** What the index holds, a list spends only by its fresh transactions. */
  lemma {:induction false} SpentByFresh(chain: seq<Block>, txs: seq<Transaction>, id: Bytes, e: IndexedOutput)
    requires Mixed(chain, txs) && e in Lookup(IndexOf(chain), id)
    ensures e.index in SpentOn(txs, id) <==> e.index in SpentOn(Fresh(IdsOf(Forward(chain)), txs), id)
  {
    var recent, whole := Fresh(IdsOf(Forward(chain)), txs), WithFresh(chain, txs);
    assert forall t :: t in recent ==> t in txs by {
      forall t | t in recent ensures t in txs {
        FreshMember(IdsOf(Forward(chain)), txs, t);
      }
    }
    SpentOnSubset(recent, txs, id);
    assert SpentOn(txs, id) <= SpentOn(Forward(chain), id) + SpentOn(recent, id) by {
      MixedFacts(chain, txs);
      SpentOnSubset(txs, Forward(whole), id);
      SpentOnConcat(Forward(chain), recent, id);
    }
    assert ValidChain(chain) by {
      MixedFacts(chain, txs);
    }
    HeldUnspent(chain, id, e);
  }

  // ---------- when it is harmless ----------

  /** Every output of the `j`-th transaction that is spent on the chain is spent again later in the list. */
  ghost predicate AgainAt(all: seq<Transaction>, txs: seq<Transaction>, j: int)
    requires 0 <= j < |txs|
  {
    forall i :: 0 <= i < |txs[j].outputs| && i in SpentOn(all, txs[j].hash) ==> i in SpentOn(txs[j + 1..], txs[j].hash)
  }

  ghost predicate SpentAgain(all: seq<Transaction>, txs: seq<Transaction>) {
    forall j :: 0 <= j < |txs| ==> AgainAt(all, txs, j)
  }

  lemma {:induction false} EntryRightIff(chain: seq<Block>, txs: seq<Transaction>, j: int)
    requires Mixed(chain, txs) && 0 <= j < |txs|
    ensures Lookup(ApplyAll(IndexOf(chain), txs), txs[j].hash) == Lookup(IndexOf(WithFresh(chain, txs)), txs[j].hash)
            <==> AgainAt(Forward(WithFresh(chain, txs)), txs, j)
  {
    EntryHere(chain, txs, j);
    var id := txs[j].hash;
    UnspentSameIff(txs[j].outputs, SpentOn(txs[j + 1..], id), SpentOn(Forward(WithFresh(chain, txs)), id));
  }

  /** Main theorem on entering transactions again: a block with confirmed and fresh transactions leaves the index that
      its fresh transactions alone would leave, exactly if each of its outputs that is spent by then is spent again
      later in the block. */
  lemma {:induction false} ReentryHarmlessIff(chain: seq<Block>, txs: seq<Transaction>)
    requires Mixed(chain, txs)
    ensures Agree(ApplyAll(IndexOf(chain), txs), IndexOf(WithFresh(chain, txs)))
            <==> SpentAgain(Forward(WithFresh(chain, txs)), txs)
  {
    var left, right := ApplyAll(IndexOf(chain), txs), IndexOf(WithFresh(chain, txs));
    var all := Forward(WithFresh(chain, txs));
    if SpentAgain(all, txs) {
      forall id ensures Lookup(left, id) == Lookup(right, id) {
        if id in IdsOf(txs) {
          var j :| 0 <= j < |txs| && txs[j].hash == id;
          EntryRightIff(chain, txs, j);
        } else {
          EntryElsewhere(chain, txs, id);
        }
      }
    } else {
      var j :| 0 <= j < |txs| && !AgainAt(all, txs, j);
      EntryRightIff(chain, txs, j);
      if Agree(left, right) {
        AgreeEverywhere(left, right, txs[j].hash);
      }
    }
  }

  lemma {:induction false} NothingFresh(chain: seq<Block>, txs: seq<Transaction>)
    requires ValidChain(chain) && UniqueIds(txs) && forall tx :: tx in txs ==> tx in Forward(chain)
    ensures Mixed(chain, txs) && Forward(WithFresh(chain, txs)) == Forward(chain)
  {
    var whole := WithFresh(chain, txs);
    HashesWithin(txs, Forward(chain));
    NoneFresh(IdsOf(Forward(chain)), txs);
    assert whole[..|whole| - 1] == chain && whole[|chain|].transactions == [];
    assert ValidNext(chain, whole[|chain|]);
  }

  lemma {:induction false} HashesWithin(txs: seq<Transaction>, all: seq<Transaction>)
    requires forall tx :: tx in txs ==> tx in all
    ensures forall tx :: tx in txs ==> tx.hash in IdsOf(all)
  {
    forall tx | tx in txs ensures tx.hash in IdsOf(all) {
      var k :| 0 <= k < |all| && all[k] == tx;
      assert all[k].hash in IdsOf(all);
    }
  }

  /** With nothing fresh: a list of confirmed transactions leaves the index as it is exactly if each of its spent
      outputs is spent again later in the list. */
  lemma {:induction false} ConfirmedReentryIff(chain: seq<Block>, pool: seq<Transaction>)
    requires ValidChain(chain) && UniqueIds(pool) && forall tx :: tx in pool ==> tx in Forward(chain)
    ensures Agree(ApplyAll(IndexOf(chain), pool), IndexOf(chain)) <==> SpentAgain(Forward(chain), pool)
  {
    NothingFresh(chain, pool);
    ReentryHarmlessIff(chain, pool);
  }

  ghost predicate Untouched(all: seq<Transaction>, tx: Transaction) {
    forall i :: 0 <= i < |tx.outputs| ==> i !in SpentOn(all, tx.hash)
  }

  lemma {:induction false} OneAgain(all: seq<Transaction>, tx: Transaction)
    ensures SpentAgain(all, [tx]) <==> Untouched(all, tx)
  {
    var one := [tx];
    assert one[0] == tx && one[1..] == [] && SpentOn(one[1..], tx.hash) == {};
    assert SpentAgain(all, one) <==> AgainAt(all, one, 0);
    assert AgainAt(all, one, 0) ==> Untouched(all, tx);
    assert Untouched(all, tx) ==> AgainAt(all, one, 0);
  }

  /** A single confirmed transaction: exactly if none of its outputs has been spent. */
  lemma {:induction false} OneReentryIff(chain: seq<Block>, tx: Transaction)
    requires ValidChain(chain) && tx in Forward(chain)
    ensures Agree(Apply(IndexOf(chain), tx), IndexOf(chain))
            <==> Untouched(Forward(chain), tx)
  {
    ConfirmedReentryIff(chain, [tx]);
    assert ApplyAll(IndexOf(chain), [tx]) == Apply(IndexOf(chain), tx) by {
      assert [tx][..0] == [];
    }
    OneAgain(Forward(chain), tx);
  }

  // ---------- what it is worth ----------

  /** What the `j`-th transaction brings back: its outputs that the rest of the list leaves, less those that should be
      left. */
  function RevivedAt(all: seq<Transaction>, txs: seq<Transaction>, j: int): int
    requires 0 <= j < |txs|
  {
    var tx := txs[j];
    EntrySum(Unspent(tx.outputs, SpentOn(txs[j + 1..], tx.hash))) - EntrySum(Unspent(tx.outputs, SpentOn(all, tx.hash)))
  }

  function Sum(values: seq<int>): int {
    if values == [] then 0 else Sum(values[..|values| - 1]) + values[|values| - 1]
  }

  /** What the list brings back, transaction by transaction. */
  function Revived(all: seq<Transaction>, txs: seq<Transaction>): (values: seq<int>)
    ensures |values| == |txs|
  {
    seq(|txs|, j requires 0 <= j < |txs| => RevivedAt(all, txs, j))
  }

  function Differences(m: Index, m': Index, txs: seq<Transaction>): int {
    if txs == [] then 0
    else
      var id := txs[|txs| - 1].hash;
      Differences(m, m', txs[..|txs| - 1]) + EntrySum(Lookup(m', id)) - EntrySum(Lookup(m, id))
  }

  lemma {:induction false} SameDifferences(m: Index, m': Index, m'': Index, txs: seq<Transaction>)
    requires forall id :: id in IdsOf(txs) ==> Lookup(m', id) == Lookup(m'', id)
    ensures Differences(m, m', txs) == Differences(m, m'', txs)
  {
    if txs != [] {
      IdsSplit(txs);
      SameDifferences(m, m', m'', txs[..|txs| - 1]);
    }
  }

  /** Indexes that differ at these transactions only. */
  lemma {:induction false} TotalDifference(m: Index, m': Index, txs: seq<Transaction>)
    requires UniqueIds(txs) && forall id :: id !in IdsOf(txs) ==> Lookup(m, id) == Lookup(m', id)
    ensures Total(m') == Total(m) + Differences(m, m', txs)
    decreases |txs|
  {
    if txs == [] {
      AgreeTotal(m, m');
    } else {
      var n := |txs| - 1;
      var front, id := txs[..n], txs[n].hash;
      var between := m'[id := Lookup(m, id)];
      IdsSplit(txs);
      assert id !in IdsOf(front) by {
        forall k | 0 <= k < n ensures front[k].hash != id {}
      }
      TotalDifference(m, between, front);
      SameDifferences(m, m', between, front);
      TotalChanged(between, m', id);
    }
  }

  lemma {:induction false} TotalChanged(m: Index, m': Index, id: Bytes)
    requires forall i :: i != id ==> Lookup(m, i) == Lookup(m', i)
    ensures Total(m') == Total(m) - EntrySum(Lookup(m, id)) + EntrySum(Lookup(m', id))
  {
    var ids := m.Keys + m'.Keys + {id};
    TotalWider(m, ids);
    TotalWider(m', ids);
    TotalChange(m, m', ids, id);
  }

  lemma {:induction false} DifferencesSum(m: Index, m': Index, txs: seq<Transaction>, values: seq<int>)
    requires |values| == |txs| && forall j :: 0 <= j < |txs| ==> DiffersBy(m, m', txs[j].hash, values[j])
    ensures Differences(m, m', txs) == Sum(values)
  {
    if txs != [] {
      var n := |txs| - 1;
      DifferencesSum(m, m', txs[..n], values[..n]);
      assert DiffersBy(m, m', txs[n].hash, values[n]);
    }
  }

  ghost predicate DiffersBy(m: Index, m': Index, id: Bytes, value: int) {
    EntrySum(Lookup(m', id)) - EntrySum(Lookup(m, id)) == value
  }

  /** How much too much the index is worth after a block with confirmed transactions. */
  lemma {:induction false} ReentryValue(chain: seq<Block>, txs: seq<Transaction>)
    requires Mixed(chain, txs)
    ensures Total(ApplyAll(IndexOf(chain), txs))
            == Total(IndexOf(WithFresh(chain, txs))) + Sum(Revived(Forward(WithFresh(chain, txs)), txs))
  {
    var left, right := ApplyAll(IndexOf(chain), txs), IndexOf(WithFresh(chain, txs));
    assert Total(left) == Total(right) + Differences(right, left, txs) by {
      forall id | id !in IdsOf(txs) ensures Lookup(right, id) == Lookup(left, id) {
        EntryElsewhere(chain, txs, id);
      }
      TotalDifference(right, left, txs);
    }
    var values := Revived(Forward(WithFresh(chain, txs)), txs);
    forall j | 0 <= j < |txs| ensures DiffersBy(right, left, txs[j].hash, values[j]) {
      EntryHere(chain, txs, j);
    }
    DifferencesSum(right, left, txs, values);
  }
}
