/** Who is paid by a transfer, and what the parties own once it is confirmed. */
module Payments {
  import opened Types
  import opened UtxoSpec
  import opened ChainSpec
  import opened UtxoSet
  import opened Admission
  import opened Conservation
  import opened WalletModel
  import Reentry
  import SpvSpec

  /** What a list of outputs pays to an address. */
  function PaidTo(c: Crypto, outputs: seq<TxOutput>, address: Address): int {
    if outputs == [] then 0
    else
      var last := outputs[|outputs| - 1];
      PaidTo(c, outputs[..|outputs| - 1], address) + if IsBoundTo(c, last, address) then last.value else 0
  }

  predicate ApartFrom(c: Crypto, a: Address, b: Address) {
    c.addressHash(a) != c.addressHash(b)
  }

  /** The amount and the change are within 64 bits. */
  predicate WithinRange(picks: seq<Pick>, amount: int) {
    Fits(PickSum(picks)) && Fits(PickSum(picks) - amount)
  }

  lemma {:induction false} PaidToOne(c: Crypto, output: TxOutput, address: Address)
    ensures PaidTo(c, [output], address) == if IsBoundTo(c, output, address) then output.value else 0
  {
    assert [output][..0] == [];
  }

  lemma {:induction false} PaidToTwo(c: Crypto, first: TxOutput, second: TxOutput, address: Address)
    ensures PaidTo(c, [first, second], address) == PaidTo(c, [first], address) + PaidTo(c, [second], address)
  {
    assert [first, second][..1] == [first];
    PaidToOne(c, second, address);
  }

  /** Main theorem on who is paid: a transfer between different parties pays the recipient exactly the amount and gives
      the sender back exactly what was picked beyond it, and pays nobody else. */
  lemma {:induction false} TransferPays(c: Crypto, sign: Signer, w: Wallet, from: Address, to: Address, amount: int,
                                        now: int, picks: seq<Pick>)
    requires ApartFrom(c, from, to) && JustEnough(picks, amount) && WithinRange(picks, amount)
    ensures var outputs := TransferOf(c, sign, w, from, to, amount, now, picks).outputs;
            && PaidTo(c, outputs, to) == amount
            && PaidTo(c, outputs, from) == PickSum(picks) - amount
            && forall i :: 0 <= i < |outputs| ==> IsBoundTo(c, outputs[i], to) || IsBoundTo(c, outputs[i], from)
  {
    var outputs := TransferOf(c, sign, w, from, to, amount, now, picks).outputs;
    WrapFacts(PickSum(picks), 0);
    WrapFacts(PickSum(picks) - amount, 0);
    if |outputs| == 1 {
      assert outputs == [outputs[0]];
      PaidToOne(c, outputs[0], to);
      PaidToOne(c, outputs[0], from);
    } else {
      assert outputs == [outputs[0], outputs[1]];
      PaidToTwo(c, outputs[0], outputs[1], to);
      PaidToTwo(c, outputs[0], outputs[1], from);
      PaidToOne(c, outputs[0], to);
      PaidToOne(c, outputs[1], to);
      PaidToOne(c, outputs[0], from);
      PaidToOne(c, outputs[1], from);
    }
  }

  // ---------- what the parties own afterwards ----------

  lemma {:induction false} BoundUnspentSum(c: Crypto, outputs: seq<TxOutput>, address: Address)
    ensures EntrySum(Bound(c, Unspent(outputs, {}), address)) == PaidTo(c, outputs, address)
  {
    if outputs != [] {
      var n := |outputs| - 1;
      var front, all := Unspent(outputs[..n], {}), Unspent(outputs, {});
      assert all[..|all| - 1] == front && all[|all| - 1] == IndexedOutput(outputs[n], n);
      BoundUnspentSum(c, outputs[..n], address);
      EntrySumSnoc(Bound(c, front, address), IndexedOutput(outputs[n], n));
      assert Bound(c, front, address) + [] == Bound(c, front, address);
    }
  }

  /** What an address owns after a transaction: what it owned, less what the inputs take, and its outputs. */
  lemma {:induction false} OwnedAfter(c: Crypto, m: Index, tx: Transaction, address: Address)
    requires Lookup(m, tx.hash) == [] && SpentBy(tx.inputs, tx.hash) == {}
    ensures Agree(Owned(c, Apply(m, tx), address),
                  Take(Owned(c, m, address), tx.inputs)[tx.hash := Bound(c, Unspent(tx.outputs, {}), address)])
  {
    var own := Owned(c, m, address);
    var right := Take(own, tx.inputs)[tx.hash := Bound(c, Unspent(tx.outputs, {}), address)];
    forall id ensures Lookup(Owned(c, Apply(m, tx), address), id) == Lookup(right, id) {
      OwnedEntry(c, Apply(m, tx), address, id);
      OwnedEntry(c, m, address, id);
      ApplyLookup(m, tx, id);
      SpvSpec.BoundWithout(c, Lookup(m, id), SpentBy(tx.inputs, id), address);
    }
  }

  lemma {:induction false} OwnedEntry(c: Crypto, m: Index, address: Address, id: Bytes)
    ensures Lookup(Owned(c, m, address), id) == Bound(c, Lookup(m, id), address)
  {
  }

  lemma {:induction false} WorthAfter(c: Crypto, m: Index, tx: Transaction, address: Address)
    requires Lookup(m, tx.hash) == [] && SpentBy(tx.inputs, tx.hash) == {}
    ensures Total(Owned(c, Apply(m, tx), address))
            == Total(Take(Owned(c, m, address), tx.inputs)) + PaidTo(c, tx.outputs, address)
  {
    var taken, entry := Take(Owned(c, m, address), tx.inputs), Bound(c, Unspent(tx.outputs, {}), address);
    var right := taken[tx.hash := entry];
    OwnedAfter(c, m, tx, address);
    AgreeTotal(Owned(c, Apply(m, tx), address), right);
    assert Lookup(taken, tx.hash) == [] by {
      OwnedEntry(c, m, address, tx.hash);
    }
    Reentry.TotalChanged(taken, right, tx.hash);
    BoundUnspentSum(c, tx.outputs, address);
  }

  /** Inputs that name outputs of one party take nothing from another. */
  lemma {:induction false} NothingTaken(c: Crypto, m: Index, inputs: seq<TxInput>, from: Address, other: Address)
    requires ApartFrom(c, from, other) && AllHeld(Owned(c, m, from), inputs)
    requires forall id :: UniqueIndexes(Lookup(m, id))
    ensures Total(Take(Owned(c, m, other), inputs)) == Total(Owned(c, m, other))
  {
    var own := Owned(c, m, other);
    forall id ensures Lookup(Take(own, inputs), id) == Lookup(own, id) {
      var entry := Lookup(own, id);
      forall e | e in entry ensures e.index !in SpentBy(inputs, id) {
        NotNamed(c, m, inputs, from, other, id, e);
      }
      WithoutCongruent(entry, SpentBy(inputs, id), {});
      WithoutNothing(entry);
    }
    AgreeTotal(Take(own, inputs), own);
  }

  lemma {:induction false} NotNamed(c: Crypto, m: Index, inputs: seq<TxInput>, from: Address, other: Address, id: Bytes,
                                    e: IndexedOutput)
    requires ApartFrom(c, from, other) && AllHeld(Owned(c, m, from), inputs) && UniqueIndexes(Lookup(m, id))
    requires e in Lookup(Owned(c, m, other), id)
    ensures e.index !in SpentBy(inputs, id)
  {
    OwnedEntry(c, m, other, id);
    OwnedEntry(c, m, from, id);
    BoundMember(c, Lookup(m, id), other, e);
    forall i | 0 <= i < |inputs| && inputs[i].txID == id ensures inputs[i].vOut != e.index {
      assert Holds(Owned(c, m, from), inputs[i].txID, inputs[i].vOut);
      var held :| held in Lookup(Owned(c, m, from), id) && held.index == inputs[i].vOut;
      BoundMember(c, Lookup(m, id), from, held);
      if held.index == e.index {
        OneAtIndex(Lookup(m, id), e, held);
      }
    }
  }

  lemma {:induction false} OneAtIndex(entry: seq<IndexedOutput>, a: IndexedOutput, b: IndexedOutput)
    requires UniqueIndexes(entry) && a in entry && b in entry && a.index == b.index
    ensures a == b
  {
    var i :| 0 <= i < |entry| && entry[i] == a;
    var j :| 0 <= j < |entry| && entry[j] == b;
    assert !(i < j) && !(j < i);
  }

  /** The inputs of a transfer name outputs that the sender owns, and what they are worth there is what was picked. */
  lemma {:induction false} InputsOwned(c: Crypto, sign: Signer, w: Wallet, m: Index, from: Address, picks: seq<Pick>)
    requires forall id :: UniqueIndexes(Lookup(m, id))
    requires PicksFrom(Owned(c, m, from), picks)
    ensures var inputs := SignedInputs(sign, w, picks);
            && AllHeld(Owned(c, m, from), inputs) && InputSum(Owned(c, m, from), inputs) == PickSum(picks)
  {
    var own, inputs := Owned(c, m, from), SignedInputs(sign, w, picks);
    forall i | 0 <= i < |picks|
      ensures Holds(own, inputs[i].txID, inputs[i].vOut)
      ensures InputValue(own, SignedInput(sign, w, picks[i])) == picks[i].entry.output.value
    {
      PickHeld(c, m, from, picks[i]);
    }
    SignedSum(sign, w, own, picks);
  }

  lemma {:induction false} PickHeld(c: Crypto, m: Index, from: Address, pick: Pick)
    requires pick.id in Owned(c, m, from) && pick.entry in Owned(c, m, from)[pick.id]
    requires UniqueIndexes(Lookup(m, pick.id))
    ensures Holds(Owned(c, m, from), pick.id, pick.entry.index)
    ensures Referenced(Lookup(Owned(c, m, from), pick.id), pick.entry.index) == Some(pick.entry.output)
  {
    var entry := Owned(c, m, from)[pick.id];
    assert entry == Bound(c, m[pick.id], from);
    BoundUnique(c, m[pick.id], from);
    ReferencedMember(entry, pick.entry.index);
    var found := Referenced(entry, pick.entry.index);
    assert found.Some?;
    OneAtIndex(entry, pick.entry, IndexedOutput(found.value, pick.entry.index));
  }

  lemma {:induction false} OwnedUniqueIndexes(c: Crypto, m: Index, from: Address)
    requires forall id :: UniqueIndexes(Lookup(m, id))
    ensures forall id :: id in Owned(c, m, from) ==> UniqueIndexes(Owned(c, m, from)[id])
  {
    forall id | id in Owned(c, m, from) ensures UniqueIndexes(Owned(c, m, from)[id]) {
      assert UniqueIndexes(Lookup(m, id));
      BoundUnique(c, m[id], from);
    }
  }

  /** A transfer with a new hash, built from what the sender owns. */
  ghost predicate BuiltFrom(c: Crypto, m: Index, from: Address, amount: int, picks: seq<Pick>, tx: Transaction) {
    && (forall id :: UniqueIndexes(Lookup(m, id))) && Lookup(m, tx.hash) == []
    && PicksFrom(Owned(c, m, from), picks) && JustEnough(picks, amount) && WithinRange(picks, amount)
  }

  lemma {:induction false} NamesOthers(c: Crypto, sign: Signer, w: Wallet, m: Index, from: Address, to: Address,
                                       amount: int, now: int, picks: seq<Pick>)
    requires BuiltFrom(c, m, from, amount, picks, TransferOf(c, sign, w, from, to, amount, now, picks))
    ensures var tx := TransferOf(c, sign, w, from, to, amount, now, picks); SpentBy(tx.inputs, tx.hash) == {}
  {
    var tx := TransferOf(c, sign, w, from, to, amount, now, picks);
    forall i | 0 <= i < |tx.inputs| ensures tx.inputs[i].txID != tx.hash {
      assert picks[i].id in Owned(c, m, from) && picks[i].entry in Owned(c, m, from)[picks[i].id];
      OwnedEntry(c, m, from, picks[i].id);
    }
    SpentByNothing(tx.inputs, tx.hash);
  }

  /** Main theorem on confirmed transfers: the recipient owns the amount more, the sender the amount less, and everybody
      else what they owned. */
  lemma {:induction false} TransferMoves(c: Crypto, sign: Signer, w: Wallet, m: Index, from: Address, to: Address,
                                         amount: int, now: int, picks: seq<Pick>, other: Address)
    requires ApartFrom(c, from, to) && ApartFrom(c, from, other) && ApartFrom(c, to, other)
    requires BuiltFrom(c, m, from, amount, picks, TransferOf(c, sign, w, from, to, amount, now, picks))
    ensures var m' := Apply(m, TransferOf(c, sign, w, from, to, amount, now, picks));
            && Total(Owned(c, m', to)) == Total(Owned(c, m, to)) + amount
            && Total(Owned(c, m', from)) == Total(Owned(c, m, from)) - amount
            && Total(Owned(c, m', other)) == Total(Owned(c, m, other))
  {
    var tx := TransferOf(c, sign, w, from, to, amount, now, picks);
    NamesOthers(c, sign, w, m, from, to, amount, now, picks);
    InputsOwned(c, sign, w, m, from, picks);
    TransferPays(c, sign, w, from, to, amount, now, picks);
    WorthAfter(c, m, tx, to);
    WorthAfter(c, m, tx, from);
    WorthAfter(c, m, tx, other);
    NothingTaken(c, m, tx.inputs, from, to);
    NothingTaken(c, m, tx.inputs, from, other);
    PaysNobodyElse(c, tx.outputs, from, to, other);
    SenderTaken(c, sign, w, m, from, picks);
  }

  lemma {:induction false} SenderTaken(c: Crypto, sign: Signer, w: Wallet, m: Index, from: Address, picks: seq<Pick>)
    requires (forall id :: UniqueIndexes(Lookup(m, id))) && PicksFrom(Owned(c, m, from), picks)
    ensures Total(Take(Owned(c, m, from), SignedInputs(sign, w, picks))) == Total(Owned(c, m, from)) - PickSum(picks)
  {
    InputsOwned(c, sign, w, m, from, picks);
    OwnedUniqueIndexes(c, m, from);
    assert DistinctPicks(picks);
    TakeTotal(Owned(c, m, from), SignedInputs(sign, w, picks));
  }

  lemma {:induction false} PaysNobodyElse(c: Crypto, outputs: seq<TxOutput>, a: Address, b: Address, other: Address)
    requires ApartFrom(c, a, other) && ApartFrom(c, b, other)
    requires forall i :: 0 <= i < |outputs| ==> IsBoundTo(c, outputs[i], a) || IsBoundTo(c, outputs[i], b)
    ensures PaidTo(c, outputs, other) == 0
  {
    if outputs != [] {
      PaysNobodyElse(c, outputs[..|outputs| - 1], a, b, other);
    }
  }
}
