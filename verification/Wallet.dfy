/** `wallet/wallets.go`: balance and transfers, given the answer of a node to a query for unspent outputs. */
module WalletModel {
  import opened Types
  import opened UtxoSpec
  import opened UtxoSet
  import opened Admission
  import opened Conservation
  import Balances
  import opened ChainSpec
  import SpvSpec
  import opened FullNodes
  import SpvNodes
  import Gossip

  datatype Wallet = Wallet(privateKey: Bytes, publicKey: Bytes)

  /** `ecdsa.Sign` on a private key and an unsigned input: the two numbers of the signature as byte strings. */
  datatype Signature = Signature(r: Bytes, s: Bytes)
  type Signer = (Bytes, TxInput) -> Signature

  datatype TransferResult = NoWallet | QueryFailed | NotEnough | Sent(transaction: Transaction)

  // ---------- the parts of a transfer ----------

  /** An output chosen to be spent. */
  datatype Pick = Pick(id: Bytes, entry: IndexedOutput)

  function PickSum(picks: seq<Pick>): int {
    if picks == [] then 0 else PickSum(picks[..|picks| - 1]) + picks[|picks| - 1].entry.output.value
  }

  function PicksOf(id: Bytes, entry: seq<IndexedOutput>): (picks: seq<Pick>)
    ensures |picks| == |entry|
  {
    seq(|entry|, i requires 0 <= i < |entry| => Pick(id, entry[i]))
  }

  function UnsignedInput(w: Wallet, pick: Pick): TxInput {
    TxInput(pick.id, pick.entry.index, UnlockingScript([], w.publicKey))
  }

  function SignedInput(sign: Signer, w: Wallet, pick: Pick): TxInput {
    var x := UnsignedInput(w, pick);
    var signature := sign(w.privateKey, x);
    x.(scriptSig := x.scriptSig.(signature := signature.r + signature.s))
  }

  function SignedInputs(sign: Signer, w: Wallet, picks: seq<Pick>): (inputs: seq<TxInput>)
    ensures |inputs| == |picks|
  {
    seq(|picks|, i requires 0 <= i < |picks| => SignedInput(sign, w, picks[i]))
  }

  /** The payment, and the change when there is any. */
  function TransferOutputs(c: Crypto, from: Address, to: Address, amount: int, total: int): seq<TxOutput> {
    [CreateTxnOutput(c, amount, to)] + if total > amount then [CreateTxnOutput(c, Wrap(total - amount), from)] else []
  }

  function TransferOf(c: Crypto, sign: Signer, w: Wallet, from: Address, to: Address, amount: int, now: int,
                      picks: seq<Pick>): Transaction {
    WithHash(c, Transaction([], SignedInputs(sign, w, picks),
                            TransferOutputs(c, from, to, amount, Wrap(PickSum(picks))), now))
  }

  /** The picks are held outputs, none picked twice. */
  ghost predicate PicksFrom(utxoMap: Index, picks: seq<Pick>) {
    && (forall i :: 0 <= i < |picks| ==> picks[i].id in utxoMap && picks[i].entry in utxoMap[picks[i].id])
    && ((forall id :: id in utxoMap ==> UniqueIndexes(utxoMap[id])) ==> DistinctPicks(picks))
  }

  ghost predicate DistinctPicks(picks: seq<Pick>) {
    forall i, j :: 0 <= i < j < |picks|
      ==> !(picks[i].id == picks[j].id && picks[i].entry.index == picks[j].entry.index)
  }

  /** Picking stopped as soon as the amount was reached by the running 64-bit sum. */
  ghost predicate JustEnough(picks: seq<Pick>, amount: int) {
    Wrap(PickSum(picks)) >= amount && Short(picks, |picks| - 1, amount)
  }

  /** The amount is reached nowhere among the first `n` picks. */
  ghost predicate Short(picks: seq<Pick>, n: int, amount: int) {
    forall k :: 0 < k <= n && k <= |picks| ==> Wrap(PickSum(picks[..k])) < amount
  }

  // ---------- sums over picks ----------

  lemma {:induction false} PickSumConcat(a: seq<Pick>, b: seq<Pick>)
    ensures PickSum(a + b) == PickSum(a) + PickSum(b)
  {
    if b == [] {
      assert a + b == a;
    } else {
      assert (a + b)[..|a + b| - 1] == a + b[..|b| - 1];
      PickSumConcat(a, b[..|b| - 1]);
    }
  }

  lemma {:induction false} PicksOfSum(id: Bytes, entry: seq<IndexedOutput>)
    ensures PickSum(PicksOf(id, entry)) == EntrySum(entry)
  {
    if entry != [] {
      var n := |entry| - 1;
      PicksOfSum(id, entry[..n]);
      assert PicksOf(id, entry)[..n] == PicksOf(id, entry[..n]);
    }
  }

  lemma PicksOfSnoc(id: Bytes, entry: seq<IndexedOutput>, i: int)
    requires 0 <= i < |entry|
    ensures PicksOf(id, entry[..i + 1]) == PicksOf(id, entry[..i]) + [Pick(id, entry[i])]
  {
  }

  lemma PickSumSnoc(picks: seq<Pick>, pick: Pick)
    ensures PickSum(picks + [pick]) == PickSum(picks) + pick.entry.output.value
  {
    assert (picks + [pick])[..|picks|] == picks;
  }

  /** One more pick: either the amount is reached with it, or still nowhere. */
  lemma PickStep(picks: seq<Pick>, pick: Pick, amount: int)
    requires Short(picks, |picks|, amount)
    ensures var more := picks + [pick]; var sum := Wrap(Wrap(PickSum(picks)) + pick.entry.output.value);
            && sum == Wrap(PickSum(more))
            && (if sum >= amount then JustEnough(more, amount) else Short(more, |more|, amount))
  {
    var more := picks + [pick];
    PickSumSnoc(picks, pick);
    WrapFacts(PickSum(picks), pick.entry.output.value);
    forall k | 0 < k <= |more| ensures Wrap(PickSum(more[..k])) < amount || k == |more| {
      if k < |more| {
        assert more[..k] == picks[..k];
      }
    }
    assert more[..|more|] == more;
  }

  // ---------- the loops ----------

  /** The inner loop of `GetBalance`: adds one entry to a 64-bit sum. */
  method AddEntry(entry: seq<IndexedOutput>, sum0: int, ghost total0: int) returns (sum: int)
    requires sum0 == Wrap(total0)
    ensures sum == Wrap(total0 + EntrySum(entry))
  {
    sum := sum0;
    for i := 0 to |entry|
      invariant sum == Wrap(total0 + EntrySum(entry[..i]))
    {
      assert entry[..i + 1][..i] == entry[..i];
      WrapFacts(total0 + EntrySum(entry[..i]), entry[i].output.value);
      sum := Wrap(sum + entry[i].output.value);
    }
    assert entry[..|entry|] == entry;
  }

  /** `GetBalance`, with 64-bit sums. */
  method GetBalance(utxoMap: Option<Index>) returns (balance: int)
    ensures balance == if utxoMap == None then 0 else Wrap(Total(utxoMap.value))
  {
    if utxoMap == None {
      return 0;
    }
    balance := 0;
    var m := utxoMap.value;
    var keys := m.Keys;
    ghost var done := 0;
    while keys != {}
      invariant keys <= m.Keys && balance == Wrap(done) && done + TotalOver(m, keys) == Total(m)
      decreases keys
    {
      var id :| id in keys;
      TotalPick(m, keys, id);
      balance := AddEntry(m[id], balance, done);
      done := done + EntrySum(m[id]);
      keys := keys - {id};
    }
  }

  /** The inner loop of `Transfer`: stops, and makes the outer loop stop, when the amount is reached. */
  method PickFrom(id: Bytes, entry: seq<IndexedOutput>, picks0: seq<Pick>, sum0: int, amount: int)
      returns (picks: seq<Pick>, sum: int, reached: bool, ghost n: nat)
    requires sum0 == Wrap(PickSum(picks0)) && Short(picks0, |picks0|, amount)
    ensures n <= |entry| && picks == picks0 + PicksOf(id, entry[..n]) && sum == Wrap(PickSum(picks))
    ensures if reached then JustEnough(picks, amount) && picks != [] else n == |entry| && Short(picks, |picks|, amount)
  {
    picks, sum, reached := picks0, sum0, false;
    n := 0;
    assert picks0 + PicksOf(id, entry[..0]) == picks0;
    for i := 0 to |entry|
      invariant n == i && picks == picks0 + PicksOf(id, entry[..n]) && sum == Wrap(PickSum(picks))
      invariant Short(picks, |picks|, amount)
    {
      PicksOfSnoc(id, entry, i);
      PickStep(picks, Pick(id, entry[i]), amount);
      picks := picks + [Pick(id, entry[i])];
      sum := Wrap(sum + entry[i].output.value);
      n := i + 1;
      if sum >= amount {
        return picks, sum, true, n;
      }
    }
    assert entry[..|entry|] == entry;
  }

  /** What is kept while whole entries are used up: the picks come from entries no longer waiting. */
  ghost predicate PickedSoFar(m: Index, keys: set<Bytes>, picks: seq<Pick>) {
    && PicksFrom(m, picks)
    && (forall i :: 0 <= i < |picks| ==> picks[i].id !in keys)
  }

  lemma PickedMore(m: Index, keys: set<Bytes>, picks: seq<Pick>, id: Bytes, n: nat)
    requires PickedSoFar(m, keys, picks) && id in keys && id in m && n <= |m[id]|
    ensures PickedSoFar(m, keys - {id}, picks + PicksOf(id, m[id][..n]))
  {
    var more := PicksOf(id, m[id][..n]);
    var all := picks + more;
    if forall id :: id in m ==> UniqueIndexes(m[id]) {
      forall i, j | 0 <= i < j < |all| ensures !(all[i].id == all[j].id && all[i].entry.index == all[j].entry.index) {
        if i >= |picks| {
          assert m[id][i - |picks|].index != m[id][j - |picks|].index;
        }
      }
    }
  }

  // ---------- the order of the map's keys ----------

  /** The list holds just these keys, each once. */
  ghost predicate Lists(order: seq<Bytes>, keys: set<Bytes>) {
    (forall i, j :: 0 <= i < j < |order| ==> order[i] != order[j]) && forall id :: id in order <==> id in keys
  }

  /** An order in which a loop over the map may meet its keys. */
  ghost predicate OrderOf(m: Index, order: seq<Bytes>) {
    Lists(order, m.Keys)
  }

  lemma {:induction false} ListsConcat(a: seq<Bytes>, keysA: set<Bytes>, b: seq<Bytes>, keysB: set<Bytes>)
    requires Lists(a, keysA) && Lists(b, keysB) && keysA !! keysB
    ensures Lists(a + b, keysA + keysB)
  {
    forall i, j | 0 <= i < j < |a + b| ensures (a + b)[i] != (a + b)[j] {
      if i < |a| <= j {
        assert a[i] in keysA && b[j - |a|] in keysB;
      }
    }
  }

  /** Everything there is to pick, in that order. */
  function Listing(m: Index, order: seq<Bytes>): seq<Pick> {
    if order == [] then []
    else
      var id := order[|order| - 1];
      Listing(m, order[..|order| - 1]) + PicksOf(id, Lookup(m, id))
  }

  lemma {:induction false} ListingConcat(m: Index, a: seq<Bytes>, b: seq<Bytes>)
    ensures Listing(m, a + b) == Listing(m, a) + Listing(m, b)
  {
    if b == [] {
      assert a + b == a;
    } else {
      assert (a + b)[..|a + b| - 1] == a + b[..|b| - 1];
      ListingConcat(m, a, b[..|b| - 1]);
    }
  }

  lemma {:induction false} SomeOrder(keys: set<Bytes>) returns (order: seq<Bytes>)
    ensures Lists(order, keys)
    decreases keys
  {
    order := [];
    if keys != {} {
      var id :| id in keys;
      var rest := SomeOrder(keys - {id});
      ListsConcat([id], {id}, rest, keys - {id});
      assert {id} + (keys - {id}) == keys;
      order := [id] + rest;
    }
  }

  lemma {:induction false} ListingTotalOver(m: Index, order: seq<Bytes>, ids: set<Bytes>)
    requires Lists(order, ids)
    ensures PickSum(Listing(m, order)) == TotalOver(m, ids)
  {
    if order == [] {
      assert ids == {};
    } else {
      var n := |order| - 1;
      var id := order[n];
      assert order == order[..n] + [id];
      ListingTotalOver(m, order[..n], ids - {id});
      TotalPick(m, ids, id);
      PickSumConcat(Listing(m, order[..n]), PicksOf(id, Lookup(m, id)));
      PicksOfSum(id, Lookup(m, id));
    }
  }

  lemma {:induction false} ListingTotal(m: Index, order: seq<Bytes>)
    requires OrderOf(m, order)
    ensures PickSum(Listing(m, order)) == Total(m)
  {
    ListingTotalOver(m, order, m.Keys);
  }

  /** What has been picked when the loop stops in the middle of an entry is the beginning of a listing. */
  lemma {:induction false} StoppedInside(m: Index, keys: set<Bytes>, done: seq<Bytes>, id: Bytes, n: nat)
      returns (order: seq<Bytes>)
    requires id in keys && keys <= m.Keys && n <= |m[id]|
    requires Lists(done, m.Keys - keys)
    ensures OrderOf(m, order) && Listing(m, done) + PicksOf(id, m[id][..n]) <= Listing(m, order)
    ensures m[id] != [] ==> Listing(m, order) != []
  {
    var rest := SomeOrder(keys - {id});
    var next := done + [id];
    order := next + rest;
    ListsConcat(done, m.Keys - keys, [id], {id});
    ListsConcat(next, m.Keys - keys + {id}, rest, keys - {id});
    assert m.Keys - keys + {id} + (keys - {id}) == m.Keys;
    ListingConcat(m, next, rest);
    assert next[..|done|] == done;
    assert PicksOf(id, m[id][..n]) <= PicksOf(id, m[id]);
    assert Listing(m, next) == Listing(m, done) + PicksOf(id, m[id]);
  }

  /** Some beginning of the listing, looked at after each pick, has a 64-bit sum that reaches the amount. */
  ghost predicate Reaches(all: seq<Pick>, amount: int) {
    if all == [] then 0 >= amount else exists n :: 0 < n <= |all| && Wrap(PickSum(all[..n])) >= amount
  }

  /** The outer loop of `Transfer`, in any order of the map's keys. */
  method PickOutputs(m: Index, amount: int) returns (picks: seq<Pick>, sum: int, ghost order: seq<Bytes>)
    ensures PicksFrom(m, picks) && sum == Wrap(PickSum(picks))
    ensures OrderOf(m, order) && picks <= Listing(m, order)
    ensures sum >= amount <==> Reaches(Listing(m, order), amount)
    ensures if sum >= amount then JustEnough(picks, amount) else picks == Listing(m, order)
  {
    picks, sum := [], 0;
    var keys := m.Keys;
    ghost var done: seq<Bytes> := [];
    while keys != {}
      invariant keys <= m.Keys && PickedSoFar(m, keys, picks) && sum == Wrap(PickSum(picks))
      invariant picks == Listing(m, done) && Short(picks, |picks|, amount)
      invariant Lists(done, m.Keys - keys)
      decreases keys
    {
      var id :| id in keys;
      ghost var picks0 := picks;
      var reached;
      ghost var n;
      picks, sum, reached, n := PickFrom(id, m[id], picks, sum, amount);
      PickedMore(m, keys, picks0, id, n);
      if reached {
        order := StoppedInside(m, keys, done, id, n);
        ReachedIn(Listing(m, order), picks, amount);
        return;
      }
      assert m[id][..n] == m[id] && (done + [id])[..|done|] == done;
      ListsConcat(done, m.Keys - keys, [id], {id});
      assert m.Keys - (keys - {id}) == m.Keys - keys + {id};
      done := done + [id];
      keys := keys - {id};
    }
    order := done;
    NowhereReached(picks, amount);
  }

  lemma {:induction false} ReachedIn(all: seq<Pick>, picks: seq<Pick>, amount: int)
    requires picks <= all && picks != [] && Wrap(PickSum(picks)) >= amount
    ensures Reaches(all, amount)
  {
    assert all[..|picks|] == picks;
  }

  lemma {:induction false} NowhereReached(all: seq<Pick>, amount: int)
    requires Short(all, |all|, amount)
    ensures Wrap(PickSum(all)) >= amount <==> Reaches(all, amount)
    ensures Wrap(PickSum(all)) >= amount ==> all == [] && JustEnough(all, amount)
  {
    if all != [] {
      assert all[..|all|] == all;
      forall n | 0 < n <= |all| ensures Wrap(PickSum(all[..n])) < amount {}
    }
  }

  method SignAll(sign: Signer, w: Wallet, picks: seq<Pick>) returns (inputs: seq<TxInput>)
    ensures inputs == SignedInputs(sign, w, picks)
  {
    inputs := [];
    for i := 0 to |picks|
      invariant inputs == SignedInputs(sign, w, picks[..i])
    {
      var x := UnsignedInput(w, picks[i]);
      var signature := sign(w.privateKey, x);
      inputs := inputs + [x.(scriptSig := x.scriptSig.(signature := signature.r + signature.s))];
    }
    assert picks[..|picks|] == picks;
  }

  /** `Transfer`, with the node's answer and the clock as parameters, and the order in which the answer was gone
      through.  Insufficient balance is reported exactly if no beginning of the listing reaches the amount. */
  method Transfer(c: Crypto, sign: Signer, wallets: map<Address, Wallet>, from: Address, to: Address, amount: int,
                  answer: Option<Index>, now: int)
      returns (result: TransferResult, ghost order: seq<Bytes>)
    ensures result == NoWallet <==> from !in wallets
    ensures result == QueryFailed <==> from in wallets && answer == None
    ensures from in wallets && answer != None ==>
              OrderOf(answer.value, order) && (result == NotEnough <==> !Reaches(Listing(answer.value, order), amount))
    ensures result.Sent? ==> exists picks ::
              && PicksFrom(answer.value, picks) && picks <= Listing(answer.value, order) && JustEnough(picks, amount)
              && result.transaction == TransferOf(c, sign, wallets[from], from, to, amount, now, picks)
  {
    if from !in wallets {
      return NoWallet, [];
    }
    if answer == None {
      return QueryFailed, [];
    }
    var w := wallets[from];
    var picks, transferAmount;
    picks, transferAmount, order := PickOutputs(answer.value, amount);
    if transferAmount < amount {
      return NotEnough, order;
    }
    var newTxnOutputs := [CreateTxnOutput(c, amount, to)];
    if transferAmount > amount {
      newTxnOutputs := newTxnOutputs + [CreateTxnOutput(c, Wrap(transferAmount - amount), from)];
    }
    assert newTxnOutputs == TransferOutputs(c, from, to, amount, transferAmount);
    var newTxnInputs := SignAll(sign, w, picks);
    var newTransaction := WithHash(c, Transaction([], newTxnInputs, newTxnOutputs, now));
    assert newTransaction == TransferOf(c, sign, w, from, to, amount, now, picks);
    return Sent(newTransaction), order;
  }

  // ---------- admission of transfers ----------

  /** Cutting a signature in the middle gives back its two numbers exactly if the second is as long as the first
      or one byte longer. */
  lemma CutRecoversIff(signature: Signature)
    ensures var joined := signature.r + signature.s; var half := |joined| / 2;
            joined[..half] == signature.r && joined[half..] == signature.s
            <==> |signature.s| == |signature.r| || |signature.s| == |signature.r| + 1
  {
  }

  /** A signature of lengths that the cut gets right. */
  predicate CutsWell(signature: Signature) {
    |signature.s| == |signature.r| || |signature.s| == |signature.r| + 1
  }

  /** What the private key of the wallet makes of the input that spends this pick, its signature left out. */
  function SignatureOf(sign: Signer, w: Wallet, pick: Pick): Signature {
    sign(w.privateKey, TxInput(pick.id, pick.entry.index, UnlockingScript([], w.publicKey)))
  }

  ghost predicate SignsWell(c: Crypto, sign: Signer, w: Wallet, pick: Pick) {
    var x := TxInput(pick.id, pick.entry.index, UnlockingScript([], w.publicKey));
    var signature := sign(w.privateKey, x);
    c.verify(w.publicKey, x, signature.r, signature.s) && CutsWell(signature)
  }

  /** Of all places where the joined signature could be cut, only the right one gives two numbers that verify. */
  ghost predicate OnlyOwnCutVerifies(c: Crypto, sign: Signer, w: Wallet, pick: Pick) {
    var x := TxInput(pick.id, pick.entry.index, UnlockingScript([], w.publicKey));
    var signature := sign(w.privateKey, x);
    var joined := signature.r + signature.s;
    forall n :: 0 <= n <= |joined| ==> (c.verify(w.publicKey, x, joined[..n], joined[n..]) <==> n == |signature.r|)
  }

  /** One input of a transfer passes the index check, up to the signature, and is worth what was picked. */
  lemma PickChecked(c: Crypto, sign: Signer, w: Wallet, m: Index, from: Address, pick: Pick)
    requires pick.id in Owned(c, m, from) && pick.entry in Owned(c, m, from)[pick.id]
    requires UniqueIndexes(Lookup(m, pick.id)) && c.keyHash(w.publicKey) == c.addressHash(from)
    ensures CheckInput(c, m, SignedInput(sign, w, pick))
            == if ValidSignature(c, SignedInput(sign, w, pick)) then Accepted else BadSignature
    ensures InputValue(m, SignedInput(sign, w, pick)) == pick.entry.output.value
  {
    BoundMember(c, m[pick.id], from, pick.entry);
    ReferencedMember(m[pick.id], pick.entry.index);
  }

  /** A well-signed input is accepted; and if only the right cut verifies, then no other is. */
  lemma {:induction false} SignatureChecked(c: Crypto, sign: Signer, w: Wallet, pick: Pick)
    ensures SignsWell(c, sign, w, pick) ==> ValidSignature(c, SignedInput(sign, w, pick))
    ensures OnlyOwnCutVerifies(c, sign, w, pick) ==>
              (ValidSignature(c, SignedInput(sign, w, pick)) <==> CutsWell(SignatureOf(sign, w, pick)))
  {
    var x, signature := SignedInput(sign, w, pick), SignatureOf(sign, w, pick);
    var joined := signature.r + signature.s;
    var half := |joined| / 2;
    assert Unsigned(x) == UnsignedInput(w, pick) && x.scriptSig.signature == joined;
    assert ValidSignature(c, x) <==> c.verify(w.publicKey, UnsignedInput(w, pick), joined[..half], joined[half..]);
    assert half == |signature.r| <==> CutsWell(signature);
    CutRecoversIff(signature);
  }

  lemma {:induction false} SignedSum(sign: Signer, w: Wallet, m: Index, picks: seq<Pick>)
    requires forall i :: 0 <= i < |picks| ==>
               InputValue(m, SignedInput(sign, w, picks[i])) == picks[i].entry.output.value
    ensures InputSum(m, SignedInputs(sign, w, picks)) == PickSum(picks)
  {
    if picks != [] {
      var n := |picks| - 1;
      assert SignedInputs(sign, w, picks)[..n] == SignedInputs(sign, w, picks[..n]);
      SignedSum(sign, w, m, picks[..n]);
    }
  }

  /** Payment and change add up to what was picked, in 64-bit arithmetic always, and for an amount that is not
      negative exactly as far as 64 bits go. */
  lemma TransferOutputSum(c: Crypto, from: Address, to: Address, amount: int, picked: int)
    requires Wrap(picked) >= amount
    ensures var paid := OutputSum(TransferOutputs(c, from, to, amount, Wrap(picked)));
            Wrap(paid) == Wrap(picked) && (amount >= 0 ==> paid == Wrap(picked))
  {
    var total := Wrap(picked);
    var payment, change := CreateTxnOutput(c, amount, to), CreateTxnOutput(c, Wrap(total - amount), from);
    assert OutputSum([payment]) == OutputSum([]) + payment.value by {
      assert [payment][..0] == [];
    }
    WrapFacts(picked, 0);
    WrapFacts(total - amount, amount);
    if total > amount {
      assert [payment] + [change] == [payment, change] && [payment, change][..1] == [payment];
    } else {
      assert [payment] + [] == [payment];
    }
  }

  /** Owned entries keep the distinct positions of the index. */
  lemma {:induction false} BoundUnique(c: Crypto, entry: seq<IndexedOutput>, address: Address)
    requires UniqueIndexes(entry)
    ensures UniqueIndexes(Bound(c, entry, address))
  {
    if entry != [] {
      var n := |entry| - 1;
      BoundUnique(c, entry[..n], address);
      forall e | e in Bound(c, entry[..n], address) ensures e.index != entry[n].index {
        BoundMember(c, entry[..n], address, e);
      }
    }
  }

  lemma {:induction false} TransferBalanced(c: Crypto, from: Address, to: Address, amount: int, picked: int)
    requires Wrap(picked) >= amount
    ensures amount >= 0 ==> (OutputSum(TransferOutputs(c, from, to, amount, Wrap(picked))) == picked <==> Fits(picked))
  {
    TransferOutputSum(c, from, to, amount, picked);
    WrapFacts(picked, 0);
  }

  /** What a node that keeps such an index checks of a transfer. */
  lemma TransferChecked(c: Crypto, sign: Signer, w: Wallet, m: Index, mempool: seq<Transaction>,
                        from: Address, to: Address, amount: int, now: int, picks: seq<Pick>)
    requires forall id :: UniqueIndexes(Lookup(m, id))
    requires PicksFrom(Owned(c, m, from), picks) && JustEnough(picks, amount)
    requires c.keyHash(w.publicKey) == c.addressHash(from)
    requires TransferOf(c, sign, w, from, to, amount, now, picks).hash !in IdsOf(mempool)
    ensures var tx := TransferOf(c, sign, w, from, to, amount, now, picks);
            && InputSum(m, tx.inputs) == PickSum(picks)
            && (Admit(c, m, mempool, tx) == Accepted <==>
                forall i :: 0 <= i < |picks| ==> ValidSignature(c, SignedInput(sign, w, picks[i])))
  {
    var tx := TransferOf(c, sign, w, from, to, amount, now, picks);
    forall i | 0 <= i < |picks|
      ensures InputValue(m, SignedInput(sign, w, picks[i])) == picks[i].entry.output.value
      ensures CheckInput(c, m, tx.inputs[i]) == Accepted <==> ValidSignature(c, SignedInput(sign, w, picks[i]))
    {
      PickChecked(c, sign, w, m, from, picks[i]);
    }
    SignedSum(sign, w, m, picks);
    CheckInputsMeans(c, m, tx.inputs);
    TransferOutputSum(c, from, to, amount, PickSum(picks));
  }

  /** Main theorem on transfers: built from the answer `FindUTXO` gives for the sender, in whatever order of
      picking, a transfer spends distinct outputs of the sender, takes in exactly what it pays out as long as that is
      within 64 bits, and is admitted by a node with the same index. */
  lemma {:induction false} TransferAdmitted(c: Crypto, sign: Signer, w: Wallet, m: Index, mempool: seq<Transaction>,
                                            from: Address, to: Address, amount: int, now: int, picks: seq<Pick>)
    requires forall id :: UniqueIndexes(Lookup(m, id))
    requires PicksFrom(Owned(c, m, from), picks) && JustEnough(picks, amount)
    requires c.keyHash(w.publicKey) == c.addressHash(from)
    requires forall i :: 0 <= i < |picks| ==> SignsWell(c, sign, w, picks[i])
    requires TransferOf(c, sign, w, from, to, amount, now, picks).hash !in IdsOf(mempool)
    ensures var tx := TransferOf(c, sign, w, from, to, amount, now, picks);
            && InputSum(m, tx.inputs) == PickSum(picks)
            && (amount >= 0 ==> (OutputSum(tx.outputs) == InputSum(m, tx.inputs) <==> Fits(PickSum(picks))))
            && DistinctInputs(tx.inputs)
            && (forall i :: 0 <= i < |tx.inputs| ==> IsSignedBy(c, tx.inputs[i], from))
            && Admit(c, m, mempool, tx) == Accepted
  {
    TransferChecked(c, sign, w, m, mempool, from, to, amount, now, picks);
    TransferBalanced(c, from, to, amount, PickSum(picks));
    forall i | 0 <= i < |picks| ensures ValidSignature(c, SignedInput(sign, w, picks[i])) {
      SignatureChecked(c, sign, w, picks[i]);
    }
    forall id | id in Owned(c, m, from) ensures UniqueIndexes(Owned(c, m, from)[id]) {
      assert UniqueIndexes(Lookup(m, id));
      BoundUnique(c, m[id], from);
    }
    assert DistinctPicks(picks);
  }

  /** The cut decides.  If a signature verifies only when it is cut in the right place, a transfer is admitted exactly
      if the two numbers of each of its signatures have lengths that the cut gets right. */
  lemma {:induction false} TransferAdmittedIff(c: Crypto, sign: Signer, w: Wallet, m: Index, mempool: seq<Transaction>,
                                               from: Address, to: Address, amount: int, now: int, picks: seq<Pick>)
    requires forall id :: UniqueIndexes(Lookup(m, id))
    requires PicksFrom(Owned(c, m, from), picks) && JustEnough(picks, amount)
    requires c.keyHash(w.publicKey) == c.addressHash(from)
    requires forall i :: 0 <= i < |picks| ==> OnlyOwnCutVerifies(c, sign, w, picks[i])
    requires TransferOf(c, sign, w, from, to, amount, now, picks).hash !in IdsOf(mempool)
    ensures Admit(c, m, mempool, TransferOf(c, sign, w, from, to, amount, now, picks)) == Accepted
            <==> forall i :: 0 <= i < |picks| ==> CutsWell(SignatureOf(sign, w, picks[i]))
  {
    TransferChecked(c, sign, w, m, mempool, from, to, amount, now, picks);
    forall i | 0 <= i < |picks|
      ensures ValidSignature(c, SignedInput(sign, w, picks[i])) <==> CutsWell(SignatureOf(sign, w, picks[i]))
    {
      SignatureChecked(c, sign, w, picks[i]);
    }
  }

  /** A rejected transfer: the second number of the signature is a byte shorter than the first, as happens when its
      leading byte is zero. */
  lemma {:induction false} ShortSignatureExample(c0: Crypto, w: Wallet, from: Address, to: Address, now: int)
    ensures var c := c0.(keyHash := key => c0.addressHash(from), verify := (key, x, r, s) => r == [1, 2] && s == [3]);
            var sign: Signer := (key, x) => Signature([1, 2], [3]);
            var e := IndexedOutput(CreateTxnOutput(c, 10, from), 0);
            var tx := TransferOf(c, sign, w, from, to, 10, now, [Pick([1], e)]);
            Admit(c, map[[1] := [e]], [], tx) == BadSignature
  {
    var c := c0.(keyHash := key => c0.addressHash(from), verify := (key, x, r, s) => r == [1, 2] && s == [3]);
    var sign: Signer := (key, x) => Signature([1, 2], [3]);
    var e := IndexedOutput(CreateTxnOutput(c, 10, from), 0);
    var m: Index, pick := map[[1] := [e]], Pick([1], e);
    var x := SignedInput(sign, w, pick);
    assert !ValidSignature(c, x);
    assert CheckInput(c, m, x) == BadSignature;
    assert SignedInputs(sign, w, [pick]) == [x] && [x][..0] == [];
    assert CheckInputs(c, m, [x]) == BadSignature;
  }

  // ---------- a transfer built from an SPV node's answer ----------

  lemma PicksFromPart(part: Index, whole: Index, picks: seq<Pick>)
    requires forall id :: id in part ==> id in whole && part[id] == whole[id]
    requires forall id :: id in whole ==> UniqueIndexes(whole[id])
    requires PicksFrom(part, picks)
    ensures PicksFrom(whole, picks)
  {
  }

  lemma OwnedUnique(c: Crypto, chain: seq<Block>, m: Index, from: Address)
    requires ValidChain(chain) && Agree(m, IndexOf(chain))
    ensures forall id :: UniqueIndexes(Lookup(m, id))
    ensures forall id :: id in Owned(c, m, from) ==> UniqueIndexes(Owned(c, m, from)[id])
  {
    forall id ensures UniqueIndexes(Lookup(m, id)) {
      AgreeEverywhere(m, IndexOf(chain), id);
      IndexUnique(chain, id);
    }
    forall id | id in Owned(c, m, from) ensures UniqueIndexes(Owned(c, m, from)[id]) {
      assert UniqueIndexes(Lookup(m, id));
      BoundUnique(c, m[id], from);
    }
  }

  /** What the wallet picks from an SPV node's answer, it could have picked from a full node's. */
  lemma {:induction false} SpvAnswerServes(c: Crypto, headers: map<Bytes, BlockHeader>, monitored: seq<Address>,
                                           chain: seq<Block>, peers: seq<NodeInfo>, filters: map<Address, seq<Address>>,
                                           spv: Address, m: Index, from: Address, picks: seq<Pick>)
    requires SpvNodes.HeadersArrived(c, headers, chain) && Gossip.NoRepeats(AddressesOf(peers))
    requires NodeInfo(SPV, spv) in peers && FilterOf(filters, spv) == monitored && from in monitored
    requires chain != [] && SpvSpec.VerifiedChain(c, chain) && Agree(m, IndexOf(chain))
    requires var s := SpvNodes.DeliveredIndex(c, headers, monitored, chain, peers, filters, spv);
             PicksFrom(Owned(c, s, from), picks)
    ensures PicksFrom(Owned(c, m, from), picks)
  {
    var answer := Owned(c, SpvNodes.DeliveredIndex(c, headers, monitored, chain, peers, filters, spv), from);
    assert answer == Owned(c, m, from) - IdsOf(chain[0].transactions) by {
      SpvNodes.DeliveredAnswers(c, headers, monitored, chain, peers, filters, spv, from);
      AgreeOwned(c, m, IndexOf(chain), from);
    }
    assert forall id :: id in Owned(c, m, from) ==> UniqueIndexes(Owned(c, m, from)[id]) by {
      OwnedUnique(c, chain, m, from);
    }
    PicksFromPart(answer, Owned(c, m, from), picks);
  }

  /** End to end: the wallet asks an SPV node, whose index was built from the messages of a full node, and any node
      whose index is that of the same chain admits the transfer, and verifies it.  What the SPV node lacks of the first
      block does not matter here: it can only make the balance too small. */
  lemma {:induction false} SpvTransferAdmitted(c: Crypto, sign: Signer, w: Wallet, headers: map<Bytes, BlockHeader>,
                                               monitored: seq<Address>, chain: seq<Block>, peers: seq<NodeInfo>,
                                               filters: map<Address, seq<Address>>, spv: Address,
                                               m: Index, mempool: seq<Transaction>, from: Address, to: Address,
                                               amount: int, now: int, picks: seq<Pick>)
    requires SpvNodes.HeadersArrived(c, headers, chain) && Gossip.NoRepeats(AddressesOf(peers))
    requires NodeInfo(SPV, spv) in peers && FilterOf(filters, spv) == monitored && from in monitored
    requires chain != [] && SpvSpec.VerifiedChain(c, chain) && Agree(m, IndexOf(chain))
    requires var s := SpvNodes.DeliveredIndex(c, headers, monitored, chain, peers, filters, spv);
             PicksFrom(Owned(c, s, from), picks)
    requires JustEnough(picks, amount) && c.keyHash(w.publicKey) == c.addressHash(from)
    requires forall i :: 0 <= i < |picks| ==> SignsWell(c, sign, w, picks[i])
    requires TransferOf(c, sign, w, from, to, amount, now, picks).hash !in IdsOf(mempool)
    ensures var tx := TransferOf(c, sign, w, from, to, amount, now, picks);
            && Admit(c, m, mempool, tx) == Accepted && DistinctInputs(tx.inputs)
            && InputSum(m, tx.inputs) == PickSum(picks)
            && Verify(c, Backward(chain), tx) == Valid
  {
    SpvAnswerServes(c, headers, monitored, chain, peers, filters, spv, m, from, picks);
    assert forall id :: UniqueIndexes(Lookup(m, id)) by {
      OwnedUnique(c, chain, m, from);
    }
    TransferAdmitted(c, sign, w, m, mempool, from, to, amount, now, picks);
    AdmittedVerifies(c, chain, m, mempool, TransferOf(c, sign, w, from, to, amount, now, picks));
  }

  lemma {:induction false} AdmittedVerifies(c: Crypto, chain: seq<Block>, m: Index, mempool: seq<Transaction>,
                                            tx: Transaction)
    requires ValidChain(chain) && Agree(m, IndexOf(chain)) && Admit(c, m, mempool, tx) == Accepted
    ensures Verify(c, Backward(chain), tx) == Valid
  {
    assert chain + [] == chain;
    ValidChainFacts(chain);
    AdmissionImpliesVerification(c, chain, [], m, mempool, tx);
  }
}
