/** The two checks a full node makes on transactions: `handleNewTxnMsg` asks the index of unspent outputs,
    `verifyTransaction` walks the chain.  What the first accepts, the second accepts too, now and later. */
module Admission {
  import opened Types
  import opened UtxoSpec
  import opened ChainSpec
  import UtxoSet
  import opened BlockChains

  // ---------- Go arithmetic ----------

  const TWO63: int := 0x8000_0000_0000_0000
  const TWO64: int := 0x1_0000_0000_0000_0000

  /** What a 64-bit signed integer holds after overflow. */
  function Wrap(x: int): int {
    (x + TWO63) % TWO64 - TWO63
  }

  predicate Fits(x: int) {
    -TWO63 <= x < TWO63
  }

  lemma WrapFacts(x: int, y: int)
    ensures Fits(x) ==> Wrap(x) == x
    ensures Wrap(Wrap(x) + y) == Wrap(x + y)
  {
    var k := (x + TWO63) / TWO64;
    assert Wrap(x) + y + TWO63 == (x + y + TWO63) - k * TWO64;
    ModShift(x + y + TWO63, k);
  }

  lemma ModShift(a: int, k: int)
    ensures (a - k * TWO64) % TWO64 == a % TWO64
  {
    var q := a / TWO64;
    assert a - k * TWO64 == (q - k) * TWO64 + a % TWO64;
    var b := a - k * TWO64;
    var d := b / TWO64 - (q - k);
    assert d * TWO64 == a % TWO64 - b % TWO64;
  }

  function OutputSum(outputs: seq<TxOutput>): int {
    if outputs == [] then 0 else OutputSum(outputs[..|outputs| - 1]) + outputs[|outputs| - 1].value
  }

  // ---------- admission to the mempool ----------

  datatype Verdict = Accepted | Duplicate | MissingOutput | WrongKey | BadSignature | Overspends

  /** The signature is cut in the middle into the two numbers of an ECDSA signature. */
  predicate ValidSignature(c: Crypto, input: TxInput) {
    var signature := input.scriptSig.signature;
    var half := |signature| / 2;
    c.verify(input.scriptSig.pubKey, Unsigned(input), signature[..half], signature[half..])
  }

  function Unsigned(input: TxInput): TxInput {
    input.(scriptSig := input.scriptSig.(signature := []))
  }

  function CheckInput(c: Crypto, m: Index, input: TxInput): Verdict {
    match UtxoSet.Referenced(Lookup(m, input.txID), input.vOut)
    case None => MissingOutput
    case Some(output) =>
      if c.keyHash(input.scriptSig.pubKey) != output.scriptPubKey.pubKeyHash then WrongKey
      else if !ValidSignature(c, input) then BadSignature
      else Accepted
  }

  /** The first verdict other than acceptance. */
  function CheckInputs(c: Crypto, m: Index, inputs: seq<TxInput>): Verdict {
    if inputs == [] then Accepted
    else if CheckInputs(c, m, inputs[..|inputs| - 1]) != Accepted then CheckInputs(c, m, inputs[..|inputs| - 1])
    else CheckInput(c, m, inputs[|inputs| - 1])
  }

  function InputValue(m: Index, input: TxInput): int {
    match UtxoSet.Referenced(Lookup(m, input.txID), input.vOut)
    case None => 0
    case Some(output) => output.value
  }

  function InputSum(m: Index, inputs: seq<TxInput>): int {
    if inputs == [] then 0 else InputSum(m, inputs[..|inputs| - 1]) + InputValue(m, inputs[|inputs| - 1])
  }

  function Admit(c: Crypto, m: Index, mempool: seq<Transaction>, tx: Transaction): Verdict {
    if tx.hash in IdsOf(mempool) then Duplicate
    else if CheckInputs(c, m, tx.inputs) != Accepted then CheckInputs(c, m, tx.inputs)
    else if Wrap(InputSum(m, tx.inputs)) < Wrap(OutputSum(tx.outputs)) then Overspends
    else Accepted
  }

  lemma {:induction false} CheckInputsMeans(c: Crypto, m: Index, inputs: seq<TxInput>)
    ensures CheckInputs(c, m, inputs) == Accepted <==>
            forall i :: 0 <= i < |inputs| ==> CheckInput(c, m, inputs[i]) == Accepted
  {
    if inputs == [] {
    } else {
      var n := |inputs| - 1;
      CheckInputsMeans(c, m, inputs[..n]);
      if CheckInputs(c, m, inputs) == Accepted {
        forall i | 0 <= i < |inputs| ensures CheckInput(c, m, inputs[i]) == Accepted {
          if i < n { assert inputs[i] == inputs[..n][i]; }
        }
      }
    }
  }

  lemma {:induction false} ReferencedMember(entry: seq<IndexedOutput>, v: int)
    ensures UtxoSet.Referenced(entry, v).Some? ==> IndexedOutput(UtxoSet.Referenced(entry, v).value, v) in entry
    ensures UtxoSet.Referenced(entry, v).None? ==> forall e :: e in entry ==> e.index != v
  {
    if entry != [] && entry[0].index != v {
      ReferencedMember(entry[1..], v);
      assert entry == [entry[0]] + entry[1..];
    }
  }

  /** The sums are compared after 64-bit wrap-around.  An accepted transaction whose inputs sum within range pays
      out no more than it takes in exactly if its outputs do not sum beyond the range. */
  lemma {:induction false} NoOverspendIff(c: Crypto, m: Index, mempool: seq<Transaction>, tx: Transaction)
    requires Admit(c, m, mempool, tx) == Accepted && Fits(InputSum(m, tx.inputs))
    ensures OutputSum(tx.outputs) <= InputSum(m, tx.inputs) <==> OutputSum(tx.outputs) < TWO63
  {
    WrapFacts(InputSum(m, tx.inputs), 0);
    WrapFacts(OutputSum(tx.outputs), 0);
  }

  /** Outputs for which the wrapped sum is less than the sum. */
  lemma WrappedSum(pubKeyHash: Bytes)
    ensures var most := TxOutput(TWO63 - 1, LockingScript(pubKeyHash));
            OutputSum([most, most]) == TWO64 - 2 && Wrap(OutputSum([most, most])) == -2
  {
    var most := TxOutput(TWO63 - 1, LockingScript(pubKeyHash));
    assert [most, most][..1] == [most];
    assert OutputSum([most]) == OutputSum([]) + most.value == TWO63 - 1;
    assert OutputSum([most, most]) == OutputSum([most]) + most.value;
  }

  /** A transaction that any node admits although it pays out more than it takes in: it has no inputs, and two
      outputs whose wrapped sum is negative. */
  lemma {:induction false} OverspendAdmitted(c: Crypto, m: Index, mempool: seq<Transaction>, id: Bytes,
                                             pubKeyHash: Bytes)
    requires id !in IdsOf(mempool)
    ensures var most := TxOutput(TWO63 - 1, LockingScript(pubKeyHash));
            var tx := Transaction(id, [], [most, most], 0);
            Admit(c, m, mempool, tx) == Accepted && InputSum(m, tx.inputs) == 0 < OutputSum(tx.outputs)
  {
    WrappedSum(pubKeyHash);
  }

  /** Admitted inputs name outputs that the index holds. */
  lemma AcceptedHolds(c: Crypto, m: Index, tx: Transaction, i: int)
    requires CheckInputs(c, m, tx.inputs) == Accepted && 0 <= i < |tx.inputs|
    ensures Holds(m, tx.inputs[i].txID, tx.inputs[i].vOut)
  {
    CheckInputsMeans(c, m, tx.inputs);
    ReferencedMember(Lookup(m, tx.inputs[i].txID), tx.inputs[i].vOut);
    assert CheckInput(c, m, tx.inputs[i]) == Accepted;
  }

  // ---------- verification by walking the chain ----------

  /** `Crash` stands for Go's index-out-of-range panic. */
  datatype Check = Valid | Invalid | Crash

  function OutputsOf(txnMap: map<Bytes, Transaction>, id: Bytes): seq<TxOutput> {
    if id in txnMap then txnMap[id].outputs else []
  }

  function VerifyInputs(c: Crypto, txnMap: map<Bytes, Transaction>, inputs: seq<TxInput>): Check {
    if inputs == [] then Valid
    else
      var input := inputs[0];
      var outputs := OutputsOf(txnMap, input.txID);
      if !(0 <= input.vOut < |outputs|) then Crash
      else if c.keyHash(input.scriptSig.pubKey) != outputs[input.vOut].scriptPubKey.pubKeyHash then Invalid
      else if !ValidSignature(c, input) then Invalid
      else VerifyInputs(c, txnMap, inputs[1..])
  }

  ghost function Verify(c: Crypto, scan: seq<Transaction>, tx: Transaction): Check {
    if IsCoinbase(tx) then Valid else VerifyInputs(c, TxMap(InputIds(tx.inputs), scan), tx.inputs)
  }

  /** The input names an output that was created on the chain, spent or not, with the right key and a valid
      signature. */
  ghost predicate Authorised(c: Crypto, txs: seq<Transaction>, input: TxInput) {
    && (exists k :: 0 <= k < |txs| && txs[k].hash == input.txID && 0 <= input.vOut < |txs[k].outputs|
                    && c.keyHash(input.scriptSig.pubKey) == txs[k].outputs[input.vOut].scriptPubKey.pubKeyHash)
    && ValidSignature(c, input)
  }

  lemma {:induction false} VerifyInputsMeans(c: Crypto, txnMap: map<Bytes, Transaction>, inputs: seq<TxInput>)
    ensures VerifyInputs(c, txnMap, inputs) == Valid <==>
            forall i :: 0 <= i < |inputs| ==> GoodInput(c, txnMap, inputs[i])
  {
    if inputs == [] {
    } else {
      VerifyInputsMeans(c, txnMap, inputs[1..]);
      if forall i :: 0 <= i < |inputs[1..]| ==> GoodInput(c, txnMap, inputs[1..][i]) {
        if GoodInput(c, txnMap, inputs[0]) {
          forall i | 0 <= i < |inputs| ensures GoodInput(c, txnMap, inputs[i]) {
            if i > 0 { assert inputs[i] == inputs[1..][i - 1]; }
          }
        }
      } else {
        var i :| 0 <= i < |inputs[1..]| && !GoodInput(c, txnMap, inputs[1..][i]);
        assert inputs[i + 1] == inputs[1..][i];
      }
    }
  }

  /** The input names no output: Go indexes out of range. */
  predicate NoOutput(txnMap: map<Bytes, Transaction>, input: TxInput) {
    !(0 <= input.vOut < |OutputsOf(txnMap, input.txID)|)
  }

  /** The check gets as far as this input, and crashes there. */
  predicate CrashesAt(c: Crypto, txnMap: map<Bytes, Transaction>, inputs: seq<TxInput>, i: int) {
    0 <= i < |inputs| && NoOutput(txnMap, inputs[i]) && AllGood(c, txnMap, inputs[..i])
  }

  lemma {:induction false} CrashesLater(c: Crypto, txnMap: map<Bytes, Transaction>, inputs: seq<TxInput>, i: int)
    requires 0 < i < |inputs|
    ensures CrashesAt(c, txnMap, inputs, i)
            <==> GoodInput(c, txnMap, inputs[0]) && CrashesAt(c, txnMap, inputs[1..], i - 1)
  {
    assert inputs[1..][i - 1] == inputs[i];
    GoodFront(c, txnMap, inputs, i);
  }

  /** The check crashes exactly if some input names no output and all inputs before it are good. */
  lemma {:induction false} VerifyInputsCrash(c: Crypto, txnMap: map<Bytes, Transaction>, inputs: seq<TxInput>)
    ensures VerifyInputs(c, txnMap, inputs) == Crash <==> exists i :: CrashesAt(c, txnMap, inputs, i)
  {
    if inputs != [] {
      var rest := inputs[1..];
      VerifyInputsCrash(c, txnMap, rest);
      if NoOutput(txnMap, inputs[0]) {
        assert CrashesAt(c, txnMap, inputs, 0);
      } else {
        if i :| CrashesAt(c, txnMap, rest, i) {
          CrashesLater(c, txnMap, inputs, i + 1);
        }
        if i :| CrashesAt(c, txnMap, inputs, i) {
          CrashesLater(c, txnMap, inputs, i);
        }
      }
    }
  }

  predicate AllGood(c: Crypto, txnMap: map<Bytes, Transaction>, inputs: seq<TxInput>) {
    forall i :: 0 <= i < |inputs| ==> GoodInput(c, txnMap, inputs[i])
  }

  lemma {:induction false} GoodFront(c: Crypto, txnMap: map<Bytes, Transaction>, inputs: seq<TxInput>, n: int)
    requires 0 < n <= |inputs|
    ensures AllGood(c, txnMap, inputs[..n])
            <==> GoodInput(c, txnMap, inputs[0]) && AllGood(c, txnMap, inputs[1..][..n - 1])
  {
    var front := inputs[1..][..n - 1];
    if AllGood(c, txnMap, inputs[..n]) {
      assert GoodInput(c, txnMap, inputs[..n][0]);
      forall i | 0 <= i < |front| ensures GoodInput(c, txnMap, front[i]) {
        assert front[i] == inputs[..n][i + 1];
      }
    }
    if GoodInput(c, txnMap, inputs[0]) && AllGood(c, txnMap, front) {
      forall i | 0 <= i < n ensures GoodInput(c, txnMap, inputs[..n][i]) {
        if i > 0 { assert inputs[..n][i] == front[i - 1]; }
      }
    }
  }

  predicate GoodInput(c: Crypto, txnMap: map<Bytes, Transaction>, input: TxInput) {
    var outputs := OutputsOf(txnMap, input.txID);
    && 0 <= input.vOut < |outputs|
    && c.keyHash(input.scriptSig.pubKey) == outputs[input.vOut].scriptPubKey.pubKeyHash
    && ValidSignature(c, input)
  }

  /** The map built by the backward walk answers like the chain itself. */
  lemma TxMapMeans(c: Crypto, chain: seq<Block>, ids: set<Bytes>, input: TxInput)
    requires UniqueIds(Forward(chain)) && input.txID in ids
    ensures GoodInput(c, TxMap(ids, Backward(chain)), input) <==> Authorised(c, Forward(chain), input)
  {
    var txs := Forward(chain);
    FirstIsOnly(chain, input.txID);
    var k := FindTxFound(txs, input.txID);
    forall j | 0 <= j < |txs| && txs[j].hash == input.txID ensures FindTx(txs, input.txID) == Some(txs[j]) {
      FindTxAt(txs, j);
    }
  }

  /** Exactly what `verifyTransaction` accepts on a chain with unique hashes. */
  lemma {:induction false} VerifyMeans(c: Crypto, chain: seq<Block>, tx: Transaction)
    requires UniqueIds(Forward(chain))
    ensures Verify(c, Backward(chain), tx) == Valid <==>
            forall i :: 0 <= i < |tx.inputs| ==> Authorised(c, Forward(chain), tx.inputs[i])
  {
    var ids := InputIds(tx.inputs);
    VerifyInputsMeans(c, TxMap(ids, Backward(chain)), tx.inputs);
    forall i | 0 <= i < |tx.inputs|
      ensures GoodInput(c, TxMap(ids, Backward(chain)), tx.inputs[i]) <==> Authorised(c, Forward(chain), tx.inputs[i])
    {
      TxMapMeans(c, chain, ids, tx.inputs[i]);
    }
  }

  /** No transaction of the chain has the output that the input names. */
  ghost predicate Unknown(txs: seq<Transaction>, input: TxInput) {
    forall k :: 0 <= k < |txs| && txs[k].hash == input.txID ==> !(0 <= input.vOut < |txs[k].outputs|)
  }

  lemma {:induction false} NoOutputMeans(chain: seq<Block>, ids: set<Bytes>, input: TxInput)
    requires UniqueIds(Forward(chain)) && input.txID in ids
    ensures NoOutput(TxMap(ids, Backward(chain)), input) <==> Unknown(Forward(chain), input)
  {
    var txs := Forward(chain);
    FirstIsOnly(chain, input.txID);
    var k := FindTxFound(txs, input.txID);
    forall j | 0 <= j < |txs| && txs[j].hash == input.txID ensures FindTx(txs, input.txID) == Some(txs[j]) {
      FindTxAt(txs, j);
    }
  }

  /** When `verifyTransaction` crashes the node, on a chain with unique hashes: exactly if some input names an output
      that no transaction of the chain has, and all inputs before it are authorised. */
  lemma {:induction false} VerifyCrashIff(c: Crypto, chain: seq<Block>, tx: Transaction)
    requires UniqueIds(Forward(chain))
    ensures Verify(c, Backward(chain), tx) == Crash <==>
            exists i :: 0 <= i < |tx.inputs| && Unknown(Forward(chain), tx.inputs[i])
                        && forall j :: 0 <= j < i ==> Authorised(c, Forward(chain), tx.inputs[j])
  {
    var txnMap := TxMap(InputIds(tx.inputs), Backward(chain));
    VerifyInputsCrash(c, txnMap, tx.inputs);
    forall i
      ensures CrashesAt(c, txnMap, tx.inputs, i)
              <==> 0 <= i < |tx.inputs| && Unknown(Forward(chain), tx.inputs[i])
                   && forall j :: 0 <= j < i ==> Authorised(c, Forward(chain), tx.inputs[j])
    {
      if 0 <= i < |tx.inputs| {
        NoOutputMeans(chain, InputIds(tx.inputs), tx.inputs[i]);
        GoodMeans(c, chain, tx, i);
      }
    }
  }

  lemma {:induction false} GoodMeans(c: Crypto, chain: seq<Block>, tx: Transaction, n: int)
    requires UniqueIds(Forward(chain)) && 0 <= n <= |tx.inputs|
    ensures AllGood(c, TxMap(InputIds(tx.inputs), Backward(chain)), tx.inputs[..n])
            <==> forall j :: 0 <= j < n ==> Authorised(c, Forward(chain), tx.inputs[j])
  {
    var ids := InputIds(tx.inputs);
    var txnMap := TxMap(ids, Backward(chain));
    forall j | 0 <= j < n
      ensures GoodInput(c, txnMap, tx.inputs[..n][j]) <==> Authorised(c, Forward(chain), tx.inputs[j])
    {
      TxMapMeans(c, chain, ids, tx.inputs[j]);
    }
    if AllGood(c, txnMap, tx.inputs[..n]) {
      forall j | 0 <= j < n ensures Authorised(c, Forward(chain), tx.inputs[j]) {
        assert GoodInput(c, txnMap, tx.inputs[..n][j]);
      }
    }
  }

  lemma {:induction false} ForwardConcat(a: seq<Block>, b: seq<Block>)
    ensures Forward(a + b) == Forward(a) + Forward(b)
  {
    if b == [] {
      assert a + b == a;
    } else {
      assert (a + b)[..|a + b| - 1] == a + b[..|b| - 1];
      ForwardConcat(a, b[..|b| - 1]);
    }
  }

  /** What the walk accepts on a chain it accepts on every extension of it that keeps hashes unique. */
  lemma {:induction false} VerifiedLater(c: Crypto, chain: seq<Block>, later: seq<Block>, tx: Transaction)
    requires UniqueIds(Forward(chain + later)) && Verify(c, Backward(chain), tx) == Valid
    ensures Verify(c, Backward(chain + later), tx) == Valid
  {
    ForwardConcat(chain, later);
    UniqueConcat(Forward(chain), Forward(later));
    VerifyMeans(c, chain, tx);
    VerifyMeans(c, chain + later, tx);
    forall i | 0 <= i < |tx.inputs| ensures Authorised(c, Forward(chain + later), tx.inputs[i]) {
      AuthorisedLater(c, Forward(chain), Forward(later), tx.inputs[i]);
    }
  }

  lemma AuthorisedLater(c: Crypto, txs: seq<Transaction>, more: seq<Transaction>, x: TxInput)
    requires Authorised(c, txs, x)
    ensures Authorised(c, txs + more, x)
  {
    var k :| 0 <= k < |txs| && txs[k].hash == x.txID && 0 <= x.vOut < |txs[k].outputs|
             && c.keyHash(x.scriptSig.pubKey) == txs[k].outputs[x.vOut].scriptPubKey.pubKeyHash;
    assert (txs + more)[k] == txs[k];
  }

  lemma AcceptedAuthorised(c: Crypto, chain: seq<Block>, m: Index, input: TxInput)
    requires ValidChain(chain) && Agree(m, ApplyAll(map[], Forward(chain)))
    requires CheckInput(c, m, input) == Accepted
    ensures Authorised(c, Forward(chain), input)
  {
    var txs := Forward(chain);
    ValidChainFacts(chain);
    AgreeEverywhere(m, ApplyAll(map[], txs), input.txID);
    IncrementalIsConfirmed(txs, input.txID);
    ReferencedMember(Lookup(m, input.txID), input.vOut);
    var e := IndexedOutput(UtxoSet.Referenced(Lookup(m, input.txID), input.vOut).value, input.vOut);
    var k := FindTxFound(txs, input.txID);
    UnspentMember(txs[k].outputs, SpentOn(txs, input.txID), e);
  }

  /** Main theorem on admission: a transaction whose inputs the index accepts passes the chain walk, without a
      crash, on the present chain and on every extension of it that keeps hashes unique. */
  lemma {:induction false} AdmissionImpliesVerification(c: Crypto, chain: seq<Block>, later: seq<Block>, m: Index,
                                                        mempool: seq<Transaction>, tx: Transaction)
    requires ValidChain(chain) && Agree(m, ApplyAll(map[], Forward(chain)))
    requires Admit(c, m, mempool, tx) == Accepted
    requires UniqueIds(Forward(chain + later))
    ensures Verify(c, Backward(chain + later), tx) == Valid
  {
    CheckInputsMeans(c, m, tx.inputs);
    ForwardConcat(chain, later);
    UniqueConcat(Forward(chain), Forward(later));
    forall i | 0 <= i < |tx.inputs| ensures Authorised(c, Forward(chain), tx.inputs[i]) {
      assert CheckInput(c, m, tx.inputs[i]) == Accepted;
      AcceptedAuthorised(c, chain, m, tx.inputs[i]);
    }
    VerifyMeans(c, chain, tx);
    VerifiedLater(c, chain, later, tx);
  }

  /** The gap between the two checks.  Of two transactions that may differ only in spending a confirmed output
      that another has spent, the walk accepts both: on a valid chain, the index accepts what the walk accepts
      exactly if every named output is still unspent. */
  lemma {:induction false} WalkImpliesIndexIff(c: Crypto, chain: seq<Block>, m: Index, tx: Transaction)
    requires ValidChain(chain) && Agree(m, ApplyAll(map[], Forward(chain)))
    requires Verify(c, Backward(chain), tx) == Valid
    ensures CheckInputs(c, m, tx.inputs) == Accepted <==>
            forall i :: 0 <= i < |tx.inputs| ==> tx.inputs[i].vOut !in SpentOn(Forward(chain), tx.inputs[i].txID)
  {
    var txs := Forward(chain);
    ValidChainFacts(chain);
    VerifyMeans(c, chain, tx);
    CheckInputsMeans(c, m, tx.inputs);
    forall i | 0 <= i < |tx.inputs|
      ensures CheckInput(c, m, tx.inputs[i]) == Accepted <==> tx.inputs[i].vOut !in SpentOn(txs, tx.inputs[i].txID)
    {
      assert Authorised(c, txs, tx.inputs[i]);
      AuthorisedUnspent(c, txs, m, tx.inputs[i]);
    }
  }

  lemma AuthorisedUnspent(c: Crypto, txs: seq<Transaction>, m: Index, input: TxInput)
    requires UniqueIds(txs) && Causal(txs) && Agree(m, ApplyAll(map[], txs)) && Authorised(c, txs, input)
    ensures CheckInput(c, m, input) == Accepted <==> input.vOut !in SpentOn(txs, input.txID)
  {
    AgreeEverywhere(m, ApplyAll(map[], txs), input.txID);
    IncrementalIsConfirmed(txs, input.txID);
    ReferencedMember(Lookup(m, input.txID), input.vOut);
    var k :| 0 <= k < |txs| && txs[k].hash == input.txID && 0 <= input.vOut < |txs[k].outputs|
             && c.keyHash(input.scriptSig.pubKey) == txs[k].outputs[input.vOut].scriptPubKey.pubKeyHash;
    FindTxAt(txs, k);
    var spent := SpentOn(txs, input.txID);
    UnspentMember(txs[k].outputs, spent, IndexedOutput(txs[k].outputs[input.vOut], input.vOut));
    forall e
      ensures e in Lookup(m, input.txID) && e.index == input.vOut
              ==> e.output == txs[k].outputs[input.vOut] && input.vOut !in spent
    {
      UnspentMember(txs[k].outputs, spent, e);
    }
  }
}
