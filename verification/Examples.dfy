/** Concrete chains on which the conditions of the main theorems fail. */
module Examples {
  import opened Types
  import opened UtxoSpec
  import opened ChainSpec
  import opened ChainStore
  import opened BlockChains
  import opened UtxoSet
  import opened Admission
  import opened Conservation
  import opened SpvSpec
  import opened FullNodes
  import Reentry
  import Redelivery

  const CREATOR: Transaction := Transaction([1], [], [TxOutput(5, LockingScript([]))], 0)
  const SPENDER: Transaction := Transaction([2], [TxInput([1], 0, UnlockingScript([], []))], [], 0)
  const TOGETHER: Block := Block(ZERO_HEADER, [CREATOR, SPENDER])

  lemma Spends01()
    ensures SpentBy(SPENDER.inputs, [1]) == {0} && SpentBy(SPENDER.inputs, [2]) == {}
    ensures forall id :: id != [1] ==> SpentBy(SPENDER.inputs, id) == {}
    ensures forall id :: SpentBy(CREATOR.inputs, id) == {}
  {
    assert SPENDER.inputs[0].vOut in SpentBy(SPENDER.inputs, [1]);
  }

  lemma Both(id: Bytes)
    ensures SpentOn([CREATOR], id) == {} && SpentOn([CREATOR, SPENDER], id) == SpentBy(SPENDER.inputs, id)
  {
    Spends01();
    assert [CREATOR][..0] == [] && [CREATOR, SPENDER][..1] == [CREATOR];
    assert SpentOn([CREATOR], id) == SpentOn([], id) + SpentBy(CREATOR.inputs, id);
    assert SpentOn([CREATOR, SPENDER], id) == SpentOn([CREATOR], id) + SpentBy(SPENDER.inputs, id);
  }

  lemma BothFacts()
    ensures UniqueIds([CREATOR, SPENDER]) && Causal([CREATOR, SPENDER]) && SpentOnce([CREATOR, SPENDER])
  {
    var txs := [CREATOR, SPENDER];
    Spends01();
    forall k | 0 <= k < 2 ensures SpentOn(txs[..k + 1], txs[k].hash) == {} {
      assert txs[..1] == [CREATOR] && txs[..2] == txs;
      Both(txs[k].hash);
    }
  }

  lemma {:induction false} OneBlock(block: Block)
    ensures Forward([block]) == block.transactions
  {
    assert [block][..0] == [];
  }

  lemma {:induction false} RebuildWrong(block: Block, v: int)
    requires |block.transactions| == 2
    requires UniqueIds(block.transactions) && Causal(block.transactions) && SpentOnce(block.transactions)
    requires Spends(block.transactions[1], block.transactions[0].hash, v)
             && 0 <= v < |block.transactions[0].outputs|
    ensures Lookup(Rescan(Backward([block])), block.transactions[0].hash)
            != Confirmed(Forward([block]), block.transactions[0].hash)
  {
    OneBlock(block);
    DisagreeAt([block], 0, 0, 1, v);
  }

  lemma {:induction false} SpendInsideAt(block: Block, creator: Transaction, spender: Transaction, v: int)
    requires block.transactions == [creator, spender]
    requires UniqueIds(block.transactions) && Causal(block.transactions) && SpentOnce(block.transactions)
    requires Spends(spender, creator.hash, v) && 0 <= v < |creator.outputs|
    ensures SpendsInside(block)
    ensures Lookup(Rescan(Backward([block])), creator.hash) != Confirmed(Forward([block]), creator.hash)
    ensures Lookup(ApplyAll(map[], Forward([block])), creator.hash) == Confirmed(Forward([block]), creator.hash)
  {
    var txs := block.transactions;
    assert txs[0] == creator && txs[1] == spender;
    RebuildWrong(block, v);
    OneBlock(block);
    IncrementalIsConfirmed(txs, creator.hash);
    assert Spends(txs[1], txs[0].hash, v);
  }

  /** A block that spends its own output: the rebuild keeps the output, the incremental index does not. */
  lemma {:induction false} SpendInsideExample()
    ensures SpendsInside(TOGETHER)
    ensures Lookup(Rescan(Backward([TOGETHER])), [1]) != Confirmed(Forward([TOGETHER]), [1])
    ensures Lookup(ApplyAll(map[], Forward([TOGETHER])), [1]) == Confirmed(Forward([TOGETHER]), [1])
  {
    BothFacts();
    Spends01();
    assert TOGETHER.transactions == [CREATOR, SPENDER] && CREATOR.hash == [1] && |CREATOR.outputs| == 1;
    SpendInsideAt(TOGETHER, CREATOR, SPENDER, 0);
  }

  // ---------- the genesis output on an SPV node ----------

  /** An SPV node that monitors the address of the genesis output does not list it; a full node does. */
  lemma {:induction false} GenesisOutputMissing(c: Crypto, monitored: seq<Address>)
    ensures var chain := [Seal(c, GenesisBlock(c))];
            Owned(c, SpvIndex(c, monitored, chain), SATOSHI_ADDRESS) != Owned(c, IndexOf(chain), SATOSHI_ADDRESS)
  {
    var g := Seal(c, GenesisBlock(c));
    GenesisFacts(c);
    StartRelatedIff(c, SATOSHI_ADDRESS, g);
    assert IsBoundTo(c, g.transactions[0].outputs[0], SATOSHI_ADDRESS);
    if Owned(c, map[], SATOSHI_ADDRESS) == Owned(c, IndexOf([g]), SATOSHI_ADDRESS) {
      OwnedRelated(c, SATOSHI_ADDRESS, map[], IndexOf([g]));
    }
  }

  /** On every chain of the program the two answer alike for that address only after its output is spent. */
  lemma {:induction false} GenesisOutputMissingIff(c: Crypto, monitored: seq<Address>, chain: seq<Block>)
    requires chain != [] && chain[0] == Seal(c, GenesisBlock(c)) && VerifiedChain(c, chain)
             && SATOSHI_ADDRESS in monitored
    ensures Owned(c, SpvIndex(c, monitored, chain), SATOSHI_ADDRESS) == Owned(c, IndexOf(chain), SATOSHI_ADDRESS)
            <==> 0 in SpentOn(Forward(chain), GenesisBlock(c).transactions[0].hash)
  {
    SpvAnswersAgreeIff(c, monitored, SATOSHI_ADDRESS, chain);
    GenesisSpentIff(c, chain);
  }

  lemma {:induction false} GenesisSpentIff(c: Crypto, chain: seq<Block>)
    requires chain != [] && chain[0] == Seal(c, GenesisBlock(c))
    ensures GenesisSpent(c, chain, SATOSHI_ADDRESS)
            <==> 0 in SpentOn(Forward(chain), GenesisBlock(c).transactions[0].hash)
  {
    var txs := chain[0].transactions;
    assert txs == GenesisBlock(c).transactions && |txs| == 1 && |txs[0].outputs| == 1;
    assert InChain(chain, 0, 0) && IsBoundTo(c, txs[0].outputs[0], SATOSHI_ADDRESS);
    if 0 in SpentOn(Forward(chain), txs[0].hash) {
      forall p, i | InChain(chain, 0, p) && 0 <= i < |txs[p].outputs|
        ensures i in SpentOn(Forward(chain), txs[p].hash)
      {
        assert p == 0 && i == 0;
      }
    }
  }

  // ---------- negative outputs ----------

  /** A coinbase, and an admitted transaction that pays 5000 to an address and -5000 to somebody else. */
  function Unbalanced(c: Crypto, a: Address): Block {
    var other := LockingScript(c.addressHash(a) + [0]);
    Block(ZERO_HEADER, [Transaction([1], [], [TxOutput(COINBASE_REWARD, other)], 0),
                        Transaction([2], [], [CreateTxnOutput(c, 5000, a), TxOutput(-5000, other)], 0)])
  }

  lemma UnbalancedMined(c: Crypto, a: Address)
    ensures MinedChain(c, [Unbalanced(c, a)]) && Forward([Unbalanced(c, a)]) == Unbalanced(c, a).transactions
    ensures OutputSum(Unbalanced(c, a).transactions[1].outputs) == 0
  {
    var block := Unbalanced(c, a);
    var chain, txs := [block], block.transactions;
    assert chain[..0] == [] && Forward([]) == [];
    var reward, paid := txs[0].outputs, txs[1].outputs;
    assert reward[..0] == [] && OutputSum(reward) == OutputSum([]) + reward[0].value;
    assert paid[..1] == [paid[0]] && [paid[0]][..0] == [];
    assert OutputSum([paid[0]]) == OutputSum([]) + 5000;
    assert OutputSum(paid) == OutputSum([paid[0]]) - 5000;
    assert IndexOf([]) == map[] && InputSum(map[], []) == 0;
    assert ValidNext([], block);
    assert CheckInputs(c, map[], []) == Accepted;
    assert PaidFor(c, map[], txs[1]);
    assert MinedNext(c, [], block);
    assert MinedChain(c, []);
  }

  lemma {:induction false} ApplyTwo(m: Index, first: Transaction, second: Transaction)
    ensures ApplyAll(m, [first, second]) == Apply(Apply(m, first), second)
  {
    assert [first, second][..1] == [first] && [first][..0] == [];
    assert ApplyAll(m, [first]) == Apply(ApplyAll(m, []), first);
  }

  /** A transaction without inputs enters its outputs and changes nothing else. */
  lemma {:induction false} InputFreeLookup(m: Index, tx: Transaction, id: Bytes)
    requires tx.inputs == []
    ensures Lookup(Apply(m, tx), id) == if id == tx.hash then Unspent(tx.outputs, {}) else Lookup(m, id)
  {
    ApplyLookup(m, tx, id);
    assert SpentBy(tx.inputs, id) == {};
    WithoutNothing(Lookup(m, id));
  }

  lemma {:induction false} UnspentOne(output: TxOutput)
    ensures Unspent([output], {}) == [IndexedOutput(output, 0)]
  {
    assert [output][..0] == [];
  }

  lemma {:induction false} UnspentTwo(output: TxOutput, output': TxOutput)
    ensures Unspent([output, output'], {}) == [IndexedOutput(output, 0), IndexedOutput(output', 1)]
  {
    assert [output, output'][..1] == [output];
    UnspentOne(output);
  }

  lemma {:induction false} BoundOne(c: Crypto, a: Address, e: IndexedOutput)
    ensures Bound(c, [e], a) == if IsBoundTo(c, e.output, a) then [e] else []
  {
    assert [e][..0] == [];
  }

  lemma {:induction false} UnbalancedIndex(c: Crypto, a: Address, id: Bytes)
    ensures var e := IndexedOutput(CreateTxnOutput(c, 5000, a), 0);
            Bound(c, Lookup(IndexOf([Unbalanced(c, a)]), id), a) == if id == [2] then [e] else []
  {
    var txs := Unbalanced(c, a).transactions;
    var reward, paid, back := txs[0].outputs[0], txs[1].outputs[0], txs[1].outputs[1];
    UnbalancedMined(c, a);
    ApplyTwo(map[], txs[0], txs[1]);
    InputFreeLookup(map[], txs[0], id);
    InputFreeLookup(Apply(map[], txs[0]), txs[1], id);
    assert |c.addressHash(a) + [0]| != |c.addressHash(a)|;
    if id == [2] {
      UnspentTwo(paid, back);
      BoundOne(c, a, IndexedOutput(paid, 0));
      assert [IndexedOutput(paid, 0), IndexedOutput(back, 1)][..1] == [IndexedOutput(paid, 0)];
    } else {
      UnspentOne(reward);
      BoundOne(c, a, IndexedOutput(reward, 0));
    }
  }

  lemma UnbalancedFees(c: Crypto, a: Address)
    ensures Fees([Unbalanced(c, a)]) == 0
  {
    var chain, txs := [Unbalanced(c, a)], Unbalanced(c, a).transactions;
    UnbalancedMined(c, a);
    assert chain[..0] == [] && txs[..1] == [txs[0]] && IndexOf([]) == map[];
    assert BlockFees(map[], [txs[0]]) == 0 && InputSum(map[], []) == 0;
    assert BlockFees(map[], txs)
           == BlockFees(map[], txs[..1]) + InputSum(map[], txs[1].inputs) - OutputSum(txs[1].outputs);
  }

  lemma UnbalancedOwned(c: Crypto, a: Address)
    ensures Total(Owned(c, IndexOf([Unbalanced(c, a)]), a)) == 5000
  {
    var m, e := IndexOf([Unbalanced(c, a)]), IndexedOutput(CreateTxnOutput(c, 5000, a), 0);
    var own, one := Owned(c, m, a), map[[2] := [e]];
    forall id ensures Lookup(own, id) == Lookup(one, id) {
      UnbalancedIndex(c, a, id);
      assert Lookup(own, id) == Bound(c, Lookup(m, id), a);
    }
    AgreeTotal(own, one);
    assert one.Keys == {[2]} && {[2]} - {[2]} == {};
    TotalPick(one, {[2]}, [2]);
    assert [e][..0] == [] && EntrySum([e]) == EntrySum([]) + 5000;
  }

  /** The address owns five times what has ever been created, although the index is worth just that. */
  lemma {:induction false} NegativeOutputExample(c: Crypto, a: Address)
    ensures var chain := [Unbalanced(c, a)];
            && MinedChain(c, chain) && Total(IndexOf(chain)) == COINBASE_REWARD * |chain|
            && Total(Owned(c, IndexOf(chain), a)) == 5 * COINBASE_REWARD * |chain|
  {
    assert MinedChain(c, [Unbalanced(c, a)]) by {
      UnbalancedMined(c, a);
    }
    UnbalancedFees(c, a);
    ValueConserved(c, [Unbalanced(c, a)]);
    UnbalancedOwned(c, a);
  }

  // ---------- a payment mined again, or delivered again ----------

  function Reward(c: Crypto, a: Address, id: Bytes): Transaction {
    Transaction(id, [], [CreateTxnOutput(c, COINBASE_REWARD, a)], 0)
  }

  /** Passes the only output of a transaction on to the same address. */
  function Payment(c: Crypto, a: Address, from: Bytes, id: Bytes, script: UnlockingScript): Transaction {
    Transaction(id, [TxInput(from, 0, script)], [CreateTxnOutput(c, COINBASE_REWARD, a)], 0)
  }

  function PaymentBlock(c: Crypto, a: Address, reward: Bytes, from: Bytes, id: Bytes, script: UnlockingScript): Block {
    Block(ZERO_HEADER, [Reward(c, a, reward), Payment(c, a, from, id, script)])
  }

  /** The script is signed by the owner of the address. */
  ghost predicate Unlocks(c: Crypto, a: Address, from: Bytes, script: UnlockingScript) {
    c.keyHash(script.pubKey) == c.addressHash(a) && ValidSignature(c, TxInput(from, 0, script))
  }

  ghost predicate HoldsReward(c: Crypto, a: Address, m: Index, id: Bytes) {
    Lookup(m, id) == [IndexedOutput(CreateTxnOutput(c, COINBASE_REWARD, a), 0)]
  }

  lemma OneOutput(c: Crypto, a: Address)
    ensures var outputs := [CreateTxnOutput(c, COINBASE_REWARD, a)];
            OutputSum(outputs) == COINBASE_REWARD && Unspent(outputs, {}) == [IndexedOutput(outputs[0], 0)]
  {
    var outputs := [CreateTxnOutput(c, COINBASE_REWARD, a)];
    assert outputs[..0] == [] && OutputSum(outputs) == OutputSum([]) + COINBASE_REWARD;
  }

  lemma PaymentAdmitted(c: Crypto, a: Address, m: Index, from: Bytes, id: Bytes, script: UnlockingScript)
    requires HoldsReward(c, a, m, from) && Unlocks(c, a, from, script)
    ensures PaidFor(c, m, Payment(c, a, from, id, script))
  {
    var tx := Payment(c, a, from, id, script);
    OneOutput(c, a);
    assert tx.inputs[..0] == [];
    assert CheckInput(c, m, tx.inputs[0]) == Accepted && InputValue(m, tx.inputs[0]) == COINBASE_REWARD;
    assert CheckInputs(c, m, tx.inputs) == Accepted;
    assert InputSum(m, tx.inputs) == InputSum(m, []) + COINBASE_REWARD;
  }

  lemma PaymentSpends(c: Crypto, a: Address, reward: Bytes, from: Bytes, id: Bytes, script: UnlockingScript, any: Bytes)
    ensures SpentOn(PaymentBlock(c, a, reward, from, id, script).transactions, any) == if any == from then {0} else {}
    ensures SpentBy(Payment(c, a, from, id, script).inputs, any) == if any == from then {0} else {}
    ensures SpentBy(Reward(c, a, reward).inputs, any) == {}
  {
    var txs := PaymentBlock(c, a, reward, from, id, script).transactions;
    assert txs[..1] == [txs[0]] && [txs[0]][..0] == [];
    assert txs[1].inputs[0].vOut in SpentBy(txs[1].inputs, from);
    assert SpentOn([txs[0]], any) == SpentOn([], any) + SpentBy(txs[0].inputs, any);
  }

  lemma PaymentIds(c: Crypto, a: Address, reward: Bytes, from: Bytes, id: Bytes, script: UnlockingScript)
    ensures IdsOf(PaymentBlock(c, a, reward, from, id, script).transactions) == {reward, id}
  {
    var txs := PaymentBlock(c, a, reward, from, id, script).transactions;
    assert txs[0].hash in IdsOf(txs) && txs[1].hash in IdsOf(txs);
  }

  lemma {:induction false} PaymentHeld(c: Crypto, a: Address, m: Index, reward: Bytes, from: Bytes, id: Bytes,
                                       script: UnlockingScript)
    requires HoldsReward(c, a, m, from)
    ensures var txs := PaymentBlock(c, a, reward, from, id, script).transactions;
            SpendsHeld(m, txs) && SpentOnce(txs) && forall k :: 0 <= k < |txs| ==> DistinctInputs(txs[k].inputs)
  {
    var txs := PaymentBlock(c, a, reward, from, id, script).transactions;
    assert txs[0].inputs == [] && |txs[1].inputs| == 1 && txs[1].inputs[0].txID == from;
    assert Lookup(m, from)[0] in Lookup(m, from);
    assert Holds(m, from, 0);
    forall k, v ensures !Spends(txs[0], k, v) {
      assert SpentBy([], k) == {};
    }
  }

  lemma {:induction false} PaymentValid(c: Crypto, a: Address, chain: seq<Block>, reward: Bytes, from: Bytes, id: Bytes,
                                        script: UnlockingScript)
    requires HoldsReward(c, a, IndexOf(chain), from) && reward != id
    requires reward !in IdsOf(Forward(chain)) && id !in IdsOf(Forward(chain))
    ensures ValidNext(chain, PaymentBlock(c, a, reward, from, id, script))
  {
    var m, txs := IndexOf(chain), PaymentBlock(c, a, reward, from, id, script).transactions;
    assert IdsOf(txs) !! IdsOf(Forward(chain)) by {
      PaymentIds(c, a, reward, from, id, script);
    }
    PaymentHeld(c, a, m, reward, from, id, script);
  }

  lemma {:induction false} PaymentIndex(c: Crypto, a: Address, m: Index, reward: Bytes, from: Bytes, id: Bytes,
                                        script: UnlockingScript)
    requires reward != id && from != id
    ensures HoldsReward(c, a, ApplyAll(m, PaymentBlock(c, a, reward, from, id, script).transactions), id)
  {
    ApplyTwo(m, Reward(c, a, reward), Payment(c, a, from, id, script));
    PaymentLookup(c, a, Apply(m, Reward(c, a, reward)), from, id, script, id);
  }

  /** A block with one payment of a held reward extends a run of mined blocks. */
  lemma PaymentMined(c: Crypto, a: Address, chain: seq<Block>, reward: Bytes, from: Bytes, id: Bytes,
                     script: UnlockingScript)
    requires MinedChain(c, chain) && HoldsReward(c, a, IndexOf(chain), from) && Unlocks(c, a, from, script)
    requires reward != id && from != id && reward !in IdsOf(Forward(chain)) && id !in IdsOf(Forward(chain))
    ensures var longer := chain + [PaymentBlock(c, a, reward, from, id, script)];
            && MinedChain(c, longer) && HoldsReward(c, a, IndexOf(longer), id)
            && IdsOf(Forward(longer)) == IdsOf(Forward(chain)) + {reward, id}
            && SpentOn(Forward(longer), from) == SpentOn(Forward(chain), from) + {0}
  {
    var block := PaymentBlock(c, a, reward, from, id, script);
    var longer, txs := chain + [block], block.transactions;
    assert longer[..|chain|] == chain && Forward(longer) == Forward(chain) + txs;
    OneOutput(c, a);
    PaymentAdmitted(c, a, IndexOf(chain), from, id, script);
    PaymentValid(c, a, chain, reward, from, id, script);
    assert MinedNext(c, chain, block);
    PaymentIds(c, a, reward, from, id, script);
    IdsOfConcat(Forward(chain), txs);
    PaymentSpends(c, a, reward, from, id, script, from);
    SpentOnConcat(Forward(chain), txs, from);
    ApplyAllConcat(map[], Forward(chain), txs);
    PaymentIndex(c, a, IndexOf(chain), reward, from, id, script);
  }

  /** Three mined blocks: a reward, a payment of it, and a payment of that payment. */
  function ThreeBlocks(c: Crypto, a: Address, first: UnlockingScript, second: UnlockingScript): seq<Block> {
    [FirstBlock(c, a)] + [PaymentBlock(c, a, [2], [1], [3], first)]
    + [PaymentBlock(c, a, [4], [3], [5], second)]
  }

  function FirstBlock(c: Crypto, a: Address): Block {
    Block(ZERO_HEADER, [Reward(c, a, [1])])
  }

  lemma FirstReward(c: Crypto, a: Address)
    ensures var chain := [FirstBlock(c, a)];
            && MinedChain(c, chain) && HoldsReward(c, a, IndexOf(chain), [1])
            && Forward(chain) == [Reward(c, a, [1])] && IdsOf(Forward(chain)) == {[1]}
  {
    var block, txs := FirstBlock(c, a), [Reward(c, a, [1])];
    assert [block][..0] == [] && txs[..0] == [] && Forward([]) == [] && MinedChain(c, []);
    assert Forward([block]) == Forward([]) + txs;
    assert txs[0].hash in IdsOf(txs);
    OneOutput(c, a);
    FirstBlockMined(c, a);
    assert IndexOf([block]) == Apply(map[], txs[0]);
    ApplyLookup(map[], txs[0], [1]);
  }

  lemma FirstBlockMined(c: Crypto, a: Address)
    ensures MinedNext(c, [], FirstBlock(c, a))
  {
    var txs := FirstBlock(c, a).transactions;
    OneOutput(c, a);
    assert UniqueIds(txs) && SpentOnce(txs);
    assert IdsOf(Forward([])) == {};
    assert ValidNext([], FirstBlock(c, a));
  }

  lemma {:induction false} TwoBlocksMined(c: Crypto, a: Address, first: UnlockingScript)
    requires Unlocks(c, a, [1], first)
    ensures var chain := [FirstBlock(c, a)] + [PaymentBlock(c, a, [2], [1], [3], first)];
            && MinedChain(c, chain) && HoldsReward(c, a, IndexOf(chain), [3])
            && Forward(chain) == [Reward(c, a, [1]), Reward(c, a, [2]), Payment(c, a, [1], [3], first)]
            && IdsOf(Forward(chain)) == {[1], [2], [3]} && 0 in SpentOn(Forward(chain), [1])
    ensures PaidFor(c, IndexOf([FirstBlock(c, a)]), Payment(c, a, [1], [3], first))
  {
    var one, block := [FirstBlock(c, a)], PaymentBlock(c, a, [2], [1], [3], first);
    FirstReward(c, a);
    PaymentAdmitted(c, a, IndexOf(one), [1], [3], first);
    PaymentMined(c, a, one, [2], [1], [3], first);
    assert (one + [block])[..1] == one && Forward(one + [block]) == Forward(one) + block.transactions;
  }

  lemma {:induction false} ThreeBlocksForward(c: Crypto, a: Address, first: UnlockingScript, second: UnlockingScript)
    requires Unlocks(c, a, [1], first)
    ensures var two := [FirstBlock(c, a)] + [PaymentBlock(c, a, [2], [1], [3], first)];
            var chain := ThreeBlocks(c, a, first, second);
            && chain == two + [PaymentBlock(c, a, [4], [3], [5], second)] && chain[..1] == [FirstBlock(c, a)]
            && Forward(chain) == Forward(two) + PaymentBlock(c, a, [4], [3], [5], second).transactions
  {
    var two := [FirstBlock(c, a)] + [PaymentBlock(c, a, [2], [1], [3], first)];
    assert ThreeBlocks(c, a, first, second)[..2] == two;
  }

  lemma {:induction false} ThreeBlocksMined(c: Crypto, a: Address, first: UnlockingScript, second: UnlockingScript)
    requires Unlocks(c, a, [1], first) && Unlocks(c, a, [3], second)
    ensures var chain := ThreeBlocks(c, a, first, second);
            && MinedChain(c, chain) && |Forward(chain)| == 5 && Forward(chain)[2] == Payment(c, a, [1], [3], first)
            && 0 in SpentOn(Forward(chain), [1]) && 0 in SpentOn(Forward(chain), [3])
    ensures PaidFor(c, IndexOf(ThreeBlocks(c, a, first, second)[..1]), Payment(c, a, [1], [3], first))
  {
    var two := [FirstBlock(c, a)] + [PaymentBlock(c, a, [2], [1], [3], first)];
    var block := PaymentBlock(c, a, [4], [3], [5], second);
    var chain := ThreeBlocks(c, a, first, second);
    TwoBlocksMined(c, a, first);
    assert chain == two + [block] && chain[..1] == [FirstBlock(c, a)]
           && Forward(chain) == Forward(two) + block.transactions by {
      ThreeBlocksForward(c, a, first, second);
    }
    assert 0 in SpentOn(Forward(chain), [1]) by {
      SpentOnConcat(Forward(two), block.transactions, [1]);
    }
    assert MinedChain(c, two + [block]) && 0 in SpentOn(Forward(two + [block]), [3]) by {
      ThirdMined(c, a, two, second);
    }
  }

  lemma {:induction false} ThirdMined(c: Crypto, a: Address, two: seq<Block>, second: UnlockingScript)
    requires MinedChain(c, two) && HoldsReward(c, a, IndexOf(two), [3]) && Unlocks(c, a, [3], second)
    requires IdsOf(Forward(two)) == {[1], [2], [3]}
    ensures var chain := two + [PaymentBlock(c, a, [4], [3], [5], second)];
            MinedChain(c, chain) && 0 in SpentOn(Forward(chain), [3])
  {
    var four: Bytes, five: Bytes := [4], [5];
    assert four[0] == 4 && five[0] == 5;
    PaymentMined(c, a, two, four, [3], five, second);
  }

  /** What a miner enters next: a reward, and a mempool that holds the first payment, and perhaps its spender. */
  function NextEntries(c: Crypto, a: Address, pool: seq<Transaction>): seq<Transaction> {
    [Reward(c, a, [6])] + pool
  }

  /** The rewards and payments of the three blocks, by hash. */
  lemma {:induction false} ThreeBlocksSpends(c: Crypto, a: Address, first: UnlockingScript, second: UnlockingScript)
    requires Unlocks(c, a, [1], first) && Unlocks(c, a, [3], second)
    ensures var all := Forward(ThreeBlocks(c, a, first, second));
            && IdsOf(all) == {[1], [2], [3], [4], [5]}
            && Payment(c, a, [1], [3], first) in all && Payment(c, a, [3], [5], second) in all
            && 0 in SpentOn(all, [3]) && SpentOn(all, [5]) == {}
  {
    var chain := ThreeBlocks(c, a, first, second);
    var two := [FirstBlock(c, a)] + [PaymentBlock(c, a, [2], [1], [3], first)];
    var block := PaymentBlock(c, a, [4], [3], [5], second);
    assert MinedChain(c, chain) && 0 in SpentOn(Forward(chain), [3]) by {
      ThreeBlocksMined(c, a, first, second);
    }
    assert Forward(chain) == Forward(two) + block.transactions && chain[2] == block && |chain| == 3 by {
      ThreeBlocksForward(c, a, first, second);
    }
    assert IdsOf(Forward(two)) == {[1], [2], [3]} && Forward(two)[2] == Payment(c, a, [1], [3], first) by {
      TwoBlocksMined(c, a, first);
    }
    assert IdsOf(Forward(chain)) == {[1], [2], [3], [4], [5]} by {
      PaymentIds(c, a, [4], [3], [5], second);
      IdsOfConcat(Forward(two), block.transactions);
    }
    assert Forward(chain)[2] == Payment(c, a, [1], [3], first);
    assert block.transactions[1] == Payment(c, a, [3], [5], second) && block.transactions[1] in Forward(chain);
    assert SpentOn(Forward(chain), [5]) == {} by {
      PaymentIds(c, a, [4], [3], [5], second);
      MinedIsValid(c, chain);
      Redelivery.NewestUnspent(chain, [5]);
    }
  }

  /** The next block is a mixture of the reward and confirmed payments. */
  lemma {:induction false} NextIsMixed(c: Crypto, a: Address, chain: seq<Block>, pool: seq<Transaction>)
    requires ValidChain(chain) && [6] !in IdsOf(Forward(chain)) && UniqueIds(pool)
    requires forall tx :: tx in pool ==> tx in Forward(chain)
    ensures Reentry.Mixed(chain, NextEntries(c, a, pool))
    ensures Reentry.WithFresh(chain, NextEntries(c, a, pool)) == chain + [Block(ZERO_HEADER, [Reward(c, a, [6])])]
  {
    var known, reward, txs := IdsOf(Forward(chain)), Reward(c, a, [6]), NextEntries(c, a, pool);
    Reentry.HashesWithin(pool, Forward(chain));
    assert Reentry.Fresh(known, txs) == [reward] by {
      Reentry.FreshConcat(known, [reward], pool);
      Reentry.NoneFresh(known, pool);
      assert [reward][..0] == [] && [reward] + [] == [reward];
    }
    RewardMakesBlock(c, a, chain);
    assert UniqueIds(txs) by {
      forall j | 0 <= j < |pool| ensures pool[j].hash != [6] {
        assert pool[j] in pool;
      }
    }
  }

  lemma {:induction false} RewardSpendsNothing(c: Crypto, a: Address, chain: seq<Block>, id: Bytes)
    ensures SpentOn(Forward(chain + [Block(ZERO_HEADER, [Reward(c, a, [6])])]), id) == SpentOn(Forward(chain), id)
  {
    var reward, whole := Reward(c, a, [6]), chain + [Block(ZERO_HEADER, [Reward(c, a, [6])])];
    assert whole[..|whole| - 1] == chain && whole[|whole| - 1].transactions == [reward];
    SpentOnConcat(Forward(chain), [reward], id);
    assert [reward][..0] == [] && SpentBy(reward.inputs, id) == {};
  }

  lemma {:induction false} RewardMakesBlock(c: Crypto, a: Address, chain: seq<Block>)
    requires ValidChain(chain) && [6] !in IdsOf(Forward(chain))
    ensures ValidChain(chain + [Block(ZERO_HEADER, [Reward(c, a, [6])])])
  {
    var block := Block(ZERO_HEADER, [Reward(c, a, [6])]);
    var whole := chain + [block];
    assert whole[..|whole| - 1] == chain && whole[|whole| - 1] == block;
    forall id: Bytes | id in IdsOf(block.transactions) ensures id == [6] {}
    assert ValidNext(chain, block);
  }

  /** The three blocks, what the mempool has of them, and what the next block must leave. */
  lemma {:induction false} NextFacts(c: Crypto, a: Address, first: UnlockingScript, second: UnlockingScript,
                                     pool: seq<Transaction>)
    requires Unlocks(c, a, [1], first) && Unlocks(c, a, [3], second)
    requires UniqueIds(pool)
    requires forall tx :: tx in pool ==> tx in {Payment(c, a, [1], [3], first), Payment(c, a, [3], [5], second)}
    ensures var chain, txs := ThreeBlocks(c, a, first, second), NextEntries(c, a, pool);
            var all := Forward(Reentry.WithFresh(chain, txs));
            && Reentry.Mixed(chain, txs)
            && 0 in SpentOn(all, [3]) && SpentOn(all, [5]) == {} && SpentOn(all, [6]) == {}
  {
    var chain := ThreeBlocks(c, a, first, second);
    ThreeBlocksSpends(c, a, first, second);
    assert ValidChain(chain) by {
      ThreeBlocksMined(c, a, first, second);
      MinedIsValid(c, chain);
    }
    NextIsMixed(c, a, chain, pool);
    RewardSpendsNothing(c, a, chain, [3]);
    RewardSpendsNothing(c, a, chain, [5]);
    RewardSpendsNothing(c, a, chain, [6]);
    assert SpentOn(Forward(chain), [6]) == {} by {
      ValidChainFacts(chain);
    }
  }

  /** A payment that was admitted when its input was confirmed, mined, and spent.  In the mempool of a miner that has
      not heard of its spender, it enters that miner's next block again, and brings back an output worth a full
      reward. */
  lemma {:induction false} ReentryExample(c: Crypto, a: Address, first: UnlockingScript, second: UnlockingScript)
    requires Unlocks(c, a, [1], first) && Unlocks(c, a, [3], second)
    ensures var chain, tx := ThreeBlocks(c, a, first, second), Payment(c, a, [1], [3], first);
            var txs := NextEntries(c, a, [tx]);
            && MinedChain(c, chain) && Admit(c, IndexOf(chain[..1]), [], tx) == Accepted && Reentry.Mixed(chain, txs)
            && !Agree(ApplyAll(IndexOf(chain), txs), IndexOf(Reentry.WithFresh(chain, txs)))
            && Total(ApplyAll(IndexOf(chain), txs)) == Total(IndexOf(Reentry.WithFresh(chain, txs))) + COINBASE_REWARD
  {
    var chain, tx := ThreeBlocks(c, a, first, second), Payment(c, a, [1], [3], first);
    var txs := NextEntries(c, a, [tx]);
    var all := Forward(Reentry.WithFresh(chain, txs));
    NextFacts(c, a, first, second, [tx]);
    assert MinedChain(c, chain) && Admit(c, IndexOf(chain[..1]), [], tx) == Accepted by {
      ThreeBlocksMined(c, a, first, second);
    }
    RevivedReward(c, a, all, first);
    assert !Reentry.SpentAgain(all, txs) by {
      assert !Reentry.AgainAt(all, txs, 1);
    }
    Reentry.ReentryHarmlessIff(chain, txs);
    Reentry.ReentryValue(chain, txs);
  }

  lemma {:induction false} RevivedReward(c: Crypto, a: Address, all: seq<Transaction>, first: UnlockingScript)
    requires 0 in SpentOn(all, [3]) && SpentOn(all, [6]) == {}
    ensures var txs := NextEntries(c, a, [Payment(c, a, [1], [3], first)]);
            && Reentry.Sum(Reentry.Revived(all, txs)) == COINBASE_REWARD
            && |txs| == 2 && !Reentry.AgainAt(all, txs, 1)
  {
    var tx := Payment(c, a, [1], [3], first);
    var txs, outputs := NextEntries(c, a, [tx]), [CreateTxnOutput(c, COINBASE_REWARD, a)];
    assert txs[1..] == [tx] && txs[2..] == [] && [tx][..0] == [];
    OneOutput(c, a);
    UnspentSum(outputs);
    assert Unspent(outputs, SpentOn(all, [3])) == [] by {
      assert outputs[..0] == [];
    }
    assert Reentry.RevivedAt(all, txs, 1) == COINBASE_REWARD;
    assert SpentOn([tx], [6]) == {} by {
      PaymentSpends(c, a, [], [1], [3], first, [6]);
    }
    assert Reentry.RevivedAt(all, txs, 0) == 0;
    var values := Reentry.Revived(all, txs);
    assert values == [0, COINBASE_REWARD] && values[..1] == [0] && [0][..0] == [];
    assert Reentry.Sum([0]) == Reentry.Sum([]) + 0;
  }

  /** The same block of a miner that has both payments in its mempool leaves the index right: the spender takes the
      output away again. */
  lemma {:induction false} HarmlessReentryExample(c: Crypto, a: Address, first: UnlockingScript,
                                                  second: UnlockingScript)
    requires Unlocks(c, a, [1], first) && Unlocks(c, a, [3], second)
    ensures var chain := ThreeBlocks(c, a, first, second);
            var txs := NextEntries(c, a, [Payment(c, a, [1], [3], first), Payment(c, a, [3], [5], second)]);
            && Reentry.Mixed(chain, txs)
            && Agree(ApplyAll(IndexOf(chain), txs), IndexOf(Reentry.WithFresh(chain, txs)))
  {
    var chain := ThreeBlocks(c, a, first, second);
    var pool := [Payment(c, a, [1], [3], first), Payment(c, a, [3], [5], second)];
    var txs := NextEntries(c, a, pool);
    NextFacts(c, a, first, second, pool);
    BothAgain(c, a, Forward(Reentry.WithFresh(chain, txs)), first, second);
    Reentry.ReentryHarmlessIff(chain, txs);
  }

  lemma {:induction false} BothAgain(c: Crypto, a: Address, all: seq<Transaction>, first: UnlockingScript,
                                     second: UnlockingScript)
    requires SpentOn(all, [5]) == {} && SpentOn(all, [6]) == {}
    ensures var pool := [Payment(c, a, [1], [3], first), Payment(c, a, [3], [5], second)];
            Reentry.SpentAgain(all, NextEntries(c, a, pool))
  {
    var pay, spend := Payment(c, a, [1], [3], first), Payment(c, a, [3], [5], second);
    var txs := NextEntries(c, a, [pay, spend]);
    assert 0 in SpentOn(txs[2..], [3]) by {
      assert txs[2..] == [spend] && [spend][..0] == [];
      PaymentSpends(c, a, [], [3], [5], second, [3]);
    }
    assert txs[0].hash == [6] && txs[1] == pay && txs[2].hash == [5] && |txs| == 3 && |pay.outputs| == 1;
    assert Reentry.AgainAt(all, txs, 0) && Reentry.AgainAt(all, txs, 1) && Reentry.AgainAt(all, txs, 2);
  }

  lemma {:induction false} FirstSpent(c: Crypto, a: Address, chain: seq<Block>)
    requires chain != [] && chain[0] == FirstBlock(c, a) && 0 in SpentOn(Forward(chain), [1])
    ensures GenesisSpent(c, chain, a)
  {
  }

  /** The same payment, delivered twice to an SPV node that monitors the address: right before, wrong after. */
  lemma {:induction false} RedeliveryExample(c: Crypto, a: Address, first: UnlockingScript, second: UnlockingScript)
    requires Unlocks(c, a, [1], first) && Unlocks(c, a, [3], second)
    ensures var chain, tx := ThreeBlocks(c, a, first, second), Payment(c, a, [1], [3], first);
            var s := SpvIndex(c, [a], chain);
            && VerifiedChain(c, chain) && tx in Forward(chain)
            && Owned(c, s, a) == Owned(c, IndexOf(chain), a)
            && Owned(c, SpvStep(c, [a], s, tx), a) != Owned(c, IndexOf(chain), a)
  {
    var chain, tx := ThreeBlocks(c, a, first, second), Payment(c, a, [1], [3], first);
    var s := SpvIndex(c, [a], chain);
    ThreeBlocksMined(c, a, first, second);
    MinedIsVerified(c, chain);
    FirstSpent(c, a, chain);
    SpvAnswersAgreeIff(c, [a], a, chain);
    OwnedRelated(c, a, s, IndexOf(chain));
    assert IsBoundTo(c, tx.outputs[0], a) && a in [a];
    assert OfInterest(c, tx, [a]);
    RedeliveryHarmlessIff(c, [a], a, chain, s, 2);
  }

  // ---------- one output spent twice in a block ----------

  /** A reward, and two payments of the same earlier reward. */
  function DoubleSpend(c: Crypto, a: Address, script: UnlockingScript): Block {
    Block(ZERO_HEADER, [Reward(c, a, [2])] + [Payment(c, a, [1], [3], script)] + [Payment(c, a, [1], [6], script)])
  }

  /** A payment enters its own output, and leaves every reward alone but the one it spends. */
  lemma {:induction false} PaymentLookup(c: Crypto, a: Address, m: Index, from: Bytes, to: Bytes,
                                         script: UnlockingScript,
                                         id: Bytes)
    requires id != from && (id == to || HoldsReward(c, a, m, id))
    ensures HoldsReward(c, a, Apply(m, Payment(c, a, from, to, script)), id)
  {
    OneOutput(c, a);
    PaymentSpends(c, a, [], from, to, script, id);
    ApplyLookup(m, Payment(c, a, from, to, script), id);
    WithoutNothing(Lookup(m, id));
  }

  lemma {:induction false} DoubleSpendIndex(c: Crypto, a: Address, m: Index, script: UnlockingScript, id: Bytes)
    requires id == [2] || id == [3] || id == [6]
    ensures HoldsReward(c, a, ApplyAll(m, DoubleSpend(c, a, script).transactions), id)
  {
    var r, p, q := Reward(c, a, [2]), Payment(c, a, [1], [3], script), Payment(c, a, [1], [6], script);
    OneOutput(c, a);
    ApplyTwo(m, r, p);
    assert DoubleSpend(c, a, script).transactions[..2] == [r, p];
    InputFreeLookup(m, r, id);
    if id != [6] {
      PaymentLookup(c, a, Apply(m, r), [1], [3], script, id);
    }
    PaymentLookup(c, a, Apply(Apply(m, r), p), [1], [6], script, id);
  }

  lemma {:induction false} DoubleSpendVerified(c: Crypto, a: Address, script: UnlockingScript)
    requires Unlocks(c, a, [1], script) && c.belowTarget(BlockHash(c, DoubleSpend(c, a, script)))
    ensures VerifyBlockSpec(c, Backward([FirstBlock(c, a)]), DoubleSpend(c, a, script)) == Valid
  {
    var chain, block := [FirstBlock(c, a)], DoubleSpend(c, a, script);
    FirstReward(c, a);
    forall k | 1 <= k < |block.transactions| ensures Admit(c, IndexOf(chain), [], block.transactions[k]) == Accepted {
      PaymentAdmitted(c, a, IndexOf(chain), [1], block.transactions[k].hash, script);
    }
    MinedIsValid(c, chain);
    ValidChainFacts(chain);
    assert chain + [] == chain;
    AdmittedBlockVerifies(c, chain, [], IndexOf(chain), block);
  }

  /** Two payments of one output are both admitted, since admission asks the confirmed index and not the mempool; a
      block with both is verified if it meets the target, since the walk does not ask what is spent; and two blocks
      have then created three rewards. */
  lemma {:induction false} DoubleSpendExample(c: Crypto, a: Address, script: UnlockingScript)
    requires Unlocks(c, a, [1], script)
    ensures var chain, block := [FirstBlock(c, a)], DoubleSpend(c, a, script);
            var m, first, second := IndexOf(chain), block.transactions[1], block.transactions[2];
            && Admit(c, m, [], first) == Accepted && Admit(c, m, [first], second) == Accepted
            && (c.belowTarget(BlockHash(c, block)) ==> VerifyBlockSpec(c, Backward(chain), block) == Valid)
            && HoldsReward(c, a, ApplyAll(m, block.transactions), [2])
            && HoldsReward(c, a, ApplyAll(m, block.transactions), [3])
            && HoldsReward(c, a, ApplyAll(m, block.transactions), [6])
  {
    var m, first := IndexOf([FirstBlock(c, a)]), Payment(c, a, [1], [3], script);
    FirstReward(c, a);
    PaymentAdmitted(c, a, m, [1], [3], script);
    PaymentAdmitted(c, a, m, [1], [6], script);
    assert IdsOf([first]) == {[3]} by {
      assert [first][0].hash in IdsOf([first]);
    }
    DoubleSpendIndex(c, a, m, script, [2]);
    DoubleSpendIndex(c, a, m, script, [3]);
    DoubleSpendIndex(c, a, m, script, [6]);
    if c.belowTarget(BlockHash(c, DoubleSpend(c, a, script))) {
      DoubleSpendVerified(c, a, script);
    }
  }

  /** An input named twice counts twice: a node whose index holds one reward admits a transaction that pays out two. */
  lemma {:induction false} SameInputTwiceExample(c: Crypto, a: Address, m: Index, script: UnlockingScript)
    requires HoldsReward(c, a, m, [1]) && Unlocks(c, a, [1], script)
    ensures var x := TxInput([1], 0, script);
            var tx := Transaction([3], [x, x], [CreateTxnOutput(c, 2 * COINBASE_REWARD, a)], 0);
            Admit(c, m, [], tx) == Accepted && !DistinctInputs(tx.inputs)
  {
    var x := TxInput([1], 0, script);
    var tx := Transaction([3], [x, x], [CreateTxnOutput(c, 2 * COINBASE_REWARD, a)], 0);
    assert CheckInput(c, m, x) == Accepted && InputValue(m, x) == COINBASE_REWARD;
    assert CheckInputs(c, m, tx.inputs) == Accepted by {
      CheckInputsMeans(c, m, tx.inputs);
      assert forall i :: 0 <= i < |tx.inputs| ==> tx.inputs[i] == x;
    }
    assert InputSum(m, tx.inputs) == 2 * COINBASE_REWARD by {
      assert tx.inputs[..1] == [x] && [x][..0] == [];
      assert InputSum(m, [x]) == InputSum(m, []) + InputValue(m, x);
    }
    assert OutputSum(tx.outputs) == 2 * COINBASE_REWARD by {
      assert tx.outputs[..0] == [];
    }
    assert IdsOf([]) == {};
    assert !DistinctInputs(tx.inputs) by {
      assert tx.inputs[0] == tx.inputs[1];
    }
  }

  // ---------- coins from nowhere ----------

  /** A transaction without inputs that creates any amount. */
  function Mint(c: Crypto, a: Address, amount: int): Transaction {
    Transaction([2], [], [CreateTxnOutput(c, amount, a)], 0)
  }

  lemma {:induction false} MintMakesBlock(c: Crypto, a: Address, amount: int, chain: seq<Block>)
    requires ValidChain(chain) && [2] !in IdsOf(Forward(chain))
    ensures ValidNext(chain, Block(ZERO_HEADER, [Mint(c, a, amount)]))
  {
    var txs := [Mint(c, a, amount)];
    forall id: Bytes | id in IdsOf(txs) ensures id == [2] {}
  }

  /** Two verified blocks, the second with nothing but a transaction that creates any amount: no check compares a
      coinbase with the reward, and the index is worth that much. */
  lemma {:induction false} InflationExample(c: Crypto, a: Address, amount: int)
    ensures var chain := [FirstBlock(c, a)] + [Block(ZERO_HEADER, [Mint(c, a, amount)])];
            VerifiedChain(c, chain) && Total(IndexOf(chain)) == COINBASE_REWARD + amount
  {
    var first, mint := [FirstBlock(c, a)], Mint(c, a, amount);
    var block := Block(ZERO_HEADER, [mint]);
    var chain := first + [block];
    FirstReward(c, a);
    MinedIsValid(c, first);
    MintMakesBlock(c, a, amount, first);
    assert chain[..|chain| - 1] == first && Forward(chain) == Forward(first) + [mint];
    assert VerifiedChain(c, chain) by {
      assert ValidChain(chain);
      forall b, p | 1 <= b && InChain(chain, b, p)
        ensures Verify(c, Backward(chain[..b]), chain[b].transactions[p]) == Valid
      {
        assert chain[b].transactions[p] == mint;
      }
    }
    FirstWorth(c, a);
    MintWorth(c, a, amount, first);
  }

  lemma {:induction false} FirstWorth(c: Crypto, a: Address)
    ensures Total(IndexOf([FirstBlock(c, a)])) == COINBASE_REWARD
  {
    var chain := [FirstBlock(c, a)];
    FirstReward(c, a);
    ValueConserved(c, chain);
    assert chain[..0] == [] && Fees([]) == 0 && BlockFees(IndexOf([]), chain[0].transactions) == 0;
  }

  lemma {:induction false} MintWorth(c: Crypto, a: Address, amount: int, chain: seq<Block>)
    requires ValidChain(chain) && [2] !in IdsOf(Forward(chain))
    ensures Total(IndexOf(chain + [Block(ZERO_HEADER, [Mint(c, a, amount)])])) == Total(IndexOf(chain)) + amount
  {
    var mint, block := Mint(c, a, amount), Block(ZERO_HEADER, [Mint(c, a, amount)]);
    var txs, whole := [mint], chain + [block];
    MintMakesBlock(c, a, amount, chain);
    ValidGoodStep(chain, block);
    BlockTotal(IndexOf(chain), txs);
    assert txs[..0] == [] && mint.outputs[..0] == [];
    assert BlockOutputs(txs) == BlockOutputs([]) + OutputSum(mint.outputs);
    assert OutputSum(mint.outputs) == OutputSum([]) + amount;
    assert BlockInputs(IndexOf(chain), txs) == BlockInputs(IndexOf(chain), []) + InputSum(IndexOf(chain), []);
    ApplyAllConcat(map[], Forward(chain), txs);
    assert whole[..|whole| - 1] == chain && Forward(whole) == Forward(chain) + txs;
  }
}
