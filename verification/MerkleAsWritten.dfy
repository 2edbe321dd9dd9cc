/** The two Merkle loops exactly as they stand, with `nextHashList` never emptied: when they end, and that
    where they end they compute what the emptied version computes. */
module MerkleAsWritten {
  import opened Types
  import opened Merkle

  datatype State = State(current: seq<Bytes>, next: seq<Bytes>, target: Bytes, proof: seq<ProofNode>)

  /** The state of the loops after `k` rounds. */
  function Rounds(c: Crypto, txs: seq<Transaction>, tx: Transaction, k: nat): State {
    if k == 0 then State(Leaves(c, txs), [], c.digest(Leaf(tx)), [])
    else
      var s := Rounds(c, txs, tx, k - 1);
      var scan := ScanLevel(c, s.current, 0, s.target);
      var next := s.next + NextLevel(c, s.current);
      State(next, next, scan.target, s.proof + scan.proof)
  }

  /** From the second round on the list grows for good, unless a block has at most two transactions. */
  lemma {:induction false} ListGrows(c: Crypto, txs: seq<Transaction>, tx: Transaction, k: nat)
    requires |txs| > 2
    ensures |Rounds(c, txs, tx, k).current| >= 2
    ensures k > 0 ==> Rounds(c, txs, tx, k).next == Rounds(c, txs, tx, k).current
    ensures k > 0 ==> |Rounds(c, txs, tx, k + 1).current| > |Rounds(c, txs, tx, k).current|
  {
    if k > 0 {
      ListGrows(c, txs, tx, k - 1);
    }
  }

  lemma {:induction false} EmptyStaysEmpty(c: Crypto, tx: Transaction, k: nat)
    ensures Rounds(c, [], tx, k).current == [] && Rounds(c, [], tx, k).next == []
  {
    if k > 0 {
      EmptyStaysEmpty(c, tx, k - 1);
    }
  }

  lemma FirstRound(c: Crypto, txs: seq<Transaction>, tx: Transaction)
    requires 1 <= |txs| <= 2
    ensures var s := Rounds(c, txs, tx, |txs| - 1);
            s.current == [Root(c, txs)] && s.proof == Proof(c, txs, tx)
  {
    if |txs| == 2 {
      var leaves := Leaves(c, txs);
      var scan := ScanLevel(c, leaves, 0, c.digest(Leaf(tx)));
      assert Rounds(c, txs, tx, 0) == State(leaves, [], c.digest(Leaf(tx)), []);
      assert Rounds(c, txs, tx, 1).current == NextLevel(c, leaves);
      assert RootOf(c, NextLevel(c, leaves)) == NextLevel(c, leaves)[0];
      assert ProofOf(c, NextLevel(c, leaves), scan.target) == [];
    }
  }

  /** `SetMerkleRoot` reaches a list of at most one digest exactly for blocks of at most two transactions. */
  lemma {:induction false} RootLoopEndsIff(c: Crypto, txs: seq<Transaction>, tx: Transaction)
    ensures (exists k: nat :: |Rounds(c, txs, tx, k).current| <= 1) <==> |txs| <= 2
  {
    if |txs| > 2 {
      forall k: nat ensures |Rounds(c, txs, tx, k).current| > 1 {
        ListGrows(c, txs, tx, k);
      }
    } else if txs == [] {
      assert |Rounds(c, txs, tx, 0).current| <= 1;
    } else {
      FirstRound(c, txs, tx);
    }
  }

  /** `GetMerkleProof` waits for a list of exactly one digest, so an empty block does not end it either. */
  lemma {:induction false} ProofLoopEndsIff(c: Crypto, txs: seq<Transaction>, tx: Transaction)
    ensures (exists k: nat :: |Rounds(c, txs, tx, k).current| == 1) <==> 1 <= |txs| <= 2
  {
    if |txs| > 2 {
      forall k: nat ensures |Rounds(c, txs, tx, k).current| != 1 {
        ListGrows(c, txs, tx, k);
      }
    } else if txs == [] {
      forall k: nat ensures |Rounds(c, txs, tx, k).current| != 1 {
        EmptyStaysEmpty(c, tx, k);
      }
    } else {
      FirstRound(c, txs, tx);
    }
  }

  /** A concrete block for which neither loop ends. */
  lemma {:induction false} ThreeTransactionsNeverEnd(c: Crypto, k: nat)
    ensures var t := Transaction([], [], [], 0);
            |Rounds(c, [t, t, t], t, k).current| > 1
  {
    var t := Transaction([], [], [], 0);
    ListGrows(c, [t, t, t], t, k);
  }

  /** `SetMerkleRoot` as written, stopped after `rounds` rounds.  `None` means that it was still going. */
  method SetMerkleRootAsWritten(c: Crypto, block: Block, rounds: nat) returns (r: Option<Block>)
    ensures r.Some? ==> |block.transactions| <= 2
    ensures |block.transactions| < 2 ==> r.Some?
    ensures |block.transactions| == 2 && rounds > 0 ==> r.Some?
    ensures r.Some? && block.transactions == [] ==> r.value == block
    ensures r.Some? && block.transactions != [] ==>
              r.value == block.(header := block.header.(merkleRoot := Root(c, block.transactions)))
  {
    var txs := block.transactions;
    ghost var t := Transaction([], [], [], 0);
    var current, next := Leaves(c, txs), [];
    var k := 0;
    while true
      invariant 0 <= k <= rounds
      invariant current == Rounds(c, txs, t, k).current && next == Rounds(c, txs, t, k).next
      invariant k > 0 ==> |txs| >= 2
      invariant |txs| == 2 ==> k <= 1
      decreases rounds - k
    {
      if |txs| > 2 {
        ListGrows(c, txs, t, k);
      } else if 1 <= |txs| <= 2 {
        FirstRound(c, txs, t);
      }
      if |current| == 0 {
        return Some(block);
      }
      if |current| == 1 {
        return Some(block.(header := block.header.(merkleRoot := current[0])));
      }
      if k == rounds {
        return None;
      }
      next := HashPairs(c, current, next);
      current, k := next, k + 1;
    }
  }

  /** `GetMerkleProof` as written, stopped after `rounds` rounds. */
  method GetMerkleProofAsWritten(c: Crypto, txs: seq<Transaction>, tx: Transaction, rounds: nat)
      returns (r: Option<seq<ProofNode>>)
    ensures r.Some? ==> 1 <= |txs| <= 2 && r.value == Proof(c, txs, tx)
    ensures |txs| == 1 || (|txs| == 2 && rounds > 0) ==> r.Some?
  {
    var current, next := Leaves(c, txs), [];
    var target, proof := c.digest(Leaf(tx)), [];
    var k := 0;
    while true
      invariant 0 <= k <= rounds
      invariant State(current, next, target, proof) == Rounds(c, txs, tx, k)
      invariant k > 0 ==> |txs| != 1
      invariant |txs| == 2 ==> k <= 1
      decreases rounds - k
    {
      if |txs| > 2 {
        ListGrows(c, txs, tx, k);
      } else if txs == [] {
        EmptyStaysEmpty(c, tx, k);
      } else {
        FirstRound(c, txs, tx);
      }
      if |current| == 1 {
        return Some(proof);
      }
      if k == rounds {
        return None;
      }
      next, target, proof := ScanPairs(c, current, next, target, proof);
      current, k := next, k + 1;
    }
  }
}
