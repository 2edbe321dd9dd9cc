/** The Merkle check on bytes.  The program hashes a serialised transaction or two digests written one after the other,
    and nothing in the bytes tells the two apart.  What keeps them apart is their length. */
module MerkleBytes {
  import opened Types
  import opened Merkle

  const DIGEST_SIZE: nat := 32

  /** The bytes that are hashed. */
  function Written(serial: Transaction -> Bytes, x: Preimage): Bytes {
    match x
    case Leaf(tx) => serial(tx)
    case Node(left, right) => left + right
  }

  ghost predicate SameHash(h: Bytes -> Bytes, a: Bytes, b: Bytes) {
    h(a) == h(b)
  }

  /** The digests are those of the bytes, and all of one length. */
  ghost predicate HashesBytes(c: Crypto, h: Bytes -> Bytes, serial: Transaction -> Bytes) {
    && (forall x: Preimage {:trigger c.digest(x)} :: c.digest(x) == h(Written(serial, x)))
    && (forall b: Bytes {:trigger h(b)} :: |h(b)| == DIGEST_SIZE)
  }

  /** No two of these byte strings have the same hash. */
  ghost predicate NoHashCollision(h: Bytes -> Bytes, strings: set<Bytes>) {
    forall a, b {:trigger SameHash(h, a, b)} :: a in strings && b in strings && SameHash(h, a, b) ==> a == b
  }

  /** Nodes are two digests long, and serialised transactions are not. */
  ghost predicate ToldApart(serial: Transaction -> Bytes, x: Preimage) {
    match x
    case Leaf(tx) => |serial(tx)| != 2 * DIGEST_SIZE
    case Node(left, right) => |left| == |right| == DIGEST_SIZE
  }

  ghost predicate SerialInjective(serial: Transaction -> Bytes, hashed: set<Preimage>) {
    forall a, b :: Leaf(a) in hashed && Leaf(b) in hashed && serial(a) == serial(b) ==> a == b
  }

  function AllWritten(serial: Transaction -> Bytes, hashed: set<Preimage>): set<Bytes> {
    set x | x in hashed :: Written(serial, x)
  }

  lemma {:induction false} WrittenApart(serial: Transaction -> Bytes, hashed: set<Preimage>, x: Preimage, y: Preimage)
    requires x in hashed && y in hashed && ToldApart(serial, x) && ToldApart(serial, y)
    requires SerialInjective(serial, hashed) && Written(serial, x) == Written(serial, y)
    ensures x == y
  {
    match (x, y) {
      case (Leaf(a), Leaf(b)) =>
      case (Node(l, r), Node(l', r')) =>
        assert l == (l + r)[..DIGEST_SIZE] == (l' + r')[..DIGEST_SIZE] == l';
        assert r == (l + r)[DIGEST_SIZE..] == (l' + r')[DIGEST_SIZE..] == r';
      case (Leaf(a), Node(l, r)) =>
      case (Node(l, r), Leaf(a)) =>
    }
  }

  /** Without hash collisions among the bytes, what is hashed does not collide. */
  lemma {:induction false} BytesCollisionFree(c: Crypto, h: Bytes -> Bytes, serial: Transaction -> Bytes,
                                              hashed: set<Preimage>)
    requires HashesBytes(c, h, serial) && SerialInjective(serial, hashed)
    requires NoHashCollision(h, AllWritten(serial, hashed)) && forall x :: x in hashed ==> ToldApart(serial, x)
    ensures CollisionFree(c, hashed)
  {
    forall x, y | x in hashed && y in hashed && SameDigest(c, x, y) ensures x == y {
      assert c.digest(x) == h(Written(serial, x)) && c.digest(y) == h(Written(serial, y));
      assert SameHash(h, Written(serial, x), Written(serial, y));
      WrittenApart(serial, hashed, x, y);
    }
  }

  lemma {:induction false} LevelSized(c: Crypto, h: Bytes -> Bytes, serial: Transaction -> Bytes, txs: seq<Transaction>,
                                      k: nat)
    requires HashesBytes(c, h, serial)
    ensures forall d :: d in Level(c, txs, k) ==> |d| == DIGEST_SIZE
  {
    forall d | d in Level(c, txs, k) ensures |d| == DIGEST_SIZE {
      var i :| 0 <= i < |Level(c, txs, k)| && Level(c, txs, k)[i] == d;
      if k == 0 {
        assert d == c.digest(Leaf(txs[i]));
      } else {
        assert d == c.digest(Pair(Level(c, txs, k - 1), 2 * i));
      }
    }
  }

  lemma {:induction false} HashedApart(c: Crypto,
                                       h: Bytes -> Bytes, serial: Transaction -> Bytes, txs: seq<Transaction>,
                                       k: nat, x: Preimage)
    requires HashesBytes(c, h, serial) && x in Hashed(c, txs, k)
    requires forall tx :: tx in txs ==> |serial(tx)| != 2 * DIGEST_SIZE
    ensures ToldApart(serial, x)
  {
    if k == 0 {
      var i :| 0 <= i < |txs| && x == Leaf(txs[i]);
      assert txs[i] in txs;
    } else {
      if x in Hashed(c, txs, k - 1) {
        HashedApart(c, h, serial, txs, k - 1, x);
      } else {
        LevelSized(c, h, serial, txs, k - 1);
      }
    }
  }

  lemma {:induction false} FoldSized(c: Crypto, h: Bytes -> Bytes, serial: Transaction -> Bytes, d: Bytes,
                                     proof: seq<ProofNode>)
    requires HashesBytes(c, h, serial) && |d| == DIGEST_SIZE
    ensures |Fold(c, d, proof)| == DIGEST_SIZE
  {
    if proof != [] {
      assert Fold(c, d, proof) == c.digest(StepPreimage(Fold(c, d, proof[..|proof| - 1]), proof[|proof| - 1]));
    }
  }

  lemma {:induction false} FoldApart(c: Crypto, h: Bytes -> Bytes, serial: Transaction -> Bytes, d: Bytes,
                                     proof: seq<ProofNode>, x: Preimage)
    requires HashesBytes(c, h, serial) && |d| == DIGEST_SIZE && x in FoldPreimages(c, d, proof)
    requires forall i :: 0 <= i < |proof| ==> |proof[i].hash| == DIGEST_SIZE
    ensures ToldApart(serial, x)
  {
    if proof != [] {
      var front := proof[..|proof| - 1];
      if x in FoldPreimages(c, d, front) {
        FoldApart(c, h, serial, d, front, x);
      } else {
        FoldSized(c, h, serial, d, front);
      }
    }
  }

  /** Soundness on bytes: a proof whose hashes have the length of a digest shows that the transaction is in the block,
      if no serialised transaction is as long as two digests and none of the strings hashed collide. */
  lemma {:induction false} SoundnessOnBytes(c: Crypto, h: Bytes -> Bytes, serial: Transaction -> Bytes,
                                            txs: seq<Transaction>, tx: Transaction, proof: seq<ProofNode>)
    requires HashesBytes(c, h, serial) && txs != [] && Fold(c, c.digest(Leaf(tx)), proof) == Root(c, txs)
    requires |serial(tx)| != 2 * DIGEST_SIZE && forall t :: t in txs ==> |serial(t)| != 2 * DIGEST_SIZE
    requires forall i :: 0 <= i < |proof| ==> |proof[i].hash| == DIGEST_SIZE
    requires var hashed := BlockPreimages(c, txs) + {Leaf(tx)} + FoldPreimages(c, c.digest(Leaf(tx)), proof);
             SerialInjective(serial, hashed) && NoHashCollision(h, AllWritten(serial, hashed))
    ensures tx in txs
  {
    var d := c.digest(Leaf(tx));
    var hashed := BlockPreimages(c, txs) + {Leaf(tx)} + FoldPreimages(c, d, proof);
    forall x | x in hashed ensures ToldApart(serial, x) {
      if x in BlockPreimages(c, txs) {
        HashedApart(c, h, serial, txs, Height(|txs|), x);
      } else if x in FoldPreimages(c, d, proof) {
        FoldApart(c, h, serial, d, proof, x);
      }
    }
    BytesCollisionFree(c, h, serial, hashed);
    Soundness(c, txs, tx, proof);
  }

  /** The length is needed: a transaction whose bytes are those of an inner node is shown to be in a block that it is
      not in, with an empty proof and without any hash collision. */
  lemma {:induction false} NodeAsTransaction(c: Crypto, h: Bytes -> Bytes, serial: Transaction -> Bytes,
                                             a: Transaction, b: Transaction, tx: Transaction)
    requires HashesBytes(c, h, serial) && serial(tx) == c.digest(Leaf(a)) + c.digest(Leaf(b))
    ensures Fold(c, c.digest(Leaf(tx)), []) == Root(c, [a, b])
    ensures |serial(tx)| == 2 * DIGEST_SIZE
  {
    var level := Leaves(c, [a, b]);
    var node := Node(level[0], level[1]);
    assert level[0] == c.digest(Leaf(a)) && level[1] == c.digest(Leaf(b));
    assert |level[0]| == |level[1]| == DIGEST_SIZE;
    assert Written(serial, node) == serial(tx) && c.digest(Leaf(tx)) == h(serial(tx)) == c.digest(node);
    assert Pair(level, 0) == node && |NextLevel(c, level)| == 1
           && NextLevel(c, level)[0] == c.digest(Pair(level, 2 * 0));
    assert Root(c, [a, b]) == RootOf(c, NextLevel(c, level)) == c.digest(node);
  }
}
