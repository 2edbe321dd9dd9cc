/** The Merkle tree of a block: its root, the proof a full node sends, and the check an SPV node makes.

    The program fills a list `nextHashList` that it never empties between levels.  This module models the tree with
    that list emptied at each level, which is what the loops are for; the module `MerkleAsWritten` models the loops as
    they stand and says when the two are the same. */
module Merkle {
  import opened Types

  datatype ProofNode = ProofNode(hash: Bytes, isLeftNode: bool)

  // ---------- levels and root ----------

  function Leaves(c: Crypto, txs: seq<Transaction>): (level: seq<Bytes>)
    ensures |level| == |txs|
  {
    seq(|txs|, i requires 0 <= i < |txs| => c.digest(Leaf(txs[i])))
  }

  /** The pair that starts at an even position; a last node without a partner is paired with itself. */
  function Pair(level: seq<Bytes>, i: nat): Preimage
    requires i < |level|
  {
    Node(level[i], if i + 1 < |level| then level[i + 1] else level[i])
  }

  function NextLevel(c: Crypto, level: seq<Bytes>): (next: seq<Bytes>)
    ensures |next| == (|level| + 1) / 2
  {
    seq((|level| + 1) / 2, j requires 0 <= j < (|level| + 1) / 2 => c.digest(Pair(level, 2 * j)))
  }

  function RootOf(c: Crypto, level: seq<Bytes>): Bytes
    requires level != []
    decreases |level|
  {
    if |level| == 1 then level[0] else RootOf(c, NextLevel(c, level))
  }

  function Root(c: Crypto, txs: seq<Transaction>): Bytes
    requires txs != []
  {
    RootOf(c, Leaves(c, txs))
  }

  /** One level of both loops, appending to whatever `next0` already holds. */
  method HashPairs(c: Crypto, level: seq<Bytes>, next0: seq<Bytes>) returns (next: seq<Bytes>)
    ensures next == next0 + NextLevel(c, level)
  {
    next := next0;
    var i := 0;
    while i < |level|
      invariant 0 <= i <= |level| + 1 && i % 2 == 0
      invariant next == next0 + NextLevel(c, level)[..i / 2]
    {
      if i == |level| - 1 {
        next := next + [c.digest(Node(level[i], level[i]))];
      } else {
        next := next + [c.digest(Node(level[i], level[i + 1]))];
      }
      assert NextLevel(c, level)[i / 2] == c.digest(Pair(level, 2 * (i / 2)));
      assert NextLevel(c, level)[..i / 2 + 1] == NextLevel(c, level)[..i / 2] + [NextLevel(c, level)[i / 2]];
      i := i + 2;
    }
    assert NextLevel(c, level)[..i / 2] == NextLevel(c, level);
  }

  /** `SetMerkleRoot`: a block without transactions keeps the root it has. */
  method SetMerkleRoot(c: Crypto, block: Block) returns (sealed: Block)
    ensures block.transactions == [] ==> sealed == block
    ensures block.transactions != [] ==>
              sealed == block.(header := block.header.(merkleRoot := Root(c, block.transactions)))
  {
    var current := Leaves(c, block.transactions);
    if |current| == 0 {
      return block;
    }
    while |current| != 1
      invariant current != [] && RootOf(c, current) == Root(c, block.transactions)
      decreases |current|
    {
      var next := HashPairs(c, current, []);
      assert next == NextLevel(c, current);
      current := next;
    }
    sealed := block.(header := block.header.(merkleRoot := current[0]));
  }

  // ---------- proofs ----------

  datatype Scan = Scan(proof: seq<ProofNode>, target: Bytes)

  /** What the inner loop of `GetMerkleProof` adds from position `i` on.  The target changes when it is met
      and may, if digests collide, be met again further on. */
  function ScanLevel(c: Crypto, level: seq<Bytes>, i: nat, target: Bytes): Scan
    decreases |level| - i
  {
    if i >= |level| then Scan([], target)
    else if i == |level| - 1 then
      if target == level[i] then
        Prepend(ProofNode(level[i], true), ScanLevel(c, level, i + 2, c.digest(Pair(level, i))))
      else ScanLevel(c, level, i + 2, target)
    else if target == level[i] then
      Prepend(ProofNode(level[i + 1], false), ScanLevel(c, level, i + 2, c.digest(Pair(level, i))))
    else if target == level[i + 1] then
      Prepend(ProofNode(level[i], true), ScanLevel(c, level, i + 2, c.digest(Pair(level, i))))
    else ScanLevel(c, level, i + 2, target)
  }

  function Prepend(node: ProofNode, scan: Scan): Scan {
    Scan([node] + scan.proof, scan.target)
  }

  function ProofOf(c: Crypto, level: seq<Bytes>, target: Bytes): seq<ProofNode>
    requires level != []
    decreases |level|
  {
    if |level| == 1 then []
    else
      var scan := ScanLevel(c, level, 0, target);
      scan.proof + ProofOf(c, NextLevel(c, level), scan.target)
  }

  function Proof(c: Crypto, txs: seq<Transaction>, tx: Transaction): seq<ProofNode>
    requires txs != []
  {
    ProofOf(c, Leaves(c, txs), c.digest(Leaf(tx)))
  }

  /** One level of `GetMerkleProof`: both lists grow and the target follows. */
  method ScanPairs(c: Crypto, level: seq<Bytes>, next0: seq<Bytes>, target0: Bytes, proof0: seq<ProofNode>)
      returns (next: seq<Bytes>, target: Bytes, proof: seq<ProofNode>)
    ensures next == next0 + NextLevel(c, level)
    ensures proof == proof0 + ScanLevel(c, level, 0, target0).proof
    ensures target == ScanLevel(c, level, 0, target0).target
  {
    next, target, proof := next0, target0, proof0;
    var i := 0;
    while i < |level|
      invariant 0 <= i <= |level| + 1 && i % 2 == 0
      invariant next == next0 + NextLevel(c, level)[..i / 2]
      invariant proof + ScanLevel(c, level, i, target).proof == proof0 + ScanLevel(c, level, 0, target0).proof
      invariant ScanLevel(c, level, i, target).target == ScanLevel(c, level, 0, target0).target
    {
      var nextHash := c.digest(Pair(level, i));
      assert NextLevel(c, level)[i / 2] == c.digest(Pair(level, 2 * (i / 2)));
      assert NextLevel(c, level)[..i / 2 + 1] == NextLevel(c, level)[..i / 2] + [NextLevel(c, level)[i / 2]];
      next := next + [nextHash];
      if i == |level| - 1 {
        if target == level[i] {
          proof, target := proof + [ProofNode(level[i], true)], nextHash;
        }
      } else if target == level[i] {
        proof, target := proof + [ProofNode(level[i + 1], false)], nextHash;
      } else if target == level[i + 1] {
        proof, target := proof + [ProofNode(level[i], true)], nextHash;
      }
      i := i + 2;
    }
    assert NextLevel(c, level)[..i / 2] == NextLevel(c, level);
    assert ScanLevel(c, level, i, target) == Scan([], target);
  }

  lemma {:induction false} ProofStep(c: Crypto, level: seq<Bytes>, target: Bytes, proof: seq<ProofNode>)
    requires |level| > 1
    ensures var scan := ScanLevel(c, level, 0, target);
            (proof + scan.proof) + ProofOf(c, NextLevel(c, level), scan.target) == proof + ProofOf(c, level, target)
  {
    var scan := ScanLevel(c, level, 0, target);
    var rest := ProofOf(c, NextLevel(c, level), scan.target);
    assert (proof + scan.proof) + rest == proof + (scan.proof + rest);
  }

  /** `GetMerkleProof`.  A block without transactions is excluded: its loop would not end. */
  method GetMerkleProof(c: Crypto, txs: seq<Transaction>, tx: Transaction) returns (proof: seq<ProofNode>)
    requires txs != []
    ensures proof == Proof(c, txs, tx)
    ensures tx in txs ==> Fold(c, c.digest(Leaf(tx)), proof) == Root(c, txs)
  {
    var current := Leaves(c, txs);
    var target := c.digest(Leaf(tx));
    proof := [];
    while |current| != 1
      invariant current != []
      invariant proof + ProofOf(c, current, target) == Proof(c, txs, tx)
      decreases |current|
    {
      var next, target', proof' := ScanPairs(c, current, [], target, proof);
      assert next == NextLevel(c, current);
      ProofStep(c, current, target, proof);
      current, target, proof := next, target', proof';
    }
    assert ProofOf(c, current, target) == [] && proof + [] == proof;
    assert tx in txs ==> Fold(c, c.digest(Leaf(tx)), proof) == Root(c, txs) by {
      if tx in txs {
        Completeness(c, txs, tx);
      }
    }
  }

  // ---------- the SPV node's fold ----------

  function StepPreimage(d: Bytes, node: ProofNode): Preimage {
    if node.isLeftNode then Node(node.hash, d) else Node(d, node.hash)
  }

  function Fold(c: Crypto, d: Bytes, proof: seq<ProofNode>): Bytes {
    if proof == [] then d
    else c.digest(StepPreimage(Fold(c, d, proof[..|proof| - 1]), proof[|proof| - 1]))
  }

  /** Step 2 of `handleMerkleblockMsg`. */
  method CheckProof(c: Crypto, tx: Transaction, proof: seq<ProofNode>, merkleRoot: Bytes) returns (ok: bool)
    ensures ok <==> Fold(c, c.digest(Leaf(tx)), proof) == merkleRoot
  {
    var calculated := c.digest(Leaf(tx));
    for i := 0 to |proof|
      invariant calculated == Fold(c, c.digest(Leaf(tx)), proof[..i])
    {
      assert proof[..i + 1][..i] == proof[..i];
      if proof[i].isLeftNode {
        calculated := c.digest(Node(proof[i].hash, calculated));
      } else {
        calculated := c.digest(Node(calculated, proof[i].hash));
      }
    }
    assert proof[..|proof|] == proof;
    ok := calculated == merkleRoot;
  }

  lemma {:induction false} FoldConcat(c: Crypto, d: Bytes, p: seq<ProofNode>, q: seq<ProofNode>)
    ensures Fold(c, d, p + q) == Fold(c, Fold(c, d, p), q)
  {
    if q == [] {
      assert p + q == p;
    } else {
      assert (p + q)[..|p + q| - 1] == p + q[..|q| - 1];
      FoldConcat(c, d, p, q[..|q| - 1]);
    }
  }

  // ---------- completeness, for every digest function ----------

  lemma InNextLevel(c: Crypto, level: seq<Bytes>, i: nat)
    requires i < |level| && i % 2 == 0
    ensures c.digest(Pair(level, i)) in NextLevel(c, level)
  {
    assert NextLevel(c, level)[i / 2] == c.digest(Pair(level, 2 * (i / 2)));
  }

  /** Position `i` holds the target or its partner does. */
  predicate Met(level: seq<Bytes>, i: nat, target: Bytes)
    requires i < |level|
  {
    target == level[i] || (i + 1 < |level| && target == level[i + 1])
  }

  /** One pair of the scan. */
  lemma ScanStep(c: Crypto, level: seq<Bytes>, i: nat, target: Bytes)
    requires i < |level|
    ensures !Met(level, i, target) ==> ScanLevel(c, level, i, target) == ScanLevel(c, level, i + 2, target)
    ensures Met(level, i, target) ==>
              exists node :: StepPreimage(target, node) == Pair(level, i)
                && ScanLevel(c, level, i, target) == Prepend(node, ScanLevel(c, level, i + 2, c.digest(Pair(level, i))))
  {
    if Met(level, i, target) {
      var node := if i == |level| - 1 then ProofNode(level[i], true)
                  else if target == level[i] then ProofNode(level[i + 1], false)
                  else ProofNode(level[i], true);
      assert StepPreimage(target, node) == Pair(level, i);
    }
  }

  lemma {:induction false} FoldFirst(c: Crypto, d: Bytes, node: ProofNode, rest: seq<ProofNode>)
    ensures Fold(c, d, [node] + rest) == Fold(c, c.digest(StepPreimage(d, node)), rest)
    ensures FoldPreimages(c, d, [node] + rest)
            == {StepPreimage(d, node)} + FoldPreimages(c, c.digest(StepPreimage(d, node)), rest)
  {
    assert [node][..0] == [];
    FoldConcat(c, d, [node], rest);
    FoldPreimagesConcat(c, d, [node], rest);
  }

  /** The proof nodes that one level adds fold from the old target to the new one, and the fold hashes only
      pairs of that level. */
  lemma {:induction false} ScanFolds(c: Crypto, level: seq<Bytes>, i: nat, target: Bytes)
    requires i % 2 == 0
    ensures var scan := ScanLevel(c, level, i, target);
            && Fold(c, target, scan.proof) == scan.target
            && FoldPreimages(c, target, scan.proof) <= LevelPreimages(level)
    decreases |level| - i
  {
    if i < |level| {
      ScanStep(c, level, i, target);
      if Met(level, i, target) {
        ScanFolds(c, level, i + 2, c.digest(Pair(level, i)));
        ScanFoldsMet(c, level, i, target);
      } else {
        ScanFolds(c, level, i + 2, target);
      }
    }
  }

  lemma {:induction false} ScanFoldsMet(c: Crypto, level: seq<Bytes>, i: nat, target: Bytes)
    requires i % 2 == 0 && i < |level| && Met(level, i, target)
    requires var rest := ScanLevel(c, level, i + 2, c.digest(Pair(level, i)));
             && Fold(c, c.digest(Pair(level, i)), rest.proof) == rest.target
             && FoldPreimages(c, c.digest(Pair(level, i)), rest.proof) <= LevelPreimages(level)
    ensures var scan := ScanLevel(c, level, i, target);
            && Fold(c, target, scan.proof) == scan.target
            && FoldPreimages(c, target, scan.proof) <= LevelPreimages(level)
  {
    ScanStep(c, level, i, target);
    var rest := ScanLevel(c, level, i + 2, c.digest(Pair(level, i)));
    var node :| StepPreimage(target, node) == Pair(level, i) && ScanLevel(c, level, i, target) == Prepend(node, rest);
    FoldFirst(c, target, node, rest.proof);
    assert Pair(level, 2 * (i / 2)) in LevelPreimages(level);
  }

  /** The target stays in the part of the level not yet scanned, or in the next level. */
  lemma {:induction false} ScanStays(c: Crypto, level: seq<Bytes>, i: nat, target: Bytes)
    requires i % 2 == 0
    requires target in NextLevel(c, level) || exists k :: i <= k < |level| && level[k] == target
    ensures ScanLevel(c, level, i, target).target in NextLevel(c, level)
    decreases |level| - i
  {
    if i < |level| {
      InNextLevel(c, level, i);
      ScanStep(c, level, i, target);
      if Met(level, i, target) {
        ScanStays(c, level, i + 2, c.digest(Pair(level, i)));
      } else {
        ScanStays(c, level, i + 2, target);
      }
    }
  }

  lemma {:induction false} ProofFolds(c: Crypto, level: seq<Bytes>, target: Bytes)
    requires target in level
    ensures Fold(c, target, ProofOf(c, level, target)) == RootOf(c, level)
    decreases |level|
  {
    if |level| > 1 {
      var scan := ScanLevel(c, level, 0, target);
      ScanFolds(c, level, 0, target);
      ScanStays(c, level, 0, target);
      ProofFolds(c, NextLevel(c, level), scan.target);
      FoldConcat(c, target, scan.proof, ProofOf(c, NextLevel(c, level), scan.target));
    }
  }

  /** Completeness: the proof made for a transaction of the block always folds to the block's root. */
  lemma {:induction false} Completeness(c: Crypto, txs: seq<Transaction>, tx: Transaction)
    requires tx in txs
    ensures Fold(c, c.digest(Leaf(tx)), Proof(c, txs, tx)) == Root(c, txs)
  {
    var k :| 0 <= k < |txs| && txs[k] == tx;
    assert Leaves(c, txs)[k] == c.digest(Leaf(tx));
    ProofFolds(c, Leaves(c, txs), c.digest(Leaf(tx)));
  }

  // ---------- what is hashed ----------

  /** No two different values among these have the same digest. */
  ghost predicate CollisionFree(c: Crypto, hashed: set<Preimage>) {
    forall x, y {:trigger SameDigest(c, x, y)} :: x in hashed && y in hashed && SameDigest(c, x, y) ==> x == y
  }

  predicate SameDigest(c: Crypto, x: Preimage, y: Preimage) {
    c.digest(x) == c.digest(y)
  }

  function LevelPreimages(level: seq<Bytes>): set<Preimage> {
    set j | 0 <= j < (|level| + 1) / 2 :: Pair(level, 2 * j)
  }

  function FoldPreimages(c: Crypto, d: Bytes, proof: seq<ProofNode>): set<Preimage> {
    if proof == [] then {}
    else
      var front := proof[..|proof| - 1];
      FoldPreimages(c, d, front) + {StepPreimage(Fold(c, d, front), proof[|proof| - 1])}
  }

  lemma {:induction false} FoldPreimagesConcat(c: Crypto, d: Bytes, p: seq<ProofNode>, q: seq<ProofNode>)
    ensures FoldPreimages(c, d, p + q) == FoldPreimages(c, d, p) + FoldPreimages(c, Fold(c, d, p), q)
  {
    if q == [] {
      assert p + q == p;
    } else {
      assert (p + q)[..|p + q| - 1] == p + q[..|q| - 1];
      FoldConcat(c, d, p, q[..|q| - 1]);
      FoldPreimagesConcat(c, d, p, q[..|q| - 1]);
    }
  }

  function Level(c: Crypto, txs: seq<Transaction>, k: nat): seq<Bytes> {
    if k == 0 then Leaves(c, txs) else NextLevel(c, Level(c, txs, k - 1))
  }

  /** The number of levels above `n` nodes. */
  function Height(n: nat): nat {
    if n <= 1 then 0 else 1 + Height((n + 1) / 2)
  }

  /** What is hashed to build the first `k` levels above the leaves. */
  function Hashed(c: Crypto, txs: seq<Transaction>, k: nat): set<Preimage> {
    if k == 0 then set i | 0 <= i < |txs| :: Leaf(txs[i])
    else Hashed(c, txs, k - 1) + LevelPreimages(Level(c, txs, k - 1))
  }

  function BlockPreimages(c: Crypto, txs: seq<Transaction>): set<Preimage> {
    Hashed(c, txs, Height(|txs|))
  }

  lemma HashedMonotone(c: Crypto, txs: seq<Transaction>, j: nat, k: nat)
    requires j <= k
    ensures Hashed(c, txs, j) <= Hashed(c, txs, k)
  {
    forall x | x in Hashed(c, txs, j) ensures x in Hashed(c, txs, k) {
      HashedStays(c, txs, j, k, x);
    }
  }

  lemma {:induction false} HashedStays(c: Crypto, txs: seq<Transaction>, j: nat, k: nat, x: Preimage)
    requires j <= k && x in Hashed(c, txs, j)
    ensures x in Hashed(c, txs, k)
    decreases k
  {
    if j < k {
      HashedStays(c, txs, j, k - 1, x);
    }
  }

  /** Level lengths depend only on the number of leaves. */
  lemma {:induction false} LevelHeight(c: Crypto, txs: seq<Transaction>, k: nat)
    requires txs != [] && k <= Height(|txs|)
    ensures Level(c, txs, k) != [] && Height(|Level(c, txs, k)|) == Height(|txs|) - k
    ensures RootOf(c, Level(c, txs, k)) == Root(c, txs)
  {
    if k > 0 {
      LevelHeight(c, txs, k - 1);
    }
  }

  lemma RootAtTop(c: Crypto, txs: seq<Transaction>)
    requires txs != []
    ensures Level(c, txs, Height(|txs|)) == [Root(c, txs)]
  {
    LevelHeight(c, txs, Height(|txs|));
  }

  // ---------- soundness and binding ----------

  /** Each node of a level above the leaves is the digest of a pair of the level below. */
  lemma NodeOrigin(c: Crypto, txs: seq<Transaction>, k: nat, d: Bytes) returns (j: nat)
    requires d in Level(c, txs, k) && k > 0
    ensures 2 * j < |Level(c, txs, k - 1)| && d == c.digest(Pair(Level(c, txs, k - 1), 2 * j))
    ensures Pair(Level(c, txs, k - 1), 2 * j) in Hashed(c, txs, k)
  {
    j :| 0 <= j < |Level(c, txs, k)| && Level(c, txs, k)[j] == d;
  }

  /** One step down: a folded value met above the leaves was folded from a value of the level below. */
  lemma SoundStep(c: Crypto, hashed: set<Preimage>, txs: seq<Transaction>, k: nat, d: Bytes, node: ProofNode)
    requires CollisionFree(c, hashed) && Hashed(c, txs, k) <= hashed && StepPreimage(d, node) in hashed
    requires k > 0 && c.digest(StepPreimage(d, node)) in Level(c, txs, k)
    ensures d in Level(c, txs, k - 1)
  {
    var j := NodeOrigin(c, txs, k, c.digest(StepPreimage(d, node)));
    assert SameDigest(c, StepPreimage(d, node), Pair(Level(c, txs, k - 1), 2 * j));
  }

  lemma LeafApart(c: Crypto, hashed: set<Preimage>, txs: seq<Transaction>, k: nat, x: Preimage)
    requires CollisionFree(c, hashed) && Hashed(c, txs, k) <= hashed && x in hashed
    requires c.digest(x) in Level(c, txs, k)
    ensures if k == 0 then x.Leaf? && x.txn in txs else x.Node?
  {
    if k == 0 {
      var i :| 0 <= i < |txs| && c.digest(Leaf(txs[i])) == c.digest(x);
      assert Leaf(txs[i]) in Hashed(c, txs, 0) && SameDigest(c, x, Leaf(txs[i]));
    } else {
      var j := NodeOrigin(c, txs, k, c.digest(x));
      assert SameDigest(c, x, Pair(Level(c, txs, k - 1), 2 * j));
    }
  }

  lemma {:induction false} SoundAt(c: Crypto, hashed: set<Preimage>, txs: seq<Transaction>, k: nat,
                                   tx: Transaction, proof: seq<ProofNode>)
    requires Fold(c, c.digest(Leaf(tx)), proof) in Level(c, txs, k)
    requires CollisionFree(c, hashed) && Hashed(c, txs, k) <= hashed && Leaf(tx) in hashed
    requires FoldPreimages(c, c.digest(Leaf(tx)), proof) <= hashed
    ensures tx in txs
    decreases k
  {
    if proof == [] {
      LeafApart(c, hashed, txs, k, Leaf(tx));
    } else {
      var d := Fold(c, c.digest(Leaf(tx)), proof[..|proof| - 1]);
      LeafApart(c, hashed, txs, k, StepPreimage(d, proof[|proof| - 1]));
      SoundStep(c, hashed, txs, k, d, proof[|proof| - 1]);
      SoundAt(c, hashed, txs, k - 1, tx, proof[..|proof| - 1]);
    }
  }

  /** Soundness: a proof of any length that the SPV node accepts shows that the transaction is in the block, as
      long as the values hashed for the block and for the check do not collide. */
  lemma {:induction false} Soundness(c: Crypto, txs: seq<Transaction>, tx: Transaction, proof: seq<ProofNode>)
    requires txs != [] && Fold(c, c.digest(Leaf(tx)), proof) == Root(c, txs)
    requires CollisionFree(c, BlockPreimages(c, txs) + {Leaf(tx)} + FoldPreimages(c, c.digest(Leaf(tx)), proof))
    ensures tx in txs
  {
    RootAtTop(c, txs);
    SoundAt(c, BlockPreimages(c, txs) + {Leaf(tx)} + FoldPreimages(c, c.digest(Leaf(tx)), proof),
            txs, Height(|txs|), tx, proof);
  }

  lemma LeavesBind(c: Crypto, hashed: set<Preimage>, a: seq<Transaction>, b: seq<Transaction>)
    requires |a| == |b| && Leaves(c, a) == Leaves(c, b)
    requires CollisionFree(c, hashed) && Hashed(c, a, 0) <= hashed && Hashed(c, b, 0) <= hashed
    ensures a == b
  {
    forall i | 0 <= i < |a| ensures a[i] == b[i] {
      assert Leaves(c, a)[i] == Leaves(c, b)[i];
      assert Leaf(a[i]) in Hashed(c, a, 0) && Leaf(b[i]) in Hashed(c, b, 0);
      assert SameDigest(c, Leaf(a[i]), Leaf(b[i]));
    }
  }

  lemma LevelBinds(c: Crypto, hashed: set<Preimage>, a: seq<Bytes>, b: seq<Bytes>)
    requires |a| == |b| && NextLevel(c, a) == NextLevel(c, b)
    requires CollisionFree(c, hashed) && LevelPreimages(a) <= hashed && LevelPreimages(b) <= hashed
    ensures a == b
  {
    forall i | 0 <= i < |a| ensures a[i] == b[i] {
      var j := i / 2;
      assert NextLevel(c, a)[j] == NextLevel(c, b)[j];
      assert Pair(a, 2 * j) in LevelPreimages(a) && Pair(b, 2 * j) in LevelPreimages(b);
      assert SameDigest(c, Pair(a, 2 * j), Pair(b, 2 * j));
    }
  }

  /** The levels of two lists that meet at level `k` are the same all the way down. */
  lemma {:induction false} LevelsBind(c: Crypto, hashed: set<Preimage>, a: seq<Transaction>, b: seq<Transaction>,
                                      k: nat)
    requires |a| == |b| && Level(c, a, k) == Level(c, b, k) && CollisionFree(c, hashed)
    requires forall j: nat :: j < k ==> LevelIn(c, a, j, hashed) && LevelIn(c, b, j, hashed)
    ensures Leaves(c, a) == Leaves(c, b)
    decreases k
  {
    if k > 0 {
      var j := k - 1;
      LevelLength(c, a, b, j);
      assert LevelIn(c, a, j, hashed) && LevelIn(c, b, j, hashed);
      LevelBinds(c, hashed, Level(c, a, j), Level(c, b, j));
      LevelsBind(c, hashed, a, b, j);
    }
  }

  ghost predicate LevelIn(c: Crypto, txs: seq<Transaction>, j: nat, hashed: set<Preimage>) {
    LevelPreimages(Level(c, txs, j)) <= hashed
  }

  lemma LevelsIn(c: Crypto, txs: seq<Transaction>, hashed: set<Preimage>)
    requires BlockPreimages(c, txs) <= hashed
    ensures forall j: nat :: j < Height(|txs|) ==> LevelIn(c, txs, j, hashed)
    ensures Hashed(c, txs, 0) <= hashed
  {
    forall j: nat | j < Height(|txs|) ensures LevelIn(c, txs, j, hashed) {
      LevelHashed(c, txs, j);
    }
    HashedMonotone(c, txs, 0, Height(|txs|));
  }

  lemma {:induction false} LevelLength(c: Crypto, a: seq<Transaction>, b: seq<Transaction>, k: nat)
    requires |a| == |b|
    ensures |Level(c, a, k)| == |Level(c, b, k)|
  {
    if k > 0 {
      LevelLength(c, a, b, k - 1);
    }
  }

  /** Binding: the root fixes a transaction list of known length. */
  lemma {:induction false} Binding(c: Crypto, a: seq<Transaction>, b: seq<Transaction>)
    requires a != [] && |a| == |b| && Root(c, a) == Root(c, b)
    requires CollisionFree(c, BlockPreimages(c, a) + BlockPreimages(c, b))
    ensures a == b
  {
    RootAtTop(c, a);
    RootAtTop(c, b);
    var hashed := BlockPreimages(c, a) + BlockPreimages(c, b);
    LevelsIn(c, a, hashed);
    LevelsIn(c, b, hashed);
    LevelsBind(c, hashed, a, b, Height(|a|));
    LeavesBind(c, hashed, a, b);
  }

  lemma {:induction false} ProofPreimages(c: Crypto, txs: seq<Transaction>, k: nat, target: Bytes)
    requires txs != [] && k <= Height(|txs|) && Level(c, txs, k) != []
    ensures FoldPreimages(c, target, ProofOf(c, Level(c, txs, k), target)) <= BlockPreimages(c, txs)
    decreases Height(|txs|) - k
  {
    var level := Level(c, txs, k);
    assert Height(|level|) == Height(|txs|) - k by {
      LevelHeight(c, txs, k);
    }
    if |level| > 1 {
      var hashed, next := BlockPreimages(c, txs), ScanLevel(c, level, 0, target).target;
      assert Level(c, txs, k + 1) == NextLevel(c, level);
      ProofPreimages(c, txs, k + 1, next);
      assert LevelPreimages(level) <= hashed by {
        LevelHashed(c, txs, k);
      }
      OneLevelMore(c, level, target, hashed);
    }
  }

  lemma LevelHashed(c: Crypto, txs: seq<Transaction>, k: nat)
    requires k < Height(|txs|)
    ensures LevelPreimages(Level(c, txs, k)) <= BlockPreimages(c, txs)
  {
    HashedMonotone(c, txs, k + 1, Height(|txs|));
  }

  lemma {:induction false} OneLevelMore(c: Crypto, level: seq<Bytes>, target: Bytes, hashed: set<Preimage>)
    requires |level| > 1 && LevelPreimages(level) <= hashed
    requires var t := ScanLevel(c, level, 0, target).target;
             FoldPreimages(c, t, ProofOf(c, NextLevel(c, level), t)) <= hashed
    ensures FoldPreimages(c, target, ProofOf(c, level, target)) <= hashed
  {
    var scan := ScanLevel(c, level, 0, target);
    ScanFolds(c, level, 0, target);
    FoldPreimagesConcat(c, target, scan.proof, ProofOf(c, NextLevel(c, level), scan.target));
  }

  lemma RootFixesMembers(c: Crypto, a: seq<Transaction>, b: seq<Transaction>, tx: Transaction)
    requires a != [] && b != [] && Root(c, a) == Root(c, b) && tx in a
    requires CollisionFree(c, BlockPreimages(c, a) + BlockPreimages(c, b))
    ensures tx in b
  {
    Completeness(c, a, tx);
    ProofPreimages(c, a, 0, c.digest(Leaf(tx)));
    HashedMonotone(c, a, 0, Height(|a|));
    assert Leaf(tx) in Hashed(c, a, 0);
    Soundness(c, b, tx, Proof(c, a, tx));
  }

  /** For lists of different lengths the root still fixes the set of transactions.  It cannot fix more: see
      `DuplicatedTail`. */
  lemma {:induction false} BindingAsSets(c: Crypto, a: seq<Transaction>, b: seq<Transaction>)
    requires a != [] && b != [] && Root(c, a) == Root(c, b)
    requires CollisionFree(c, BlockPreimages(c, a) + BlockPreimages(c, b))
    ensures forall tx :: tx in a <==> tx in b
  {
    forall tx | tx in a ensures tx in b { RootFixesMembers(c, a, b, tx); }
    forall tx | tx in b ensures tx in a { RootFixesMembers(c, b, a, tx); }
  }

  /** Pairing an odd last node with itself gives [x, y, z] and [x, y, z, z] one root. */
  lemma {:induction false} DuplicatedTail(c: Crypto, x: Transaction, y: Transaction, z: Transaction)
    ensures Root(c, [x, y, z]) == Root(c, [x, y, z, z])
  {
    var a, b := Leaves(c, [x, y, z]), Leaves(c, [x, y, z, z]);
    var na, nb := NextLevel(c, a), NextLevel(c, b);
    forall j | 0 <= j < 2 ensures na[j] == nb[j] {
      assert Pair(a, 2 * j) == Pair(b, 2 * j);
    }
    assert na == nb;
  }

  // ---------- proof length ----------

  ghost predicate Distinct<T>(s: seq<T>) {
    forall i, j :: 0 <= i < j < |s| ==> s[i] != s[j]
  }

  lemma {:induction false} LevelsDistinct(c: Crypto, txs: seq<Transaction>, k: nat)
    requires CollisionFree(c, Hashed(c, txs, k)) && Distinct(txs)
    ensures Distinct(Level(c, txs, k))
  {
    var here := Level(c, txs, k);
    if k == 0 {
      forall i, j | 0 <= i < j < |here| ensures here[i] != here[j] {
        assert Leaf(txs[i]) in Hashed(c, txs, 0) && Leaf(txs[j]) in Hashed(c, txs, 0);
        assert !SameDigest(c, Leaf(txs[i]), Leaf(txs[j]));
      }
    } else {
      LevelsDistinct(c, txs, k - 1);
      var below := Level(c, txs, k - 1);
      forall i, j | 0 <= i < j < |here| ensures here[i] != here[j] {
        assert Pair(below, 2 * i) in LevelPreimages(below) && Pair(below, 2 * j) in LevelPreimages(below);
        assert below[2 * i] != below[2 * j];
        assert !SameDigest(c, Pair(below, 2 * i), Pair(below, 2 * j));
      }
    }
  }

  ghost predicate Apart(a: seq<Bytes>, b: seq<Bytes>) {
    forall d :: d in a ==> d !in b
  }

  lemma ApartFromLeaves(c: Crypto, hashed: set<Preimage>, txs: seq<Transaction>)
    requires CollisionFree(c, hashed) && Hashed(c, txs, 0) <= hashed && LevelPreimages(Leaves(c, txs)) <= hashed
    ensures Apart(Leaves(c, txs), NextLevel(c, Leaves(c, txs)))
  {
    var level := Leaves(c, txs);
    forall i, j | 0 <= i < |level| && 0 <= j < |NextLevel(c, level)|
      ensures level[i] != NextLevel(c, level)[j]
    {
      assert Leaf(txs[i]) in Hashed(c, txs, 0) && Pair(level, 2 * j) in LevelPreimages(level);
      assert !SameDigest(c, Leaf(txs[i]), Pair(level, 2 * j));
    }
  }

  lemma ApartStep(c: Crypto, hashed: set<Preimage>, below: seq<Bytes>)
    requires CollisionFree(c, hashed) && LevelPreimages(below) <= hashed
    requires LevelPreimages(NextLevel(c, below)) <= hashed && Apart(below, NextLevel(c, below))
    ensures Apart(NextLevel(c, below), NextLevel(c, NextLevel(c, below)))
  {
    var level := NextLevel(c, below);
    forall i, j | 0 <= i < |level| && 0 <= j < |NextLevel(c, level)|
      ensures level[i] != NextLevel(c, level)[j]
    {
      var x, y := Pair(below, 2 * i), Pair(level, 2 * j);
      assert x in LevelPreimages(below) && y in LevelPreimages(level);
      assert x.left in below && y.left in level;
      assert !SameDigest(c, x, y);
    }
  }

  /** Digests of neighbouring levels differ. */
  lemma {:induction false} LevelsApart(c: Crypto, hashed: set<Preimage>, txs: seq<Transaction>, k: nat)
    requires CollisionFree(c, hashed) && Hashed(c, txs, k + 1) <= hashed
    ensures Apart(Level(c, txs, k), Level(c, txs, k + 1))
  {
    if k == 0 {
      ApartFromLeaves(c, hashed, txs);
    } else {
      LevelsApart(c, hashed, txs, k - 1);
      ApartStep(c, hashed, Level(c, txs, k - 1));
    }
  }

  lemma {:induction false} ScanMeetsOnce(c: Crypto, level: seq<Bytes>, i: nat, target: Bytes)
    requires Distinct(level) && Apart(level, NextLevel(c, level))
    requires i % 2 == 0
    ensures (forall k :: i <= k < |level| ==> level[k] != target) ==> ScanLevel(c, level, i, target) == Scan([], target)
    ensures (exists k :: i <= k < |level| && level[k] == target) ==> |ScanLevel(c, level, i, target).proof| == 1
    decreases |level| - i
  {
    if i < |level| {
      InNextLevel(c, level, i);
      ScanMeetsOnce(c, level, i + 2, target);
      ScanMeetsOnce(c, level, i + 2, c.digest(Pair(level, i)));
    }
  }

  lemma {:induction false} ProofLengthAt(c: Crypto, txs: seq<Transaction>, k: nat, target: Bytes)
    requires txs != [] && k <= Height(|txs|) && target in Level(c, txs, k)
    requires CollisionFree(c, BlockPreimages(c, txs)) && Distinct(txs)
    ensures |ProofOf(c, Level(c, txs, k), target)| == Height(|txs|) - k
    decreases Height(|txs|) - k
  {
    var level := Level(c, txs, k);
    LevelHeight(c, txs, k);
    if |level| > 1 {
      ScanMeetsTarget(c, txs, k, target);
      ScanStays(c, level, 0, target);
      ProofLengthAt(c, txs, k + 1, ScanLevel(c, level, 0, target).target);
    }
  }

  lemma ScanMeetsTarget(c: Crypto, txs: seq<Transaction>, k: nat, target: Bytes)
    requires txs != [] && k < Height(|txs|) && target in Level(c, txs, k)
    requires CollisionFree(c, BlockPreimages(c, txs)) && Distinct(txs)
    ensures |ScanLevel(c, Level(c, txs, k), 0, target).proof| == 1
  {
    HashedMonotone(c, txs, k, Height(|txs|));
    HashedMonotone(c, txs, k + 1, Height(|txs|));
    LevelsDistinct(c, txs, k);
    LevelsApart(c, BlockPreimages(c, txs), txs, k);
    ScanMeetsOnce(c, Level(c, txs, k), 0, target);
  }

  function Pow2(k: nat): nat {
    if k == 0 then 1 else 2 * Pow2(k - 1)
  }

  lemma {:induction false} HeightIsCeilLog2(n: nat)
    requires n >= 1
    ensures n <= Pow2(Height(n)) && (n > 1 ==> Pow2(Height(n) - 1) < n)
  {
    if n > 1 {
      HeightIsCeilLog2((n + 1) / 2);
    }
  }

  /** With distinct transactions and no collision a proof has exactly ceil(log2 n) nodes. */
  lemma {:induction false} ProofLength(c: Crypto, txs: seq<Transaction>, tx: Transaction)
    requires tx in txs && Distinct(txs) && CollisionFree(c, BlockPreimages(c, txs))
    ensures var h := |Proof(c, txs, tx)|;
            |txs| <= Pow2(h) && (|txs| > 1 ==> h > 0 && Pow2(h - 1) < |txs|)
  {
    var k :| 0 <= k < |txs| && txs[k] == tx;
    assert Leaves(c, txs)[k] == c.digest(Leaf(tx));
    ProofLengthAt(c, txs, 0, c.digest(Leaf(tx)));
    HeightIsCeilLog2(|txs|);
  }
}
