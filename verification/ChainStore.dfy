/** Blocks in a database, found by following previous-block hashes from the newest one. */
module ChainStore {
  import opened Types
  import Merkle

  /** What `Block.GetHash` does to the block: a missing Merkle root is filled in, a present one is kept. */
  function Seal(c: Crypto, block: Block): Block {
    if block.header.merkleRoot == [] && block.transactions != [] then
      block.(header := block.header.(merkleRoot := Merkle.Root(c, block.transactions)))
    else block
  }

  function BlockHash(c: Crypto, block: Block): Bytes {
    c.headerHash(Seal(c, block).header)
  }

  function Fetch(blocks: map<Bytes, Block>, hash: Bytes): Block {
    if hash in blocks then blocks[hash] else ZERO_BLOCK
  }

  function FetchHeader(headers: map<Bytes, BlockHeader>, hash: Bytes): BlockHeader {
    if hash in headers then headers[hash] else ZERO_HEADER
  }

  /** The walk from `tip` ends and visits exactly `chain`, given oldest first.  A missing block reads as one
      without a predecessor, so a walk may also end at a gap. */
  ghost predicate ChainTo(blocks: map<Bytes, Block>, tip: Bytes, chain: seq<Block>)
    decreases |chain|
  {
    && chain != []
    && var last := chain[|chain| - 1];
       && Fetch(blocks, tip) == last
       && if last.header.prevHash == [] then |chain| == 1
          else ChainTo(blocks, last.header.prevHash, chain[..|chain| - 1])
  }

  ghost predicate HeadersTo(headers: map<Bytes, BlockHeader>, tip: Bytes, chain: seq<BlockHeader>)
    decreases |chain|
  {
    && chain != []
    && var last := chain[|chain| - 1];
       && FetchHeader(headers, tip) == last
       && if last.prevHash == [] then |chain| == 1
          else HeadersTo(headers, last.prevHash, chain[..|chain| - 1])
  }

  /** A walk visits one chain only. */
  lemma {:induction false} WalkUnique(blocks: map<Bytes, Block>, tip: Bytes, a: seq<Block>, b: seq<Block>)
    requires ChainTo(blocks, tip, a) && ChainTo(blocks, tip, b)
    ensures a == b
    decreases |a|
  {
    var last := a[|a| - 1];
    if last.header.prevHash != [] {
      WalkUnique(blocks, last.header.prevHash, a[..|a| - 1], b[..|b| - 1]);
      assert a == a[..|a| - 1] + [last] && b == b[..|b| - 1] + [last];
    }
  }

  /** Each block of the chain names the one before it, and only the first names none. */
  ghost predicate Linked(c: Crypto, chain: seq<Block>) {
    && chain != []
    && chain[0].header.prevHash == []
    && (forall i :: 0 <= i < |chain| ==> Seal(c, chain[i]) == chain[i])
    && (forall i :: 0 < i < |chain| ==>
          chain[i].header.prevHash == BlockHash(c, chain[i - 1]) && chain[i].header.prevHash != [])
  }

  ghost predicate Stored(c: Crypto, blocks: map<Bytes, Block>, chain: seq<Block>) {
    forall i :: 0 <= i < |chain| ==> BlockHash(c, chain[i]) in blocks && blocks[BlockHash(c, chain[i])] == chain[i]
  }

  function TipHash(c: Crypto, chain: seq<Block>): Bytes
    requires chain != []
  {
    BlockHash(c, chain[|chain| - 1])
  }

  lemma {:induction false} StoredChain(c: Crypto, blocks: map<Bytes, Block>, chain: seq<Block>)
    requires Linked(c, chain) && Stored(c, blocks, chain)
    ensures ChainTo(blocks, TipHash(c, chain), chain)
  {
    var n := |chain| - 1;
    assert blocks[BlockHash(c, chain[n])] == chain[n];
    if n > 0 {
      StoredChain(c, blocks, chain[..n]);
    }
  }

  function Headers(chain: seq<Block>): (headers: seq<BlockHeader>)
    ensures |headers| == |chain|
  {
    seq(|chain|, i requires 0 <= i < |chain| => chain[i].header)
  }

  function Hashes(c: Crypto, chain: seq<Block>): (hashes: seq<Bytes>)
    ensures |hashes| == |chain|
  {
    seq(|chain|, i requires 0 <= i < |chain| => BlockHash(c, chain[i]))
  }

  function Reverse<T>(s: seq<T>): (r: seq<T>)
    ensures |r| == |s|
    ensures forall i :: 0 <= i < |s| ==> r[i] == s[|s| - 1 - i]
  {
    seq(|s|, i requires 0 <= i < |s| => s[|s| - 1 - i])
  }

  lemma {:induction false} ReverseStep<T>(s: seq<T>, k: int)
    requires 0 < k <= |s|
    ensures Reverse(s[k - 1..]) == Reverse(s[k..]) + [s[k - 1]]
  {
  }

  /** The last position at which `target` stands, if any. */
  function LastIndex(hashes: seq<Bytes>, target: Bytes): (i: int)
    ensures -1 <= i < |hashes|
    ensures i >= 0 ==> hashes[i] == target
    ensures forall j :: i < j < |hashes| ==> hashes[j] != target
  {
    if hashes == [] then -1
    else if hashes[|hashes| - 1] == target then |hashes| - 1
    else LastIndex(hashes[..|hashes| - 1], target)
  }

  /** What stands after the target, or after the first element when the target is absent. */
  function AfterTarget<T>(items: seq<T>, hashes: seq<Bytes>, target: Bytes): seq<T>
    requires |items| == |hashes| && items != []
  {
    var i := LastIndex(hashes, target);
    if i >= 0 then items[i + 1..] else items[1..]
  }

  /** Block hashes along a linked and stored chain are pairwise distinct: a repeat would close the walk. */
  lemma {:induction false} HashesDistinct(c: Crypto, blocks: map<Bytes, Block>, chain: seq<Block>, i: int, j: int)
    requires Linked(c, chain) && Stored(c, blocks, chain) && 0 <= i < j < |chain|
    ensures BlockHash(c, chain[i]) != BlockHash(c, chain[j])
  {
    if BlockHash(c, chain[i]) == BlockHash(c, chain[j]) {
      assert Linked(c, chain[..i + 1]) && Stored(c, blocks, chain[..i + 1]);
      assert Linked(c, chain[..j + 1]) && Stored(c, blocks, chain[..j + 1]);
      StoredChain(c, blocks, chain[..i + 1]);
      StoredChain(c, blocks, chain[..j + 1]);
      WalkUnique(blocks, BlockHash(c, chain[i]), chain[..i + 1], chain[..j + 1]);
    }
  }

  /** A target that stands on the chain is found where it stands, so what follows it is exact. */
  lemma {:induction false} AfterTip(c: Crypto, blocks: map<Bytes, Block>, chain: seq<Block>, k: int)
    requires Linked(c, chain) && Stored(c, blocks, chain) && 0 < k <= |chain|
    ensures LastIndex(Hashes(c, chain), TipHash(c, chain[..k])) == k - 1
  {
    var i := LastIndex(Hashes(c, chain), TipHash(c, chain[..k]));
    assert Hashes(c, chain)[k - 1] == TipHash(c, chain[..k]);
    if i > k - 1 {
      HashesDistinct(c, blocks, chain, k - 1, i);
    }
  }
}
