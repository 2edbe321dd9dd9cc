/** Synchronising blocks and headers: what is asked for, what is answered, and that the outcome does not depend
    on the order in which the answers arrive. */
module SyncSpec {
  import opened Types
  import UtxoSpec
  import ChainSpec
  import opened ChainStore
  import BlockChains

  const MAX_INV: nat := 500
  const MAX_HEADERS: nat := 2000
  const MAX_BLOCKS_IN_TRANSIT_PER_PEER: nat := 10

  datatype Getdata = Getdata(index: int, hashList: seq<Bytes>)
  datatype Blockdata = Blockdata(index: int, blockList: seq<Block>)
  datatype Reply<T> = Send(items: seq<T>) | AskBack(topHash: Bytes) | Silent

  function Min(a: nat, b: nat): nat {
    if a < b then a else b
  }

  function Flatten<T>(lists: seq<seq<T>>): seq<T> {
    if lists == [] then [] else Flatten(lists[..|lists| - 1]) + lists[|lists| - 1]
  }

  // ---------- cutting an inventory into requests ----------

  /** The `i`-th request. */
  function Chunk(hashes: seq<Bytes>, i: nat): Getdata
    requires MAX_BLOCKS_IN_TRANSIT_PER_PEER * i <= |hashes|
  {
    var from := MAX_BLOCKS_IN_TRANSIT_PER_PEER * i;
    Getdata(i, hashes[from..Min(from + MAX_BLOCKS_IN_TRANSIT_PER_PEER, |hashes|)])
  }

  function ChunkCount(n: nat): nat {
    (n + MAX_BLOCKS_IN_TRANSIT_PER_PEER - 1) / MAX_BLOCKS_IN_TRANSIT_PER_PEER
  }

  function Chunks(hashes: seq<Bytes>): (msgs: seq<Getdata>)
    ensures |msgs| == ChunkCount(|hashes|)
  {
    seq(ChunkCount(|hashes|), i requires 0 <= i < ChunkCount(|hashes|) => Chunk(hashes, i))
  }

  lemma {:induction false} ChunkCountNext(n: nat)
    ensures ChunkCount(n + 1) == ChunkCount(n) + if n % MAX_BLOCKS_IN_TRANSIT_PER_PEER == 0 then 1 else 0
    ensures var last := ChunkCount(n) - 1;
            n > 0 ==> MAX_BLOCKS_IN_TRANSIT_PER_PEER * last < n <= MAX_BLOCKS_IN_TRANSIT_PER_PEER * (last + 1)
  {
  }

  /** One more hash changes no full request, and joins a request that is not full. */
  lemma {:induction false} ChunkNext(hashes: seq<Bytes>, h: Bytes, i: nat)
    requires MAX_BLOCKS_IN_TRANSIT_PER_PEER * i <= |hashes|
    ensures Chunk(hashes + [h], i)
            == Getdata(i, Chunk(hashes, i).hashList
                          + if |hashes| < MAX_BLOCKS_IN_TRANSIT_PER_PEER * (i + 1) then [h] else [])
  {
    var from, to := MAX_BLOCKS_IN_TRANSIT_PER_PEER * i, MAX_BLOCKS_IN_TRANSIT_PER_PEER * (i + 1);
    if |hashes| < to {
      assert (hashes + [h])[from..|hashes| + 1] == hashes[from..] + [h];
    } else {
      assert (hashes + [h])[from..to] == hashes[from..to];
    }
  }

  /** One more hash opens a request when all are full, and joins the last one otherwise. */
  lemma {:induction false} ChunksSnoc(hashes: seq<Bytes>, h: Bytes)
    ensures var before, after := Chunks(hashes), Chunks(hashes + [h]);
            var last := |before| - 1;
            if before == [] || |before[last].hashList| >= MAX_BLOCKS_IN_TRANSIT_PER_PEER
            then after == before + [Getdata(last + 1, [h])]
            else after == before[last := before[last].(hashList := before[last].hashList + [h])]
  {
    var before, after := Chunks(hashes), Chunks(hashes + [h]);
    var last := |before| - 1;
    ChunkCountNext(|hashes|);
    forall i | 0 <= i < last ensures before[i] == after[i] {
      ChunkNext(hashes, h, i);
    }
    if last >= 0 {
      ChunkNext(hashes, h, last);
      assert before[last].hashList + [] == before[last].hashList;
    }
    if |hashes| % MAX_BLOCKS_IN_TRANSIT_PER_PEER == 0 {
      ChunkNext(hashes, h, last + 1);
      assert Chunk(hashes, last + 1).hashList == [] && after[last + 1] == Getdata(last + 1, [h]);
    }
  }

  /** The first loop of `handleInvMsg`: a new message when there is none or the last one is full. */
  method MakeGetdata(hashes: seq<Bytes>) returns (msgs: seq<Getdata>)
    ensures msgs == Chunks(hashes)
  {
    msgs := [];
    for k := 0 to |hashes|
      invariant msgs == Chunks(hashes[..k])
    {
      var last := |msgs| - 1;
      ChunksSnoc(hashes[..k], hashes[k]);
      assert hashes[..k + 1] == hashes[..k] + [hashes[k]];
      if |msgs| == 0 || |msgs[last].hashList| >= MAX_BLOCKS_IN_TRANSIT_PER_PEER {
        msgs := msgs + [Getdata(last + 1, [hashes[k]])];
      } else {
        msgs := msgs[last := msgs[last].(hashList := msgs[last].hashList + [hashes[k]])];
      }
    }
    assert hashes[..|hashes|] == hashes;
  }

  function HashLists(msgs: seq<Getdata>): (lists: seq<seq<Bytes>>)
    ensures |lists| == |msgs|
  {
    seq(|msgs|, i requires 0 <= i < |msgs| => msgs[i].hashList)
  }

  lemma {:induction false} ChunksPrefix(hashes: seq<Bytes>, n: nat)
    requires n <= ChunkCount(|hashes|)
    ensures Flatten(HashLists(Chunks(hashes)[..n])) == hashes[..Min(MAX_BLOCKS_IN_TRANSIT_PER_PEER * n, |hashes|)]
  {
    if n > 0 {
      ChunksPrefix(hashes, n - 1);
      var lists := HashLists(Chunks(hashes)[..n]);
      assert lists[..n - 1] == HashLists(Chunks(hashes)[..n - 1]);
    }
  }

  /** The requests ask for exactly the inventory, in order; all but the last are full, the last is not empty,
      and each carries its position. */
  lemma {:induction false} ChunksLossless(hashes: seq<Bytes>)
    ensures Flatten(HashLists(Chunks(hashes))) == hashes
    ensures forall i :: 0 <= i < |Chunks(hashes)| ==> Chunks(hashes)[i].index == i
    ensures forall i :: 0 <= i < |Chunks(hashes)| - 1 ==> |Chunks(hashes)[i].hashList| == MAX_BLOCKS_IN_TRANSIT_PER_PEER
    ensures hashes != [] ==> var msgs := Chunks(hashes);
              msgs != [] && 1 <= |msgs[|msgs| - 1].hashList| <= MAX_BLOCKS_IN_TRANSIT_PER_PEER
  {
    ChunksPrefix(hashes, ChunkCount(|hashes|));
    assert Chunks(hashes)[..ChunkCount(|hashes|)] == Chunks(hashes);
  }

  // ---------- answers ----------

  /** `handleGetblocksMsg` on a node whose chain is `chain`. */
  ghost function GetblocksReply(c: Crypto, chain: seq<Block>, top: Bytes): Reply<Bytes>
    requires chain != []
  {
    var hashes := Hashes(c, chain);
    var rest := AfterTarget(hashes, hashes, top);
    if top !in hashes then AskBack(TipHash(c, chain))
    else if rest == [] then Silent
    else Send(rest[..Min(MAX_INV, |rest|)])
  }

  /** `handleGetheadersMsg` on a full node: an unknown header is not answered. */
  ghost function GetheadersReply(c: Crypto, chain: seq<Block>, top: Bytes): Reply<BlockHeader>
    requires chain != []
  {
    var rest := AfterTarget(Headers(chain), Hashes(c, chain), top);
    if top !in Hashes(c, chain) || rest == [] then Silent
    else Send(rest[..Min(MAX_HEADERS, |rest|)])
  }

  /** The loop of all three handlers: from the list that is newest first, the oldest come first, up to a limit. */
  method TakeOldest<T>(newestFirst: seq<T>, limit: nat) returns (items: seq<T>)
    requires limit > 0
    ensures items == Reverse(newestFirst)[..Min(limit, |newestFirst|)]
  {
    items := [];
    var i := |newestFirst| - 1;
    while i >= 0
      invariant -1 <= i < |newestFirst|
      invariant |items| == |newestFirst| - 1 - i && (i >= 0 ==> |items| < limit) && |items| <= limit
      invariant items == Reverse(newestFirst)[..|items|]
    {
      items := items + [newestFirst[i]];
      assert Reverse(newestFirst)[..|items|]
             == Reverse(newestFirst)[..|items| - 1] + [Reverse(newestFirst)[|items| - 1]];
      if |items| >= limit {
        break;
      }
      i := i - 1;
    }
  }

  lemma ReverseTwice<T>(s: seq<T>)
    ensures Reverse(Reverse(s)) == s
  {
  }

  // ---------- arrival of blocks ----------

  datatype Receiver = Receiver(blocks: map<Bytes, Block>, lastHash: Bytes)

  function PutBlocks(c: Crypto, blocks: map<Bytes, Block>, list: seq<Block>): map<Bytes, Block> {
    if list == [] then blocks
    else
      var b := list[|list| - 1];
      PutBlocks(c, blocks, list[..|list| - 1])[BlockHash(c, b) := Seal(c, b)]
  }

  /** The synchronisation part of `handleBlockdataMsg`.  Only the message with the last index moves the tip. */
  function Deliver(c: Crypto, r: Receiver, count: int, msg: Blockdata): Receiver {
    Receiver(PutBlocks(c, r.blocks, msg.blockList),
             if msg.index == count - 1 && msg.blockList != [] then BlockHash(c, msg.blockList[|msg.blockList| - 1])
             else r.lastHash)
  }

  function DeliverAll(c: Crypto, r: Receiver, count: int, msgs: seq<Blockdata>): Receiver {
    if msgs == [] then r else Deliver(c, DeliverAll(c, r, count, msgs[..|msgs| - 1]), count, msgs[|msgs| - 1])
  }

  lemma {:induction false} PutBlocksConcat(c: Crypto, blocks: map<Bytes, Block>, a: seq<Block>, b: seq<Block>)
    ensures PutBlocks(c, blocks, a + b) == PutBlocks(c, PutBlocks(c, blocks, a), b)
  {
    if b == [] {
      assert a + b == a;
    } else {
      assert (a + b)[..|a + b| - 1] == a + b[..|b| - 1];
      PutBlocksConcat(c, blocks, a, b[..|b| - 1]);
    }
  }

  predicate SameHash(c: Crypto, a: Block, b: Block) {
    BlockHash(c, a) == BlockHash(c, b)
  }

  /** Sealed blocks, no two of which share a hash. */
  ghost predicate Proper(c: Crypto, s: seq<Block>) {
    && (forall b :: b in s ==> Seal(c, b) == b)
    && (forall a, b {:trigger SameHash(c, a, b)} :: a in s && b in s && SameHash(c, a, b) ==> a == b)
  }

  /** What putting a list of proper blocks leaves under the hash of a listed block, in whatever order and however
      often the blocks are put. */
  lemma {:induction false} PutBlocksListed(c: Crypto, blocks: map<Bytes, Block>, list: seq<Block>, s: seq<Block>,
                                           b: Block)
    requires (forall x :: x in list ==> x in s) && Proper(c, s) && b in list
    ensures BlockHash(c, b) in PutBlocks(c, blocks, list) && PutBlocks(c, blocks, list)[BlockHash(c, b)] == b
  {
    var n := |list| - 1;
    assert SameHash(c, b, list[n]) ==> b == list[n];
    if !SameHash(c, b, list[n]) {
      assert list == list[..n] + [list[n]];
      PutBlocksListed(c, blocks, list[..n], s, b);
    }
  }

  /** Other entries stay as they were. */
  lemma {:induction false} PutBlocksOther(c: Crypto, blocks: map<Bytes, Block>, list: seq<Block>, h: Bytes)
    requires forall b :: b in list ==> BlockHash(c, b) != h
    ensures h in PutBlocks(c, blocks, list) <==> h in blocks
    ensures h in blocks ==> PutBlocks(c, blocks, list)[h] == blocks[h]
  {
    if list != [] {
      PutBlocksOther(c, blocks, list[..|list| - 1], h);
    }
  }

  // ---------- one round ----------

  /** The receiver's store holds a prefix of the sender's chain and its tip is the end of that prefix. */
  ghost predicate HasPrefix(c: Crypto, r: Receiver, s: seq<Block>, k: int) {
    0 < k <= |s| && Stored(c, r.blocks, s[..k]) && r.lastHash == TipHash(c, s[..k])
  }

  /** Answers to the requests for `hashes`, from peers that hold the chain: every request is answered, in any
      order, some perhaps more than once. */
  ghost predicate Answers(c: Crypto, s: seq<Block>, hashes: seq<Bytes>, msgs: seq<Blockdata>) {
    && (forall j :: 0 <= j < |msgs| ==> AnswersOne(c, s, hashes, msgs[j]))
    && (forall i :: 0 <= i < ChunkCount(|hashes|) ==> Answered(msgs, i))
  }

  ghost predicate Answered(msgs: seq<Blockdata>, i: int) {
    exists j :: 0 <= j < |msgs| && msgs[j].index == i
  }

  ghost predicate AnswersOne(c: Crypto, s: seq<Block>, hashes: seq<Bytes>, msg: Blockdata) {
    && 0 <= msg.index < ChunkCount(|hashes|)
    && exists peer: map<Bytes, Block> ::
         Stored(c, peer, s) && msg.blockList == BlockChains.FetchAll(peer, Chunk(hashes, msg.index).hashList)
  }

  /** What a peer that holds the chain sends for one request. */
  lemma AnswerBlocks(c: Crypto, s: seq<Block>, from: int, to: int, msg: Blockdata)
    requires 0 <= from <= to <= |s| && AnswersOne(c, s, Hashes(c, s)[from..to], msg)
    ensures var lo := from + 10 * msg.index; var hi := Min(lo + 10, to);
            lo < hi && msg.blockList == s[lo..hi]
  {
    var hashes, list := Hashes(c, s)[from..to], Chunk(Hashes(c, s)[from..to], msg.index).hashList;
    var lo := from + 10 * msg.index;
    var hi := Min(lo + 10, to);
    assert |list| == hi - lo;
    var peer: map<Bytes, Block> :| Stored(c, peer, s) && msg.blockList == BlockChains.FetchAll(peer, list);
    forall x | 0 <= x < hi - lo ensures msg.blockList[x] == s[lo + x] {
      assert list[x] == hashes[10 * msg.index + x] == BlockHash(c, s[lo + x]);
      assert peer[BlockHash(c, s[lo + x])] == s[lo + x];
    }
  }

  function Lists(msgs: seq<Blockdata>): (lists: seq<seq<Block>>)
    ensures |lists| == |msgs|
  {
    seq(|msgs|, i requires 0 <= i < |msgs| => msgs[i].blockList)
  }

  lemma {:induction false} DeliverAllBlocks(c: Crypto, r: Receiver, count: int, msgs: seq<Blockdata>)
    ensures DeliverAll(c, r, count, msgs).blocks == PutBlocks(c, r.blocks, Flatten(Lists(msgs)))
  {
    if msgs != [] {
      var n := |msgs| - 1;
      DeliverAllBlocks(c, r, count, msgs[..n]);
      assert Lists(msgs)[..n] == Lists(msgs[..n]);
      PutBlocksConcat(c, r.blocks, Flatten(Lists(msgs[..n])), msgs[n].blockList);
    }
  }

  lemma {:induction false} FlattenMember<T>(lists: seq<seq<T>>, x: T)
    ensures x in Flatten(lists) <==> exists i :: 0 <= i < |lists| && x in lists[i]
  {
    if lists != [] {
      var n := |lists| - 1;
      FlattenMember(lists[..n], x);
      if x in lists[n] {
        assert x in Flatten(lists);
      }
      if i :| 0 <= i < n && x in lists[..n][i] {
        assert x in lists[i];
      }
      if i :| 0 <= i < |lists| && x in lists[i] && i < n {
        assert x in lists[..n][i];
      }
    }
  }

  /** The blocks that arrive in a round are exactly those asked for. */
  lemma {:induction false} ArrivedBlocks(c: Crypto, s: seq<Block>, from: int, to: int, msgs: seq<Blockdata>, b: Block)
    requires 0 <= from <= to <= |s| && Answers(c, s, Hashes(c, s)[from..to], msgs)
    ensures b in Flatten(Lists(msgs)) <==> b in s[from..to]
  {
    FlattenMember(Lists(msgs), b);
    if j :| 0 <= j < |msgs| && b in Lists(msgs)[j] {
      assert AnswersOne(c, s, Hashes(c, s)[from..to], msgs[j]);
      AnswerBlocks(c, s, from, to, msgs[j]);
      InSlice(s, from, to, from + 10 * msgs[j].index, Min(from + 10 * msgs[j].index + 10, to), b);
    }
    if x :| 0 <= x < to - from && s[from..to][x] == b {
      var j := AskedArrives(c, s, from, to, msgs, x);
      assert b in Lists(msgs)[j];
    }
  }

  lemma InSlice(s: seq<Block>, from: int, to: int, lo: int, hi: int, b: Block)
    requires 0 <= from <= lo <= hi <= to <= |s| && b in s[lo..hi]
    ensures b in s[from..to]
  {
    var x :| 0 <= x < hi - lo && s[lo..hi][x] == b;
    assert s[from..to][lo - from + x] == b;
  }

  lemma AskedArrives(c: Crypto, s: seq<Block>, from: int, to: int, msgs: seq<Blockdata>, x: int) returns (j: int)
    requires 0 <= from <= to <= |s| && Answers(c, s, Hashes(c, s)[from..to], msgs) && 0 <= x < to - from
    ensures 0 <= j < |msgs| && s[from..to][x] in msgs[j].blockList
  {
    var i := x / 10;
    assert i < ChunkCount(to - from) && Answered(msgs, i);
    j :| 0 <= j < |msgs| && msgs[j].index == i;
    AnswerHolds(c, s, from, to, msgs[j], x);
  }

  lemma AnswerHolds(c: Crypto, s: seq<Block>, from: int, to: int, msg: Blockdata, x: int)
    requires 0 <= from <= to <= |s| && AnswersOne(c, s, Hashes(c, s)[from..to], msg)
    requires 0 <= x < to - from && msg.index == x / 10
    ensures s[from + x] in msg.blockList
  {
    AnswerBlocks(c, s, from, to, msg);
    assert msg.blockList[x - 10 * msg.index] == s[from + x];
  }

  lemma LastAnswer(c: Crypto, s: seq<Block>, from: int, to: int, msg: Blockdata)
    requires 0 <= from < to <= |s| && AnswersOne(c, s, Hashes(c, s)[from..to], msg)
    ensures msg.blockList != []
    ensures msg.index == ChunkCount(to - from) - 1 ==> msg.blockList[|msg.blockList| - 1] == s[to - 1]
  {
    AnswerBlocks(c, s, from, to, msg);
  }

  /** The tip after the answers: moved by the last request's answer alone, whenever that arrives. */
  lemma {:induction false} TipAfter(c: Crypto, r: Receiver, s: seq<Block>, from: int, to: int, msgs: seq<Blockdata>)
    requires 0 <= from < to <= |s|
    requires forall j :: 0 <= j < |msgs| ==> AnswersOne(c, s, Hashes(c, s)[from..to], msgs[j])
    ensures var count := ChunkCount(to - from);
            DeliverAll(c, r, count, msgs).lastHash
            == if Answered(msgs, count - 1) then BlockHash(c, s[to - 1]) else r.lastHash
  {
    if msgs != [] {
      var n := |msgs| - 1;
      TipAfter(c, r, s, from, to, msgs[..n]);
      assert AnswersOne(c, s, Hashes(c, s)[from..to], msgs[n]);
      LastAnswer(c, s, from, to, msgs[n]);
      AnsweredSnoc(msgs, ChunkCount(to - from) - 1);
    }
  }

  lemma AnsweredSnoc(msgs: seq<Blockdata>, i: int)
    requires msgs != []
    ensures Answered(msgs, i) <==> Answered(msgs[..|msgs| - 1], i) || msgs[|msgs| - 1].index == i
  {
    if Answered(msgs[..|msgs| - 1], i) {
      var j :| 0 <= j < |msgs| - 1 && msgs[..|msgs| - 1][j].index == i;
      assert msgs[j].index == i;
    }
    if j :| 0 <= j < |msgs| - 1 && msgs[j].index == i {
      assert msgs[..|msgs| - 1][j].index == i;
    }
  }

  lemma ProperChain(c: Crypto, blocks: map<Bytes, Block>, s: seq<Block>)
    requires Linked(c, s) && Stored(c, blocks, s)
    ensures Proper(c, s)
    ensures forall i, j :: 0 <= i < j < |s| ==> BlockHash(c, s[i]) != BlockHash(c, s[j])
  {
    forall a, b | a in s && b in s && SameHash(c, a, b) ensures a == b {
      var i :| 0 <= i < |s| && s[i] == a;
      var j :| 0 <= j < |s| && s[j] == b;
      assert blocks[BlockHash(c, s[i])] == s[i] && blocks[BlockHash(c, s[j])] == s[j];
    }
    forall i, j | 0 <= i < j < |s| ensures BlockHash(c, s[i]) != BlockHash(c, s[j]) {
      HashesDistinct(c, blocks, s, i, j);
    }
  }

  /** Main theorem on a round: whatever the order of the answers, the receiver ends with the sender's chain up
      to the last block asked for (the `m`-th), and with no other change to its store. */
  lemma {:induction false} RoundExtends(c: Crypto, sender: map<Bytes, Block>, s: seq<Block>, r: Receiver, k: int,
                                        m: int,
                                        msgs: seq<Blockdata>)
    requires Linked(c, s) && Stored(c, sender, s) && HasPrefix(c, r, s, k) && k < m <= |s|
    requires Answers(c, s, Hashes(c, s)[k..m], msgs)
    ensures var r' := DeliverAll(c, r, ChunkCount(m - k), msgs);
            && HasPrefix(c, r', s, m)
            && ChainTo(r'.blocks, r'.lastHash, s[..m])
            && r'.blocks == PutBlocks(c, r.blocks, s[k..m])
  {
    var r' := DeliverAll(c, r, ChunkCount(m - k), msgs);
    RoundBlocks(c, sender, s, r, k, m, msgs);
    RoundTip(c, s, r, k, m, msgs);
    PrefixStored(c, sender, s, r.blocks, k, m);
    PrefixEnds(c, s, r', m);
  }

  lemma {:induction false} RoundTip(c: Crypto, s: seq<Block>, r: Receiver, k: int, m: int, msgs: seq<Blockdata>)
    requires 0 <= k < m <= |s| && Answers(c, s, Hashes(c, s)[k..m], msgs)
    ensures DeliverAll(c, r, ChunkCount(m - k), msgs).lastHash == TipHash(c, s[..m])
  {
    TipAfter(c, r, s, k, m, msgs);
    assert Answered(msgs, ChunkCount(m - k) - 1);
  }

  lemma PrefixEnds(c: Crypto, s: seq<Block>, r: Receiver, m: int)
    requires Linked(c, s) && HasPrefix(c, r, s, m)
    ensures ChainTo(r.blocks, r.lastHash, s[..m])
  {
    LinkedPrefix(c, s, m);
    StoredChain(c, r.blocks, s[..m]);
  }

  lemma RoundBlocks(c: Crypto, sender: map<Bytes, Block>, s: seq<Block>, r: Receiver, k: int, m: int,
                    msgs: seq<Blockdata>)
    requires Linked(c, s) && Stored(c, sender, s) && 0 <= k <= m <= |s|
    requires Answers(c, s, Hashes(c, s)[k..m], msgs)
    ensures DeliverAll(c, r, ChunkCount(m - k), msgs).blocks == PutBlocks(c, r.blocks, s[k..m])
  {
    var list := Flatten(Lists(msgs));
    DeliverAllBlocks(c, r, ChunkCount(m - k), msgs);
    ProperChain(c, sender, s);
    forall b ensures b in list <==> b in s[k..m] {
      ArrivedBlocks(c, s, k, m, msgs, b);
    }
    SamePuts(c, r.blocks, list, s[k..m], s);
  }

  lemma SamePuts(c: Crypto, blocks: map<Bytes, Block>, a: seq<Block>, b: seq<Block>, s: seq<Block>)
    requires (forall x :: x in a <==> x in b) && (forall x :: x in b ==> x in s) && Proper(c, s)
    ensures PutBlocks(c, blocks, a) == PutBlocks(c, blocks, b)
  {
    var pa, pb := PutBlocks(c, blocks, a), PutBlocks(c, blocks, b);
    forall h ensures (h in pa <==> h in pb) && (h in pa && h in pb ==> pa[h] == pb[h]) {
      if x :| x in a && BlockHash(c, x) == h {
        PutBlocksListed(c, blocks, a, s, x);
        PutBlocksListed(c, blocks, b, s, x);
      } else {
        PutBlocksOther(c, blocks, a, h);
        PutBlocksOther(c, blocks, b, h);
      }
    }
  }

  lemma PrefixStored(c: Crypto, sender: map<Bytes, Block>, s: seq<Block>, blocks: map<Bytes, Block>, k: int, m: int)
    requires Linked(c, s) && Stored(c, sender, s) && 0 < k <= m <= |s| && Stored(c, blocks, s[..k])
    ensures Stored(c, PutBlocks(c, blocks, s[k..m]), s[..m])
  {
    var list := s[k..m];
    var after := PutBlocks(c, blocks, list);
    ProperChain(c, sender, s);
    forall i | 0 <= i < m ensures BlockHash(c, s[i]) in after && after[BlockHash(c, s[i])] == s[i] {
      if i < k {
        assert s[..k][i] == s[i];
        forall b | b in list ensures BlockHash(c, b) != BlockHash(c, s[i]) {
          var x :| 0 <= x < m - k && list[x] == b;
          assert s[k + x] == b;
        }
        PutBlocksOther(c, blocks, list, BlockHash(c, s[i]));
      } else {
        assert list[i - k] == s[i];
        PutBlocksListed(c, blocks, list, s, s[i]);
      }
    }
  }

  lemma LinkedPrefix(c: Crypto, s: seq<Block>, m: int)
    requires Linked(c, s) && 0 < m <= |s|
    ensures Linked(c, s[..m])
  {
  }

  /** Two complete sets of answers to the same requests lead to the same state. */
  lemma {:induction false} OrderDoesNotMatter(c: Crypto, sender: map<Bytes, Block>, s: seq<Block>, r: Receiver, k: int,
                                              m: int,
                                              a: seq<Blockdata>, b: seq<Blockdata>)
    requires Linked(c, s) && Stored(c, sender, s) && HasPrefix(c, r, s, k) && k < m <= |s|
    requires Answers(c, s, Hashes(c, s)[k..m], a)
    requires Answers(c, s, Hashes(c, s)[k..m], b)
    ensures DeliverAll(c, r, ChunkCount(m - k), a) == DeliverAll(c, r, ChunkCount(m - k), b)
  {
    RoundExtends(c, sender, s, r, k, m, a);
    RoundExtends(c, sender, s, r, k, m, b);
  }

  /** What the sender answers to a receiver that holds a prefix: the next blocks, or nothing when level. */
  lemma {:induction false} SenderReply(c: Crypto, sender: map<Bytes, Block>, s: seq<Block>, r: Receiver, k: int)
    requires Linked(c, s) && Stored(c, sender, s) && HasPrefix(c, r, s, k)
    ensures GetblocksReply(c, s, r.lastHash)
            == if k == |s| then Silent else Send(Hashes(c, s)[k..Min(k + MAX_INV, |s|)])
  {
    AfterTip(c, sender, s, k);
    var hashes := Hashes(c, s);
    assert hashes[k - 1] == r.lastHash;
    var rest := AfterTarget(hashes, hashes, r.lastHash);
    assert rest == hashes[k..];
    if k < |s| {
      assert rest[..Min(MAX_INV, |rest|)] == hashes[k..Min(k + MAX_INV, |s|)];
    }
  }

  /** One exchange with the sender: it is silent and nothing changes, or it announces blocks and complete answers
      arrive. */
  ghost predicate Round(c: Crypto, s: seq<Block>, r: Receiver, r': Receiver)
    requires s != []
  {
    RoundWith(c, s, GetblocksReply(c, s, r.lastHash), r, r')
  }

  ghost predicate RoundWith(c: Crypto, s: seq<Block>, reply: Reply<Bytes>, r: Receiver, r': Receiver) {
    match reply
    case Send(hashes) => exists msgs ::
      Answers(c, s, hashes, msgs) && r' == DeliverAll(c, r, ChunkCount(|hashes|), msgs)
    case _ => r' == r
  }

  function AfterRounds(k: int, j: nat, n: int): int {
    if k + MAX_INV * j < n then k + MAX_INV * j else n
  }

  lemma {:induction false} RoundsReach(c: Crypto, sender: map<Bytes, Block>, s: seq<Block>, run: seq<Receiver>, k: int,
                                       j: nat)
    requires Linked(c, s) && Stored(c, sender, s) && j < |run| && HasPrefix(c, run[0], s, k)
    requires forall i :: 0 <= i < |run| - 1 ==> Round(c, s, run[i], run[i + 1])
    ensures HasPrefix(c, run[j], s, AfterRounds(k, j, |s|))
  {
    if j > 0 {
      RoundsReach(c, sender, s, run, k, j - 1);
      assert Round(c, s, run[j - 1], run[j - 1 + 1]);
      OneRound(c, sender, s, run[j - 1], run[j], AfterRounds(k, j - 1, |s|));
    }
  }

  /** Repeated rounds: after `j` of them the receiver holds min(k + 500 j, n) blocks, so it ends level. */
  lemma {:induction false} RoundsConverge(c: Crypto, sender: map<Bytes, Block>, s: seq<Block>, run: seq<Receiver>,
                                          k: int, j: nat)
    requires Linked(c, s) && Stored(c, sender, s) && j < |run| && HasPrefix(c, run[0], s, k)
    requires forall i :: 0 <= i < |run| - 1 ==> Round(c, s, run[i], run[i + 1])
    ensures HasPrefix(c, run[j], s, AfterRounds(k, j, |s|))
    ensures ChainTo(run[j].blocks, run[j].lastHash, s[..AfterRounds(k, j, |s|)])
    ensures k + MAX_INV * j >= |s|
            ==> run[j].lastHash == TipHash(c, s) && GetblocksReply(c, s, run[j].lastHash) == Silent
  {
    RoundsReach(c, sender, s, run, k, j);
    PrefixWalk(c, sender, s, run[j], AfterRounds(k, j, |s|));
  }

  lemma OneRound(c: Crypto, sender: map<Bytes, Block>, s: seq<Block>, r: Receiver, r': Receiver, k: int)
    requires Linked(c, s) && Stored(c, sender, s) && HasPrefix(c, r, s, k) && Round(c, s, r, r')
    ensures HasPrefix(c, r', s, Min(k + MAX_INV, |s|))
  {
    SenderReply(c, sender, s, r, k);
    if k < |s| {
      AnnouncedRound(c, sender, s, r, r', k, Min(k + MAX_INV, |s|));
    }
  }

  lemma AnnouncedRound(c: Crypto, sender: map<Bytes, Block>, s: seq<Block>, r: Receiver, r': Receiver, k: int, m: int)
    requires Linked(c, s) && Stored(c, sender, s) && HasPrefix(c, r, s, k) && k < m <= |s|
    requires RoundWith(c, s, Send(Hashes(c, s)[k..m]), r, r')
    ensures HasPrefix(c, r', s, m)
  {
    var hashes := Hashes(c, s)[k..m];
    var msgs :| Answers(c, s, hashes, msgs) && r' == DeliverAll(c, r, ChunkCount(|hashes|), msgs);
    RoundExtends(c, sender, s, r, k, m, msgs);
  }

  lemma PrefixWalk(c: Crypto, sender: map<Bytes, Block>, s: seq<Block>, r: Receiver, k: int)
    requires Linked(c, s) && Stored(c, sender, s) && HasPrefix(c, r, s, k)
    ensures ChainTo(r.blocks, r.lastHash, s[..k])
    ensures k == |s| ==> r.lastHash == TipHash(c, s) && GetblocksReply(c, s, r.lastHash) == Silent
  {
    PrefixEnds(c, s, r, k);
    SenderReply(c, sender, s, r, k);
    assert s[..|s|] == s;
  }

  // ---------- whoever asks ----------

  /** What the longer node sends after a getblocks between it and a shorter one that walks `short`: asked by the
      shorter, its answer; asking itself, its answer to the question that comes back. */
  ghost function SentToShorter(c: Crypto, s: seq<Block>, short: seq<Block>, longerAsks: bool): Reply<Bytes>
    requires s != [] && short != []
  {
    if !longerAsks then GetblocksReply(c, s, TipHash(c, short))
    else
      match GetblocksReply(c, short, TipHash(c, s))
      case AskBack(top) => GetblocksReply(c, s, top)
      case _ => Silent
  }

  /** To a node that walks a prefix of its chain the longer one sends the same, whoever asks: the next
      min(500, missing) hashes, or nothing when level. */
  lemma {:induction false} WhoeverAsks(c: Crypto, sender: map<Bytes, Block>, s: seq<Block>, k: int, longerAsks: bool)
    requires Linked(c, s) && Stored(c, sender, s) && 0 < k <= |s|
    ensures SentToShorter(c, s, s[..k], longerAsks)
            == if k == |s| then Silent else Send(Hashes(c, s)[k..Min(k + MAX_INV, |s|)])
  {
    var short := s[..k];
    HoldsPrefix(c, sender, s, k);
    SenderReply(c, sender, s, Receiver(sender, TipHash(c, short)), k);
    if longerAsks {
      if k == |s| {
        assert short == s;
      } else {
        LongerTipUnknown(c, sender, s, k);
      }
    }
  }

  lemma {:induction false} HoldsPrefix(c: Crypto, sender: map<Bytes, Block>, s: seq<Block>, k: int)
    requires Stored(c, sender, s) && 0 < k <= |s|
    ensures HasPrefix(c, Receiver(sender, TipHash(c, s[..k])), s, k)
  {
    forall x | 0 <= x < k
      ensures BlockHash(c, s[..k][x]) in sender && sender[BlockHash(c, s[..k][x])] == s[..k][x]
    {
      assert s[..k][x] == s[x];
    }
  }

  /** The shorter node does not know the longer one's tip, and asks back with its own. */
  lemma {:induction false} LongerTipUnknown(c: Crypto, sender: map<Bytes, Block>, s: seq<Block>, k: int)
    requires Linked(c, s) && Stored(c, sender, s) && 0 < k < |s|
    ensures GetblocksReply(c, s[..k], TipHash(c, s)) == AskBack(TipHash(c, s[..k]))
  {
    var hashes := Hashes(c, s[..k]);
    forall i | 0 <= i < k ensures hashes[i] != TipHash(c, s) {
      HashesDistinct(c, sender, s, i, |s| - 1);
    }
  }

  /** One exchange, whoever asks. */
  ghost predicate EitherRound(c: Crypto, s: seq<Block>, k: int, longerAsks: bool, r: Receiver, r': Receiver)
    requires 0 < k <= |s|
  {
    RoundWith(c, s, SentToShorter(c, s, s[..k], longerAsks), r, r')
  }

  /** So the shorter of two nodes gets level whichever of them asks in each round. */
  lemma {:induction false} EitherConverges(c: Crypto, sender: map<Bytes, Block>, s: seq<Block>, run: seq<Receiver>,
                                           longerAsks: seq<bool>, k: int, j: nat)
    requires Linked(c, s) && Stored(c, sender, s) && j < |run| == |longerAsks| + 1 && HasPrefix(c, run[0], s, k)
    requires forall i :: 0 <= i < |longerAsks| ==>
               EitherRound(c, s, AfterRounds(k, i, |s|), longerAsks[i], run[i], run[i + 1])
    ensures HasPrefix(c, run[j], s, AfterRounds(k, j, |s|))
    ensures ChainTo(run[j].blocks, run[j].lastHash, s[..AfterRounds(k, j, |s|)])
  {
    if j > 0 {
      var before := AfterRounds(k, j - 1, |s|);
      EitherConverges(c, sender, s, run, longerAsks, k, j - 1);
      assert EitherRound(c, s, before, longerAsks[j - 1], run[j - 1], run[j - 1 + 1]);
      WhoeverAsks(c, sender, s, before, longerAsks[j - 1]);
      SenderReply(c, sender, s, run[j - 1], before);
      OneRound(c, sender, s, run[j - 1], run[j], before);
    }
    PrefixEnds(c, s, run[j], AfterRounds(k, j, |s|));
  }

  /** The index rebuilt at the end of a round is the declarative index of the chain received. */
  lemma {:induction false} RoundIndex(c: Crypto, r: Receiver, s: seq<Block>, m: int, walked: seq<Block>, id: Bytes)
    requires Linked(c, s) && HasPrefix(c, r, s, m) && ChainSpec.ValidChain(s[..m])
    requires ChainTo(r.blocks, r.lastHash, walked)
    ensures UtxoSpec.Lookup(UtxoSpec.Rescan(ChainSpec.Backward(walked)), id)
            == UtxoSpec.Confirmed(ChainSpec.Forward(s[..m]), id)
  {
    LinkedPrefix(c, s, m);
    StoredChain(c, r.blocks, s[..m]);
    WalkUnique(r.blocks, r.lastHash, walked, s[..m]);
    ChainSpec.IndexesAgree(s[..m]);
  }

  // ---------- headers ----------

  datatype HeaderReceiver = HeaderReceiver(headers: map<Bytes, BlockHeader>, lastHash: Bytes)

  function PutHeaders(c: Crypto, headers: map<Bytes, BlockHeader>, list: seq<BlockHeader>): map<Bytes, BlockHeader> {
    if list == [] then headers
    else
      var h := list[|list| - 1];
      PutHeaders(c, headers, list[..|list| - 1])[c.headerHash(h) := h]
  }

  /** `handleHeadersMsg`. */
  function DeliverHeaders(c: Crypto, r: HeaderReceiver, list: seq<BlockHeader>): HeaderReceiver
    requires list != []
  {
    HeaderReceiver(PutHeaders(c, r.headers, list), c.headerHash(list[|list| - 1]))
  }

  ghost predicate HeadersStored(c: Crypto, headers: map<Bytes, BlockHeader>, chain: seq<Block>) {
    forall i :: 0 <= i < |chain|
      ==> BlockHash(c, chain[i]) in headers && headers[BlockHash(c, chain[i])] == chain[i].header
  }

  ghost predicate HasHeaderPrefix(c: Crypto, r: HeaderReceiver, s: seq<Block>, k: int) {
    0 < k <= |s| && HeadersStored(c, r.headers, s[..k]) && r.lastHash == TipHash(c, s[..k])
  }

  lemma {:induction false} StoredHeaderChain(c: Crypto, headers: map<Bytes, BlockHeader>, chain: seq<Block>)
    requires Linked(c, chain) && HeadersStored(c, headers, chain)
    ensures HeadersTo(headers, TipHash(c, chain), Headers(chain))
  {
    var n := |chain| - 1;
    assert headers[BlockHash(c, chain[n])] == chain[n].header;
    if n > 0 {
      StoredHeaderChain(c, headers, chain[..n]);
      assert Headers(chain)[..n] == Headers(chain[..n]);
    }
  }

  lemma {:induction false} PutHeadersStored(c: Crypto, headers: map<Bytes, BlockHeader>, s: seq<Block>, k: int, m: int)
    requires 0 <= k <= m <= |s| && HeadersStored(c, headers, s[..k])
    requires forall i :: 0 <= i < |s| ==> Seal(c, s[i]) == s[i]
    requires forall i, j :: 0 <= i < j < |s| ==> BlockHash(c, s[i]) != BlockHash(c, s[j])
    ensures HeadersStored(c, PutHeaders(c, headers, Headers(s)[k..m]), s[..m])
    decreases m
  {
    var list := Headers(s)[k..m];
    if k == m {
    } else {
      PutHeadersStored(c, headers, s, k, m - 1);
      assert list[..|list| - 1] == Headers(s)[k..m - 1];
      var before := PutHeaders(c, headers, Headers(s)[k..m - 1]);
      assert list[|list| - 1] == s[m - 1].header;
      forall i | 0 <= i < m
        ensures var after := before[BlockHash(c, s[m - 1]) := s[m - 1].header];
                BlockHash(c, s[i]) in after && after[BlockHash(c, s[i])] == s[i].header
      {
        if i < m - 1 {
          assert s[..m - 1][i] == s[i];
        }
      }
    }
  }

  /** What a full node answers to an SPV node that holds a prefix of its headers. */
  lemma {:induction false} HeaderReply(c: Crypto, sender: map<Bytes, Block>, s: seq<Block>, top: Bytes, k: int)
    requires Linked(c, s) && Stored(c, sender, s) && 0 < k <= |s| && top == TipHash(c, s[..k])
    ensures GetheadersReply(c, s, top) == if k == |s| then Silent else Send(Headers(s)[k..Min(k + MAX_HEADERS, |s|)])
  {
    AfterTip(c, sender, s, k);
    var hashes := Hashes(c, s);
    assert hashes[k - 1] == top;
    var rest := AfterTarget(Headers(s), hashes, top);
    assert rest == Headers(s)[k..];
    if k < |s| {
      assert rest[..Min(MAX_HEADERS, |rest|)] == Headers(s)[k..Min(k + MAX_HEADERS, |s|)];
    }
  }

  /** The next headers extend the prefix. */
  lemma HeadersArrive(c: Crypto, sender: map<Bytes, Block>, s: seq<Block>, r: HeaderReceiver, k: int, m: int)
    requires Linked(c, s) && Stored(c, sender, s) && HasHeaderPrefix(c, r, s, k) && k < m <= |s|
    ensures HasHeaderPrefix(c, DeliverHeaders(c, r, Headers(s)[k..m]), s, m)
  {
    var list := Headers(s)[k..m];
    ProperChain(c, sender, s);
    PutHeadersStored(c, r.headers, s, k, m);
    assert list[|list| - 1] == s[m - 1].header && Seal(c, s[m - 1]) == s[m - 1];
  }

  lemma HeaderPrefixWalk(c: Crypto, s: seq<Block>, r: HeaderReceiver, k: int)
    requires Linked(c, s) && HasHeaderPrefix(c, r, s, k)
    ensures HeadersTo(r.headers, r.lastHash, Headers(s[..k]))
  {
    LinkedPrefix(c, s, k);
    StoredHeaderChain(c, r.headers, s[..k]);
  }

  /** One getheaders exchange extends the SPV chain by the next headers, oldest first and correctly linked. */
  lemma {:induction false} HeaderRound(c: Crypto, sender: map<Bytes, Block>, s: seq<Block>, r: HeaderReceiver, k: int,
                                       r': HeaderReceiver)
    requires Linked(c, s) && Stored(c, sender, s) && HasHeaderPrefix(c, r, s, k) && HeaderExchange(c, s, r, r')
    ensures HasHeaderPrefix(c, r', s, Min(k + MAX_HEADERS, |s|))
    ensures HeadersTo(r'.headers, r'.lastHash, Headers(s[..Min(k + MAX_HEADERS, |s|)]))
  {
    HeaderReply(c, sender, s, r.lastHash, k);
    if k < |s| {
      HeadersArrive(c, sender, s, r, k, Min(k + MAX_HEADERS, |s|));
    }
    HeaderPrefixWalk(c, s, r', Min(k + MAX_HEADERS, |s|));
  }

  ghost predicate HeaderExchange(c: Crypto, s: seq<Block>, r: HeaderReceiver, r': HeaderReceiver)
    requires s != []
  {
    match GetheadersReply(c, s, r.lastHash)
    case Send(list) => list != [] && r' == DeliverHeaders(c, r, list)
    case _ => r' == r
  }

  /** Repetition converges, and then header walk and block walk count the same height. */
  lemma {:induction false} HeadersConverge(c: Crypto, sender: map<Bytes, Block>, s: seq<Block>,
                                           run: seq<HeaderReceiver>, k: int, j: nat)
    requires Linked(c, s) && Stored(c, sender, s) && j < |run| && HasHeaderPrefix(c, run[0], s, k)
    requires forall i :: 0 <= i < |run| - 1 ==> HeaderExchange(c, s, run[i], run[i + 1])
    ensures HasHeaderPrefix(c, run[j], s, Min(k + MAX_HEADERS * j, |s|))
    ensures k + MAX_HEADERS * j >= |s| ==>
              && HeadersTo(run[j].headers, run[j].lastHash, Headers(s))
              && ChainTo(sender, TipHash(c, s), s) && |Headers(s)| == |s|
  {
    if j > 0 {
      HeadersConverge(c, sender, s, run, k, j - 1);
      assert HeaderExchange(c, s, run[j - 1], run[j - 1 + 1]);
      HeaderRound(c, sender, s, run[j - 1], Min(k + MAX_HEADERS * (j - 1), |s|), run[j]);
    }
    HeaderPrefixWalk(c, s, run[j], Min(k + MAX_HEADERS * j, |s|));
    if k + MAX_HEADERS * j >= |s| {
      assert s[..|s|] == s;
      StoredChain(c, sender, s);
    }
  }
}
