/** Rounds in which some requests are not answered.  The workers hand requests to every connected peer, SPV nodes
    included, and those never answer. */
module RoundGaps {
  import opened Types
  import opened ChainStore
  import opened SyncSpec

  /** Answers to some of the requests for `hashes`, from peers that hold the chain. */
  ghost predicate SomeAnswers(c: Crypto, s: seq<Block>, hashes: seq<Bytes>, msgs: seq<Blockdata>) {
    forall j :: 0 <= j < |msgs| ==> AnswersOne(c, s, hashes, msgs[j])
  }

  /** A receiver that holds the first `k` blocks of the sender's chain and none of the `m - k` next ones, which have
      been announced to it. */
  ghost predicate Behind(c: Crypto, sender: map<Bytes, Block>, s: seq<Block>, r: Receiver, k: int, m: int) {
    && Linked(c, s) && Stored(c, sender, s) && HasPrefix(c, r, s, k) && k < m <= |s|
    && forall x :: k <= x < m ==> BlockHash(c, s[x]) !in r.blocks
  }

  ghost function AfterRound(c: Crypto, r: Receiver, k: int, m: int, msgs: seq<Blockdata>): Receiver
    requires k <= m
  {
    DeliverAll(c, r, ChunkCount(m - k), msgs)
  }

  // ---------- what arrives ----------

  ghost predicate HashesApart(c: Crypto, s: seq<Block>) {
    forall i, j :: 0 <= i < j < |s| ==> BlockHash(c, s[i]) != BlockHash(c, s[j])
  }

  /** The request by which the block at position `x` is asked for. */
  function RequestFor(k: int, x: int): int {
    (x - k) / MAX_BLOCKS_IN_TRANSIT_PER_PEER
  }

  lemma {:induction false} ArrivedWasAnswered(c: Crypto, s: seq<Block>, k: int, m: int, msgs: seq<Blockdata>, x: int)
    requires 0 <= k <= x < m <= |s| && SomeAnswers(c, s, Hashes(c, s)[k..m], msgs) && HashesApart(c, s)
    requires s[x] in Flatten(Lists(msgs))
    ensures Answered(msgs, RequestFor(k, x))
  {
    FlattenMember(Lists(msgs), s[x]);
    var j :| 0 <= j < |msgs| && s[x] in Lists(msgs)[j];
    assert AnswersOne(c, s, Hashes(c, s)[k..m], msgs[j]);
    ListedOnce(c, s, k, m, msgs[j], x);
  }

  lemma {:induction false} AnsweredArrives(c: Crypto, s: seq<Block>, k: int, m: int, msgs: seq<Blockdata>, x: int)
    requires 0 <= k <= x < m <= |s| && SomeAnswers(c, s, Hashes(c, s)[k..m], msgs)
    requires Answered(msgs, RequestFor(k, x))
    ensures s[x] in Flatten(Lists(msgs))
  {
    var j :| 0 <= j < |msgs| && msgs[j].index == RequestFor(k, x);
    assert AnswersOne(c, s, Hashes(c, s)[k..m], msgs[j]);
    AnswerHolds(c, s, k, m, msgs[j], x - k);
    FlattenMember(Lists(msgs), s[x]);
    assert s[x] in Lists(msgs)[j];
  }

  /** A block arrives exactly if the request for it is answered. */
  lemma {:induction false} ArrivesIff(c: Crypto, s: seq<Block>, k: int, m: int, msgs: seq<Blockdata>, x: int)
    requires 0 <= k <= x < m <= |s| && SomeAnswers(c, s, Hashes(c, s)[k..m], msgs) && HashesApart(c, s)
    ensures s[x] in Flatten(Lists(msgs)) <==> Answered(msgs, RequestFor(k, x))
  {
    if s[x] in Flatten(Lists(msgs)) {
      ArrivedWasAnswered(c, s, k, m, msgs, x);
    }
    if Answered(msgs, RequestFor(k, x)) {
      AnsweredArrives(c, s, k, m, msgs, x);
    }
  }

  /** A block of the chain is in the answer to its own request only. */
  lemma {:induction false} ListedOnce(c: Crypto, s: seq<Block>, k: int, m: int, msg: Blockdata, x: int)
    requires 0 <= k <= x < m <= |s| && AnswersOne(c, s, Hashes(c, s)[k..m], msg) && s[x] in msg.blockList
    requires HashesApart(c, s)
    ensures msg.index == RequestFor(k, x)
  {
    AnswerBlocks(c, s, k, m, msg);
    var lo := k + MAX_BLOCKS_IN_TRANSIT_PER_PEER * msg.index;
    var y :| 0 <= y < |msg.blockList| && msg.blockList[y] == s[x];
    assert s[lo + y] == s[x];
    assert lo + y == x;
  }

  lemma {:induction false} AnsweredFrom(c: Crypto, s: seq<Block>, k: int, m: int, msg: Blockdata, b: Block)
    requires 0 <= k <= m <= |s| && AnswersOne(c, s, Hashes(c, s)[k..m], msg) && b in msg.blockList
    ensures exists x :: k <= x < m && s[x] == b
  {
    AnswerBlocks(c, s, k, m, msg);
    var y :| 0 <= y < |msg.blockList| && msg.blockList[y] == b;
    assert s[k + MAX_BLOCKS_IN_TRANSIT_PER_PEER * msg.index + y] == b;
  }

  /** Only blocks announced arrive. */
  lemma {:induction false} ArrivedFrom(c: Crypto, s: seq<Block>, k: int, m: int, msgs: seq<Blockdata>, b: Block)
    requires 0 <= k <= m <= |s| && SomeAnswers(c, s, Hashes(c, s)[k..m], msgs) && b in Flatten(Lists(msgs))
    ensures exists x :: k <= x < m && s[x] == b
  {
    FlattenMember(Lists(msgs), b);
    var j :| 0 <= j < |msgs| && b in Lists(msgs)[j];
    assert AnswersOne(c, s, Hashes(c, s)[k..m], msgs[j]);
    AnsweredFrom(c, s, k, m, msgs[j], b);
  }

  lemma {:induction false} StoredAfter(c: Crypto, sender: map<Bytes, Block>, s: seq<Block>, r: Receiver, k: int, m: int,
                                       msgs: seq<Blockdata>, x: int)
    requires Behind(c, sender, s, r, k, m) && SomeAnswers(c, s, Hashes(c, s)[k..m], msgs) && k <= x < m
    ensures var blocks := AfterRound(c, r, k, m, msgs).blocks;
            if Answered(msgs, RequestFor(k, x))
            then BlockHash(c, s[x]) in blocks && blocks[BlockHash(c, s[x])] == s[x]
            else BlockHash(c, s[x]) !in blocks
  {
    var list := Flatten(Lists(msgs));
    ProperChain(c, sender, s);
    DeliverAllBlocks(c, r, ChunkCount(m - k), msgs);
    assert HashesApart(c, s);
    ArrivesIff(c, s, k, m, msgs, x);
    forall b | b in list ensures b in s {
      ArrivedFrom(c, s, k, m, msgs, b);
    }
    if s[x] in list {
      PutBlocksListed(c, r.blocks, list, s, s[x]);
    } else {
      forall b | b in list ensures BlockHash(c, b) != BlockHash(c, s[x]) {
        ArrivedFrom(c, s, k, m, msgs, b);
      }
      PutBlocksOther(c, r.blocks, list, BlockHash(c, s[x]));
    }
  }

  /** What the receiver had stays. */
  lemma {:induction false} KeptAfter(c: Crypto, sender: map<Bytes, Block>, s: seq<Block>, r: Receiver, k: int, m: int,
                                     msgs: seq<Blockdata>, x: int)
    requires Behind(c, sender, s, r, k, m) && SomeAnswers(c, s, Hashes(c, s)[k..m], msgs) && 0 <= x < k
    ensures var blocks := AfterRound(c, r, k, m, msgs).blocks;
            BlockHash(c, s[x]) in blocks && blocks[BlockHash(c, s[x])] == s[x]
  {
    var list := Flatten(Lists(msgs));
    ProperChain(c, sender, s);
    DeliverAllBlocks(c, r, ChunkCount(m - k), msgs);
    assert s[..k][x] == s[x];
    forall b | b in list ensures BlockHash(c, b) != BlockHash(c, s[x]) {
      ArrivedFrom(c, s, k, m, msgs, b);
    }
    PutBlocksOther(c, r.blocks, list, BlockHash(c, s[x]));
  }

  // ---------- where the walk ends ----------

  /** When the last request is not answered the tip stays, and with it the chain walked: the blocks that came are of no
      use yet, and the next round asks for all of them again. */
  lemma {:induction false} LastMissing(c: Crypto, sender: map<Bytes, Block>, s: seq<Block>, r: Receiver, k: int, m: int,
                                       msgs: seq<Blockdata>)
    requires Behind(c, sender, s, r, k, m) && SomeAnswers(c, s, Hashes(c, s)[k..m], msgs)
    requires !Answered(msgs, ChunkCount(m - k) - 1)
    ensures HasPrefix(c, AfterRound(c, r, k, m, msgs), s, k)
    ensures ChainTo(AfterRound(c, r, k, m, msgs).blocks, AfterRound(c, r, k, m, msgs).lastHash, s[..k])
  {
    var r' := AfterRound(c, r, k, m, msgs);
    TipMoves(c, sender, s, r, k, m, msgs);
    forall x | 0 <= x < k
      ensures BlockHash(c, s[..k][x]) in r'.blocks && r'.blocks[BlockHash(c, s[..k][x])] == s[..k][x]
    {
      KeptAfter(c, sender, s, r, k, m, msgs, x);
    }
    assert Stored(c, r'.blocks, s[..k]);
    PrefixEnds(c, s, r', k);
  }

  /** A walk down to a missing block. */
  lemma {:induction false} WalkToGap(c: Crypto, blocks: map<Bytes, Block>, s: seq<Block>, lo: int, hi: int)
    requires Linked(c, s) && 1 <= lo <= hi <= |s| && BlockHash(c, s[lo - 1]) !in blocks
    requires forall x :: lo <= x < hi ==> BlockHash(c, s[x]) in blocks && blocks[BlockHash(c, s[x])] == s[x]
    ensures ChainTo(blocks, BlockHash(c, s[hi - 1]), [ZERO_BLOCK] + s[lo..hi])
  {
    var chain := [ZERO_BLOCK] + s[lo..hi];
    if lo < hi {
      WalkToGap(c, blocks, s, lo, hi - 1);
      assert chain[..|chain| - 1] == [ZERO_BLOCK] + s[lo..hi - 1];
    } else {
      assert chain == [ZERO_BLOCK];
    }
  }

  /** The last request that is not answered. */
  ghost predicate LastGap(msgs: seq<Blockdata>, count: int, g: int) {
    0 <= g < count && !Answered(msgs, g) && forall i :: g < i < count ==> Answered(msgs, i)
  }

  /** When the last request is answered and another is not, the tip moves beyond a hole: the walk, and with it the next
      rebuild of the index, sees a zero block and what comes after the last hole only. */
  lemma {:induction false} GapBehindTip(c: Crypto, sender: map<Bytes, Block>, s: seq<Block>, r: Receiver, k: int,
                                        m: int,
                                        msgs: seq<Blockdata>, g: int)
    requires Behind(c, sender, s, r, k, m) && SomeAnswers(c, s, Hashes(c, s)[k..m], msgs)
    requires Answered(msgs, ChunkCount(m - k) - 1) && LastGap(msgs, ChunkCount(m - k), g)
    ensures var r', lo := AfterRound(c, r, k, m, msgs), k + MAX_BLOCKS_IN_TRANSIT_PER_PEER * (g + 1);
            && lo < m && r'.lastHash == TipHash(c, s[..m])
            && ChainTo(r'.blocks, r'.lastHash, [ZERO_BLOCK] + s[lo..m])
  {
    var blocks, lo := AfterRound(c, r, k, m, msgs).blocks, k + MAX_BLOCKS_IN_TRANSIT_PER_PEER * (g + 1);
    TipMoves(c, sender, s, r, k, m, msgs);
    assert g < ChunkCount(m - k) - 1;
    assert RequestFor(k, lo - 1) == g && lo < m;
    StoredAfter(c, sender, s, r, k, m, msgs, lo - 1);
    forall x | lo <= x < m ensures BlockHash(c, s[x]) in blocks && blocks[BlockHash(c, s[x])] == s[x] {
      assert g < RequestFor(k, x) < ChunkCount(m - k);
      StoredAfter(c, sender, s, r, k, m, msgs, x);
    }
    WalkToGap(c, blocks, s, lo, m);
  }

  /** The answer to the last request moves the tip, whatever else is missing. */
  lemma {:induction false} TipMoves(c: Crypto, sender: map<Bytes, Block>, s: seq<Block>, r: Receiver, k: int, m: int,
                                    msgs: seq<Blockdata>)
    requires Behind(c, sender, s, r, k, m) && SomeAnswers(c, s, Hashes(c, s)[k..m], msgs)
    ensures AfterRound(c, r, k, m, msgs).lastHash
            == if Answered(msgs, ChunkCount(m - k) - 1) then TipHash(c, s[..m]) else r.lastHash
    ensures TipHash(c, s[..m]) == BlockHash(c, s[m - 1])
  {
    TipAfter(c, r, s, k, m, msgs);
    assert s[..m][m - 1] == s[m - 1];
  }

  lemma {:induction false} FindLastGap(msgs: seq<Blockdata>, count: int) returns (g: int)
    requires exists i :: 0 <= i < count && !Answered(msgs, i)
    ensures LastGap(msgs, count, g)
    decreases count
  {
    g := count - 1;
    if Answered(msgs, g) {
      g := FindLastGap(msgs, g);
    }
  }

  /** Main theorem on incomplete rounds: the receiver walks the chain announced to it exactly if every request was
      answered. */
  lemma {:induction false} RoundCompleteIff(c: Crypto, sender: map<Bytes, Block>, s: seq<Block>, r: Receiver, k: int,
                                            m: int, msgs: seq<Blockdata>)
    requires Behind(c, sender, s, r, k, m) && SomeAnswers(c, s, Hashes(c, s)[k..m], msgs)
    ensures var r' := AfterRound(c, r, k, m, msgs);
            ChainTo(r'.blocks, r'.lastHash, s[..m])
            <==> forall i :: 0 <= i < ChunkCount(m - k) ==> Answered(msgs, i)
  {
    var r', count := AfterRound(c, r, k, m, msgs), ChunkCount(m - k);
    if forall i :: 0 <= i < count ==> Answered(msgs, i) {
      RoundExtends(c, sender, s, r, k, m, msgs);
    } else if Answered(msgs, count - 1) {
      var g := FindLastGap(msgs, count);
      GapBehindTip(c, sender, s, r, k, m, msgs, g);
      OtherWalk(r'.blocks, r'.lastHash, s[..m], [ZERO_BLOCK] + s[k + MAX_BLOCKS_IN_TRANSIT_PER_PEER * (g + 1)..m]);
    } else {
      LastMissing(c, sender, s, r, k, m, msgs);
      OtherWalk(r'.blocks, r'.lastHash, s[..m], s[..k]);
    }
  }

  /** A walk along a chain of another length. */
  lemma {:induction false} OtherWalk(blocks: map<Bytes, Block>, tip: Bytes, a: seq<Block>, b: seq<Block>)
    requires ChainTo(blocks, tip, b) && |a| != |b|
    ensures !ChainTo(blocks, tip, a)
  {
    if ChainTo(blocks, tip, a) {
      WalkUnique(blocks, tip, a, b);
    }
  }

  /** A hole behind the tip is not filled: the sender's next answer begins after the tip. */
  lemma {:induction false} GapStays(c: Crypto, sender: map<Bytes, Block>, s: seq<Block>, r: Receiver, k: int, m: int,
                                    msgs: seq<Blockdata>)
    requires Behind(c, sender, s, r, k, m) && SomeAnswers(c, s, Hashes(c, s)[k..m], msgs)
    requires Answered(msgs, ChunkCount(m - k) - 1)
    ensures GetblocksReply(c, s, AfterRound(c, r, k, m, msgs).lastHash)
            == if m == |s| then Silent else Send(Hashes(c, s)[m..Min(m + MAX_INV, |s|)])
  {
    TipMoves(c, sender, s, r, k, m, msgs);
    HoldsPrefix(c, sender, s, m);
    SenderReply(c, sender, s, Receiver(sender, TipHash(c, s[..m])), m);
  }
}
