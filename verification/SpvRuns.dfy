/** Runs of an SPV node in which headers and merkleblock messages of any origin arrive.  Nothing but transactions of the
    chain whose headers are stored gets into the index. */
module SpvRuns {
  import opened Types
  import opened UtxoSpec
  import opened SyncSpec
  import opened FullNodes
  import opened SpvNodes
  import SpvSpec
  import Merkle

  /** What arrives: a headers message, or a merkleblock message, which an honest node may have sent or anybody else. */
  datatype Event = Headers(list: seq<BlockHeader>) | Message(msg: MerkleBlock)

  datatype State = State(headers: map<Bytes, BlockHeader>, index: Index)

  /** `handleHeadersMsg` and `handleMerkleblockMsg`, as far as headers and index go. */
  ghost function Step(c: Crypto, monitored: seq<Address>, st: State, e: Event): State {
    match e
    case Headers(list) => st.(headers := PutHeaders(c, st.headers, list))
    case Message(msg) =>
      if Believed(c, st.headers, msg) then
        st.(index := Apply(st.index, SpvSpec.Filtered(c, msg.transaction, monitored)))
      else st
  }

  ghost function After(c: Crypto, monitored: seq<Address>, st: State, run: seq<Event>): State {
    if run == [] then st else Step(c, monitored, After(c, monitored, st, run[..|run| - 1]), run[|run| - 1])
  }

  // ---------- headers of a chain ----------

  /** Every stored header is that of a block of the chain, under its hash. */
  ghost predicate HeadersOf(c: Crypto, s: seq<Block>, headers: map<Bytes, BlockHeader>) {
    forall h :: h in headers ==> exists b :: 0 <= b < |s| && headers[h] == s[b].header && h == c.headerHash(s[b].header)
  }

  ghost predicate RightRoots(c: Crypto, s: seq<Block>) {
    forall b :: 0 <= b < |s| ==>
      s[b].transactions != [] && s[b].header.merkleRoot == Merkle.Root(c, s[b].transactions)
  }

  /** What is hashed to check the message against a block of the chain. */
  ghost function HashedFor(c: Crypto, block: Block, msg: MerkleBlock): set<Preimage> {
    Merkle.BlockPreimages(c, block.transactions) + {Leaf(msg.transaction)}
    + Merkle.FoldPreimages(c, c.digest(Leaf(msg.transaction)), msg.merklePath)
  }

  /** Neither the header of the message nor what its proof hashes collides with what was hashed for the chain. */
  ghost predicate NoCollision(c: Crypto, s: seq<Block>, msg: MerkleBlock) {
    forall b :: 0 <= b < |s| ==>
      && (c.headerHash(msg.header) == c.headerHash(s[b].header) ==> msg.header == s[b].header)
      && Merkle.CollisionFree(c, HashedFor(c, s[b], msg))
  }

  ghost predicate OnChain(s: seq<Block>, tx: Transaction) {
    exists b :: 0 <= b < |s| && tx in s[b].transactions
  }

  /** A message under a header that is not stored is refused, whatever its proof says: a made-up header whose root is
      the digest of a made-up transaction is of no use. */
  lemma {:induction false} UnknownRefused(c: Crypto, monitored: seq<Address>, st: State, msg: MerkleBlock)
    requires c.headerHash(msg.header) !in st.headers
    ensures !Believed(c, st.headers, msg) && Step(c, monitored, st, Message(msg)) == st
  {
  }

  /** What is believed is in the chain. */
  lemma {:induction false} BelievedOnChain(c: Crypto, s: seq<Block>, headers: map<Bytes, BlockHeader>, msg: MerkleBlock)
    requires HeadersOf(c, s, headers) && RightRoots(c, s) && NoCollision(c, s, msg) && Believed(c, headers, msg)
    ensures OnChain(s, msg.transaction)
  {
    var h := c.headerHash(msg.header);
    var b :| 0 <= b < |s| && headers[h] == s[b].header && h == c.headerHash(s[b].header);
    assert msg.header == s[b].header;
    Merkle.Soundness(c, s[b].transactions, msg.transaction, msg.merklePath);
  }

  /** A message about a transaction that no block of the chain holds leaves the node as it is. */
  lemma {:induction false} ForgedIgnored(c: Crypto, monitored: seq<Address>, s: seq<Block>, st: State, msg: MerkleBlock)
    requires HeadersOf(c, s, st.headers) && RightRoots(c, s) && NoCollision(c, s, msg) && !OnChain(s, msg.transaction)
    ensures Step(c, monitored, st, Message(msg)) == st
  {
    if Believed(c, st.headers, msg) {
      BelievedOnChain(c, s, st.headers, msg);
    }
  }

  // ---------- runs ----------

  /** At every moment of the run the stored headers are those of the chain, and no message collides. */
  ghost predicate HeadersStayOf(c: Crypto, monitored: seq<Address>, s: seq<Block>, st: State, run: seq<Event>) {
    && (forall n :: 0 <= n <= |run| ==> HeadersOf(c, s, After(c, monitored, st, run[..n]).headers))
    && forall i :: 0 <= i < |run| && run[i].Message? ==> NoCollision(c, s, run[i].msg)
  }

  /** The transactions that the run enters, in order. */
  ghost function Entered(c: Crypto, monitored: seq<Address>, st: State, run: seq<Event>): seq<Transaction> {
    if run == [] then []
    else
      var front, e := run[..|run| - 1], run[|run| - 1];
      Entered(c, monitored, st, front)
      + if e.Message? && Believed(c, After(c, monitored, st, front).headers, e.msg) then [e.msg.transaction] else []
  }

  function EnterAll(c: Crypto, monitored: seq<Address>, index: Index, txs: seq<Transaction>): Index {
    if txs == [] then index
    else
      Apply(EnterAll(c, monitored, index, txs[..|txs| - 1]), SpvSpec.Filtered(c, txs[|txs| - 1], monitored))
  }

  lemma {:induction false} HeadersStayFront(c: Crypto, monitored: seq<Address>, s: seq<Block>, st: State,
                                            run: seq<Event>)
    requires run != [] && HeadersStayOf(c, monitored, s, st, run)
    ensures HeadersStayOf(c, monitored, s, st, run[..|run| - 1])
    ensures HeadersOf(c, s, After(c, monitored, st, run[..|run| - 1]).headers)
  {
    var front := run[..|run| - 1];
    forall n | 0 <= n <= |front| ensures HeadersOf(c, s, After(c, monitored, st, front[..n]).headers) {
      assert front[..n] == run[..n];
    }
  }

  /** Main theorem on an SPV node among strangers: over every run of headers and merkleblock messages of any origin, as
      long as the stored headers are those of a chain with right roots and no hashed value collides, the index is what
      entering transactions of that chain makes it, their foreign inputs left out, and nothing else. */
  lemma {:induction false} OnlyChainEntered(c: Crypto, monitored: seq<Address>, s: seq<Block>, st: State,
                                            run: seq<Event>)
    requires RightRoots(c, s) && HeadersStayOf(c, monitored, s, st, run)
    ensures var txs := Entered(c, monitored, st, run);
            && After(c, monitored, st, run).index == EnterAll(c, monitored, st.index, txs)
            && forall k :: 0 <= k < |txs| ==> OnChain(s, txs[k])
  {
    if run != [] {
      var front, e := run[..|run| - 1], run[|run| - 1];
      var before := Entered(c, monitored, st, front);
      HeadersStayFront(c, monitored, s, st, run);
      OnlyChainEntered(c, monitored, s, st, front);
      if e.Message? && Believed(c, After(c, monitored, st, front).headers, e.msg) {
        assert run[|run| - 1].Message? && NoCollision(c, s, run[|run| - 1].msg);
        BelievedOnChain(c, s, After(c, monitored, st, front).headers, e.msg);
        EnterOne(c, monitored, st.index, before, e.msg.transaction);
      } else {
        assert before + [] == before;
      }
    }
  }

  lemma {:induction false} EnterOne(c: Crypto, monitored: seq<Address>, index: Index, txs: seq<Transaction>,
                                    tx: Transaction)
    ensures EnterAll(c, monitored, index, txs + [tx])
            == Apply(EnterAll(c, monitored, index, txs), SpvSpec.Filtered(c, tx, monitored))
  {
    assert (txs + [tx])[..|txs|] == txs;
  }

  /** The output stands at that position of a transaction of the chain with this hash. */
  ghost predicate OutputOnChain(s: seq<Block>, id: Bytes, e: IndexedOutput) {
    exists b, p :: 0 <= b < |s| && 0 <= p < |s[b].transactions| && s[b].transactions[p].hash == id
                   && 0 <= e.index < |s[b].transactions[p].outputs| && s[b].transactions[p].outputs[e.index] == e.output
  }

  lemma {:induction false} EnteredOutputs(c: Crypto, monitored: seq<Address>, s: seq<Block>, txs: seq<Transaction>,
                                          id: Bytes, e: IndexedOutput)
    requires forall k :: 0 <= k < |txs| ==> OnChain(s, txs[k])
    requires e in Lookup(EnterAll(c, monitored, map[], txs), id)
    ensures OutputOnChain(s, id, e)
  {
    if txs != [] {
      var front, tx := txs[..|txs| - 1], txs[|txs| - 1];
      var kept, before := SpvSpec.Filtered(c, tx, monitored), EnterAll(c, monitored, map[], front);
      ApplyLookup(before, kept, id);
      if id == tx.hash && SpentBy(kept.inputs, id) == {} {
        UnspentMember(tx.outputs, {}, e);
        assert OnChain(s, tx);
        var b :| 0 <= b < |s| && tx in s[b].transactions;
        var p :| 0 <= p < |s[b].transactions| && s[b].transactions[p] == tx;
      } else {
        WithoutMember(Lookup(before, id), SpentBy(kept.inputs, id), e);
        assert forall k :: 0 <= k < |front| ==> front[k] == txs[k];
        EnteredOutputs(c, monitored, s, front, id, e);
      }
    }
  }

  /** So an SPV node that starts with an empty index never holds an output that its chain did not create, whoever talks
      to it. */
  lemma {:induction false} NoForgedOutput(c: Crypto, monitored: seq<Address>, s: seq<Block>,
                                          headers: map<Bytes, BlockHeader>,
                                          run: seq<Event>, id: Bytes, e: IndexedOutput)
    requires RightRoots(c, s) && HeadersStayOf(c, monitored, s, State(headers, map[]), run)
    requires e in Lookup(After(c, monitored, State(headers, map[]), run).index, id)
    ensures OutputOnChain(s, id, e)
  {
    OnlyChainEntered(c, monitored, s, State(headers, map[]), run);
    EnteredOutputs(c, monitored, s, Entered(c, monitored, State(headers, map[]), run), id, e);
  }
}
