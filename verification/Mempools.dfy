/** What the duplicate check of `handleNewTxnMsg` is for: a mempool without repeats, and relaying that ends. */
module Mempools {
  import opened Types
  import opened UtxoSpec
  import opened Admission
  import ChainSpec

  // ---------- one node ----------

  /** A newtxn message, and the index of the node at the moment it arrives. */
  datatype Delivery = Delivery(tx: Transaction, index: Index)

  function Verdicts(c: Crypto, pool: seq<Transaction>, d: Delivery): Verdict {
    Admit(c, d.index, pool, d.tx)
  }

  /** The mempool after a message, as `HandleNewTxn` leaves it. */
  function AfterDelivery(c: Crypto, pool: seq<Transaction>, d: Delivery): seq<Transaction> {
    if Verdicts(c, pool, d) == Accepted then pool + [d.tx] else pool
  }

  function AfterDeliveries(c: Crypto, pool: seq<Transaction>, run: seq<Delivery>): seq<Transaction> {
    if run == [] then pool else AfterDelivery(c, AfterDeliveries(c, pool, run[..|run| - 1]), run[|run| - 1])
  }

  /** A hash that is in the mempool is answered with nothing and changes nothing, whatever the index says. */
  lemma {:induction false} KnownIsDuplicate(c: Crypto, pool: seq<Transaction>, d: Delivery)
    requires d.tx.hash in IdsOf(pool)
    ensures Verdicts(c, pool, d) == Duplicate && AfterDelivery(c, pool, d) == pool
  {
  }

  lemma {:induction false} IdsAfter(c: Crypto, pool: seq<Transaction>, d: Delivery)
    ensures IdsOf(AfterDelivery(c, pool, d))
            == IdsOf(pool) + if Verdicts(c, pool, d) == Accepted then {d.tx.hash} else {}
    ensures Verdicts(c, pool, d) == Accepted ==> d.tx.hash !in IdsOf(pool)
  {
    if Verdicts(c, pool, d) == Accepted {
      ChainSpec.IdsOfConcat(pool, [d.tx]);
      assert [d.tx][0].hash in IdsOf([d.tx]);
      assert IdsOf([d.tx]) == {d.tx.hash};
    }
  }

  /** Over every sequence of messages, while blocks change the index in any way, the hashes in a mempool stay pairwise
      distinct, and entries stay where they are. */
  lemma {:induction false} MempoolDistinct(c: Crypto, pool: seq<Transaction>, run: seq<Delivery>)
    requires UniqueIds(pool)
    ensures UniqueIds(AfterDeliveries(c, pool, run)) && pool <= AfterDeliveries(c, pool, run)
  {
    if run != [] {
      var before, d := AfterDeliveries(c, pool, run[..|run| - 1]), run[|run| - 1];
      MempoolDistinct(c, pool, run[..|run| - 1]);
      IdsAfter(c, before, d);
      if Verdicts(c, before, d) == Accepted {
        forall j | 0 <= j < |before| ensures before[j].hash != d.tx.hash {
          assert before[j].hash in IdsOf(before);
        }
      }
    }
  }

  /** How often a hash is accepted, and so relayed, in a run. */
  function Relays(c: Crypto, pool: seq<Transaction>, run: seq<Delivery>, hash: Bytes): nat {
    if run == [] then 0
    else
      var d := run[|run| - 1];
      Relays(c, pool, run[..|run| - 1], hash)
      + if d.tx.hash == hash && Verdicts(c, AfterDeliveries(c, pool, run[..|run| - 1]), d) == Accepted then 1 else 0
  }

  /** A node relays each hash at most once, and never one that it has. */
  lemma {:induction false} RelayedOnce(c: Crypto, pool: seq<Transaction>, run: seq<Delivery>, hash: Bytes)
    ensures hash in IdsOf(pool) ==> Relays(c, pool, run, hash) == 0
    ensures Relays(c, pool, run, hash) <= 1
    ensures hash in IdsOf(AfterDeliveries(c, pool, run)) <==> hash in IdsOf(pool) || Relays(c, pool, run, hash) == 1
  {
    if run != [] {
      RelayedOnce(c, pool, run[..|run| - 1], hash);
      IdsAfter(c, AfterDeliveries(c, pool, run[..|run| - 1]), run[|run| - 1]);
    }
  }

  // ---------- the network ----------

  /** A newtxn message on its way to the node at a position. */
  datatype Packet = Packet(to: nat, tx: Transaction)

  /** The mempool of each node, and the messages in flight. */
  datatype TxNet = TxNet(pools: seq<seq<Transaction>>, flight: multiset<Packet>)

  /** To which nodes each node relays. */
  type Peers = seq<seq<nat>>

  ghost predicate WellFormed(peers: Peers, net: TxNet) {
    && |net.pools| == |peers|
    && (forall n, i :: 0 <= n < |peers| && 0 <= i < |peers[n]| ==> peers[n][i] < |peers|)
    && (forall p :: p in net.flight ==> p.to < |peers|)
  }

  function Copies(tx: Transaction, peers: seq<nat>): (packets: seq<Packet>)
    ensures |packets| == |peers|
  {
    seq(|peers|, i requires 0 <= i < |peers| => Packet(peers[i], tx))
  }

  /** A message arrives at its node, whose index is then `index`. */
  datatype Arrival = Arrival(packet: Packet, index: Index)

  ghost predicate CanArrive(peers: Peers, net: TxNet, e: Arrival) {
    WellFormed(peers, net) && e.packet in net.flight
  }

  ghost function Next(c: Crypto, peers: Peers, net: TxNet, e: Arrival): TxNet
    requires CanArrive(peers, net, e)
  {
    var n, d := e.packet.to, Delivery(e.packet.tx, e.index);
    TxNet(net.pools[n := AfterDelivery(c, net.pools[n], d)],
          net.flight - multiset{e.packet}
          + if Verdicts(c, net.pools[n], d) == Accepted then multiset(Copies(e.packet.tx, peers[n])) else multiset{})
  }

  ghost predicate Run(c: Crypto, peers: Peers, net: TxNet, run: seq<Arrival>)
    decreases |run|
  {
    run != [] ==> CanArrive(peers, net, run[0]) && Run(c, peers, Next(c, peers, net, run[0]), run[1..])
  }

  /** The hashes of all messages in flight are among these. */
  ghost predicate Within(hashes: set<Bytes>, net: TxNet) {
    forall p :: p in net.flight ==> p.tx.hash in hashes
  }

  lemma {:induction false} StaysWithin(c: Crypto, peers: Peers, hashes: set<Bytes>, net: TxNet, e: Arrival)
    requires CanArrive(peers, net, e) && Within(hashes, net)
    ensures WellFormed(peers, Next(c, peers, net, e)) && Within(hashes, Next(c, peers, net, e))
  {
    var tx, copies := e.packet.tx, Copies(e.packet.tx, peers[e.packet.to]);
    assert tx.hash in hashes;
    forall p | p in Next(c, peers, net, e).flight ensures p.to < |peers| && p.tx.hash in hashes {
      if p !in net.flight {
        assert p in multiset(copies) && p in copies;
        var i :| 0 <= i < |copies| && copies[i] == p;
      }
    }
  }

  /** The messages that nodes can still send: one to each peer for each hash that is not in their mempool. */
  function Room(hashes: set<Bytes>, pool: seq<Transaction>, peers: seq<nat>): nat {
    |peers| * |hashes - IdsOf(pool)|
  }

  function Rooms(hashes: set<Bytes>, pools: seq<seq<Transaction>>, peers: Peers): nat
    requires |pools| == |peers|
  {
    if pools == [] then 0
    else
      var n := |pools| - 1;
      Rooms(hashes, pools[..n], peers[..n]) + Room(hashes, pools[n], peers[n])
  }

  lemma {:induction false} RoomsUpdate(hashes: set<Bytes>, pools: seq<seq<Transaction>>, peers: Peers, n: nat,
                                       pool: seq<Transaction>)
    requires |pools| == |peers| && n < |pools|
    ensures Rooms(hashes, pools[n := pool], peers)
            == Rooms(hashes, pools, peers) - Room(hashes, pools[n], peers[n]) + Room(hashes, pool, peers[n])
  {
    var last := |pools| - 1;
    if n == last {
      assert pools[n := pool][..last] == pools[..last];
    } else {
      RoomsUpdate(hashes, pools[..last], peers[..last], n, pool);
      assert pools[n := pool][..last] == pools[..last][n := pool];
    }
  }

  lemma {:induction false} LessRoom(hashes: set<Bytes>, before: seq<Transaction>, after: seq<Transaction>,
                                    peers: seq<nat>, hash: Bytes)
    requires hash in hashes && hash !in IdsOf(before) && IdsOf(after) == IdsOf(before) + {hash}
    ensures Room(hashes, after, peers) == Room(hashes, before, peers) - |peers|
  {
    var left, then' := hashes - IdsOf(before), hashes - IdsOf(after);
    assert left == then' + {hash} && hash !in then';
    assert |left| == |then'| + 1;
    assert |peers| * |left| == |peers| * |then'| + |peers|;
  }

  ghost function Measure(hashes: set<Bytes>, peers: Peers, net: TxNet): nat
    requires |net.pools| == |peers|
  {
    |net.flight| + Rooms(hashes, net.pools, peers)
  }

  /** Each arrival uses up one message, sent or still to be sent. */
  lemma {:induction false} ArrivalCounts(c: Crypto, peers: Peers, hashes: set<Bytes>, net: TxNet, e: Arrival)
    requires CanArrive(peers, net, e) && Within(hashes, net)
    ensures |Next(c, peers, net, e).pools| == |peers|
    ensures Measure(hashes, peers, Next(c, peers, net, e)) == Measure(hashes, peers, net) - 1
  {
    var n, d := e.packet.to, Delivery(e.packet.tx, e.index);
    var before, after := net.pools[n], AfterDelivery(c, net.pools[n], d);
    IdsAfter(c, before, d);
    RoomsUpdate(hashes, net.pools, peers, n, after);
    if Verdicts(c, before, d) == Accepted {
      LessRoom(hashes, before, after, peers[n], d.tx.hash);
    }
  }

  /** Main theorem on newtxn messages: in every network, and however indexes change meanwhile, relaying ends.  A run has
      no more arrivals than messages at its start and, for each node, one message to each peer for each hash. */
  lemma {:induction false} RelayingEnds(c: Crypto, peers: Peers, hashes: set<Bytes>, net: TxNet, run: seq<Arrival>)
    requires WellFormed(peers, net) && Within(hashes, net) && Run(c, peers, net, run)
    ensures |run| <= Measure(hashes, peers, net)
    decreases |run|
  {
    if run != [] {
      StaysWithin(c, peers, hashes, net, run[0]);
      ArrivalCounts(c, peers, hashes, net, run[0]);
      RelayingEnds(c, peers, hashes, Next(c, peers, net, run[0]), run[1..]);
    }
  }
}
