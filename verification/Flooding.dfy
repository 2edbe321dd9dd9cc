/** Relaying without a memory: each node passes a message on to its peers every time it arrives.  When that stops. */
module Flooding {
  import opened Types

  /** To whom each node passes a message on: `Select(connectedPeers, {FULLNODE})` in `FullNode.HandleBlockdata`, and
      `Select(connectedPeers, {SPV})` in `SPVNode.HandleMerkleblock`. */
  type Links = map<Address, seq<Address>>

  /** Messages are passed on within the network only. */
  ghost predicate WellLinked(links: Links) {
    forall a, i :: a in links && 0 <= i < |links[a]| ==> links[a][i] in links
  }

  ghost predicate Within(links: Links, flight: multiset<Address>) {
    forall a :: a in flight ==> a in links
  }

  function Relay(links: Links, flight: multiset<Address>, at: Address): multiset<Address>
    requires at in links
  {
    flight - multiset{at} + multiset(links[at])
  }

  /** The deliveries are possible one after the other. */
  ghost predicate RelayRun(links: Links, flight: multiset<Address>, run: seq<Address>)
    decreases |run|
  {
    run != [] ==> run[0] in flight && run[0] in links && RelayRun(links, Relay(links, flight, run[0]), run[1..])
  }

  ghost function AfterRelays(links: Links, flight: multiset<Address>, run: seq<Address>): multiset<Address>
    requires RelayRun(links, flight, run)
    decreases |run|
  {
    if run == [] then flight else AfterRelays(links, Relay(links, flight, run[0]), run[1..])
  }

  lemma {:induction false} RelayKeeps(links: Links, flight: multiset<Address>, at: Address)
    requires WellLinked(links) && Within(links, flight) && at in flight
    ensures Within(links, Relay(links, flight, at))
  {
    forall a | a in Relay(links, flight, at) ensures a in links {
      assert a in flight || a in links[at];
    }
  }

  // ---------- copies that stay alive ----------

  ghost predicate HasPeerIn(links: Links, nodes: set<Address>, a: Address) {
    a in links && exists i :: 0 <= i < |links[a]| && links[a][i] in nodes
  }

  /** Each of these nodes has a peer among them. */
  ghost predicate Alive(links: Links, nodes: set<Address>) {
    forall a {:trigger HasPeerIn(links, nodes, a)} :: a in nodes ==> HasPeerIn(links, nodes, a)
  }

  ghost predicate Met(nodes: set<Address>, flight: multiset<Address>) {
    exists a :: a in nodes && a in flight
  }

  lemma {:induction false} StaysAlive(links: Links, nodes: set<Address>, flight: multiset<Address>, at: Address)
    requires Alive(links, nodes) && Met(nodes, flight) && at in flight && at in links
    ensures Met(nodes, Relay(links, flight, at))
  {
    if at in nodes {
      assert HasPeerIn(links, nodes, at);
      var i :| 0 <= i < |links[at]| && links[at][i] in nodes;
      assert links[at][i] in multiset(links[at]);
      assert links[at][i] in Relay(links, flight, at);
    } else {
      var a :| a in nodes && a in flight;
      assert a in flight - multiset{at};
    }
  }

  /** Whatever has been delivered, some copy is still on its way to one of the nodes. */
  lemma {:induction false} NeverEnds(links: Links, nodes: set<Address>, flight: multiset<Address>, run: seq<Address>)
    requires Alive(links, nodes) && Met(nodes, flight) && RelayRun(links, flight, run)
    ensures Met(nodes, AfterRelays(links, flight, run))
    decreases |run|
  {
    if run != [] {
      StaysAlive(links, nodes, flight, run[0]);
      NeverEnds(links, nodes, Relay(links, flight, run[0]), run[1..]);
    }
  }

  lemma {:induction false} LongRun(links: Links, nodes: set<Address>, flight: multiset<Address>, n: nat)
      returns (run: seq<Address>)
    requires Alive(links, nodes) && Met(nodes, flight)
    ensures |run| == n && RelayRun(links, flight, run)
    decreases n
  {
    run := [];
    if n > 0 {
      var at :| at in nodes && at in flight;
      assert HasPeerIn(links, nodes, at);
      StaysAlive(links, nodes, flight, at);
      var rest := LongRun(links, nodes, Relay(links, flight, at), n - 1);
      run := [at] + rest;
      assert run[1..] == rest;
    }
  }

  // ---------- copies that die out ----------

  /** The nodes from which no message is passed on `n` times in a row. */
  function Dead(links: Links, n: nat): set<Address> {
    if n == 0 then {} else set a | a in links && forall i :: 0 <= i < |links[a]| ==> links[a][i] in Dead(links, n - 1)
  }

  lemma {:induction false} DeadGrows(links: Links, n: nat)
    ensures Dead(links, n) <= Dead(links, n + 1) <= links.Keys
  {
    if n > 0 {
      DeadGrows(links, n - 1);
    }
  }

  lemma {:induction false} DeadStable(links: Links, n: nat, k: nat)
    requires n <= k && Dead(links, n) == Dead(links, n + 1)
    ensures Dead(links, k) == Dead(links, n)
  {
    if n < k {
      DeadStable(links, n, k - 1);
    }
  }

  /** As long as the sets grow they hold a node more at each step. */
  lemma {:induction false} DeadCount(links: Links, n: nat)
    requires Dead(links, n) != Dead(links, n + 1)
    ensures |Dead(links, n + 1)| > n
  {
    DeadGrows(links, n);
    if n > 0 {
      assert Dead(links, n - 1) != Dead(links, n);
      DeadCount(links, n - 1);
    }
    Larger(Dead(links, n), Dead(links, n + 1));
  }

  lemma {:induction false} Larger(a: set<Address>, b: set<Address>)
    requires a <= b && a != b
    ensures |a| < |b|
  {
    var x :| x in b && x !in a;
    assert a <= b - {x};
    Size(a, b - {x});
  }

  lemma {:induction false} Size(a: set<Address>, b: set<Address>)
    requires a <= b
    ensures |a| <= |b|
  {
    if a != {} {
      var x :| x in a;
      Size(a - {x}, b - {x});
    }
  }

  /** After as many steps as there are nodes nothing is added any more. */
  lemma {:induction false} DeadFinal(links: Links, n: nat)
    ensures Dead(links, n) <= Dead(links, |links|) == Dead(links, |links| + 1)
  {
    var last := |links|;
    if Dead(links, last) != Dead(links, last + 1) {
      DeadCount(links, last);
      DeadGrows(links, last);
      Size(Dead(links, last + 1), links.Keys);
    }
    if n <= last {
      DeadChain(links, n, last);
    } else {
      DeadStable(links, last, n);
    }
  }

  lemma {:induction false} DeadChain(links: Links, n: nat, k: nat)
    requires n <= k
    ensures Dead(links, n) <= Dead(links, k)
  {
    if n < k {
      DeadChain(links, n, k - 1);
      DeadGrows(links, k - 1);
    }
  }

  /** The others keep copies alive. */
  lemma {:induction false} OthersAlive(links: Links)
    requires WellLinked(links)
    ensures Alive(links, links.Keys - Dead(links, |links|))
  {
    var n := |links|;
    DeadFinal(links, n);
    forall a | a in links.Keys - Dead(links, n) ensures HasPeerIn(links, links.Keys - Dead(links, n), a) {
      assert a !in Dead(links, n + 1);
      var i :| 0 <= i < |links[a]| && links[a][i] !in Dead(links, n);
    }
  }

  // ---------- how many deliveries a copy causes ----------

  /** The deliveries that a copy on its way to a node causes, itself included. */
  function Work(links: Links, n: nat, a: Address): nat
    requires a in Dead(links, n)
    decreases n, 1, 0
  {
    1 + WorkOfPeers(links, n - 1, links[a])
  }

  function WorkOfPeers(links: Links, n: nat, peers: seq<Address>): nat
    requires forall i :: 0 <= i < |peers| ==> peers[i] in Dead(links, n)
    decreases n, 2, |peers|
  {
    if peers == [] then 0
    else WorkOfPeers(links, n, peers[..|peers| - 1]) + Work(links, n, peers[|peers| - 1])
  }

  ghost predicate AllDead(links: Links, n: nat, flight: multiset<Address>) {
    forall a :: a in flight ==> a in Dead(links, n)
  }

  /** The deliveries that all copies in flight cause. */
  ghost function Deliveries(links: Links, n: nat, flight: multiset<Address>): nat
    requires AllDead(links, n, flight)
  {
    if flight == multiset{} then 0
    else
      var a :| a in flight;
      Work(links, n, a) + Deliveries(links, n, flight - multiset{a})
  }

  lemma {:induction false} DeliveriesPick(links: Links, n: nat, flight: multiset<Address>, a: Address)
    requires AllDead(links, n, flight) && a in flight
    ensures Deliveries(links, n, flight) == Work(links, n, a) + Deliveries(links, n, flight - multiset{a})
    decreases |flight|
  {
    var pick :| pick in flight
                && Deliveries(links, n, flight) == Work(links, n, pick) + Deliveries(links, n, flight - multiset{pick});
    if pick != a {
      var left, right := flight - multiset{pick}, flight - multiset{a};
      assert left - multiset{a} == right - multiset{pick};
      DeliveriesPick(links, n, left, a);
      DeliveriesPick(links, n, right, pick);
    }
  }

  /** Copies to more nodes. */
  lemma {:induction false} DeliveriesMore(links: Links, n: nat, flight: multiset<Address>, peers: seq<Address>)
    requires AllDead(links, n, flight) && forall i :: 0 <= i < |peers| ==> peers[i] in Dead(links, n)
    ensures AllDead(links, n, flight + multiset(peers))
    ensures Deliveries(links, n, flight + multiset(peers))
            == Deliveries(links, n, flight) + WorkOfPeers(links, n, peers)
  {
    if peers == [] {
      assert flight + multiset(peers) == flight;
    } else {
      var front, last := peers[..|peers| - 1], peers[|peers| - 1];
      assert peers == front + [last];
      DeliveriesMore(links, n, flight, front);
      assert flight + multiset(peers) - multiset{last} == flight + multiset(front);
      DeliveriesPick(links, n, flight + multiset(peers), last);
    }
  }

  /** A node's work does not depend on how far it is counted. */
  lemma {:induction false} WorkSame(links: Links, n: nat, k: nat, a: Address)
    requires n <= k && a in Dead(links, n)
    ensures a in Dead(links, k) && Work(links, n, a) == Work(links, k, a)
    decreases n, 1, 0
  {
    DeadChain(links, n, k);
    PeersSame(links, n - 1, k - 1, links[a]);
  }

  lemma {:induction false} PeersSame(links: Links, n: nat, k: nat, peers: seq<Address>)
    requires n <= k && forall i :: 0 <= i < |peers| ==> peers[i] in Dead(links, n)
    ensures forall i :: 0 <= i < |peers| ==> peers[i] in Dead(links, k)
    ensures WorkOfPeers(links, n, peers) == WorkOfPeers(links, k, peers)
    decreases n, 2, |peers|
  {
    DeadChain(links, n, k);
    if peers != [] {
      PeersSame(links, n, k, peers[..|peers| - 1]);
      WorkSame(links, n, k, peers[|peers| - 1]);
    }
  }

  /** A delivery is one of those counted. */
  lemma {:induction false} RelayCounts(links: Links, n: nat, flight: multiset<Address>, at: Address)
    requires AllDead(links, n, flight) && at in flight
    ensures at in links && AllDead(links, n, Relay(links, flight, at))
    ensures Deliveries(links, n, Relay(links, flight, at)) == Deliveries(links, n, flight) - 1
  {
    assert at in Dead(links, n);
    var peers := links[at];
    PeersSame(links, n - 1, n, peers);
    DeliveriesPick(links, n, flight, at);
    DeliveriesMore(links, n, flight - multiset{at}, peers);
  }

  /** When all copies are on their way to nodes that pass nothing on for ever, each run is followed by exactly the
      deliveries not made yet. */
  lemma {:induction false} RunCounts(links: Links, n: nat, flight: multiset<Address>, run: seq<Address>)
    requires AllDead(links, n, flight) && RelayRun(links, flight, run)
    ensures AllDead(links, n, AfterRelays(links, flight, run))
    ensures |run| + Deliveries(links, n, AfterRelays(links, flight, run)) == Deliveries(links, n, flight)
    decreases |run|
  {
    if run != [] {
      RelayCounts(links, n, flight, run[0]);
      RunCounts(links, n, Relay(links, flight, run[0]), run[1..]);
    }
  }

  // ---------- when relaying stops ----------

  ghost predicate RunsBounded(links: Links, flight: multiset<Address>, bound: nat) {
    forall run :: RelayRun(links, flight, run) ==> |run| <= bound
  }

  /** Main theorem on relaying: it stops, in every run, exactly if all copies are on their way to nodes from which no
      chain of relays is as long as there are nodes. */
  lemma {:induction false} RelayingStopsIff(links: Links, flight: multiset<Address>)
    requires WellLinked(links) && Within(links, flight)
    ensures (exists bound: nat :: RunsBounded(links, flight, bound)) <==> AllDead(links, |links|, flight)
  {
    var n := |links|;
    if AllDead(links, n, flight) {
      forall run | RelayRun(links, flight, run) ensures |run| <= Deliveries(links, n, flight) {
        RunCounts(links, n, flight, run);
      }
      assert RunsBounded(links, flight, Deliveries(links, n, flight));
    } else {
      var a :| a in flight && a !in Dead(links, n);
      OthersAlive(links);
      forall bound: nat ensures !RunsBounded(links, flight, bound) {
        assert a in links.Keys - Dead(links, n);
        var run := LongRun(links, links.Keys - Dead(links, n), flight, bound + 1);
        assert RelayRun(links, flight, run) && |run| > bound;
      }
    }
  }

  /** A copy between two nodes that relay to each other never dies out, whatever other nodes there are. */
  lemma {:induction false} PairNeverEnds(links: Links, a: Address, b: Address, flight: multiset<Address>)
    requires WellLinked(links) && Within(links, flight) && a in links && b in links
    requires b in links[a] && a in links[b] && a in flight
    ensures forall bound: nat :: !RunsBounded(links, flight, bound)
  {
    forall x | x in {a, b} ensures HasPeerIn(links, {a, b}, x) {
      var other := if x == a then b else a;
      var i :| 0 <= i < |links[x]| && links[x][i] == other;
    }
    forall bound: nat ensures !RunsBounded(links, flight, bound) {
      var run := LongRun(links, {a, b}, flight, bound + 1);
      assert RelayRun(links, flight, run) && |run| > bound;
    }
  }
}
