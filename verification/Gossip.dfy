/** Address gossip: what full and SPV nodes do with version, verack and addr messages, and that flooding stops. */
module Gossip {
  import opened Types

  /** What a node keeps: the peers it is connected to and the addresses it has passed on. */
  datatype Peer = Peer(connected: seq<Address>, forwarded: seq<Address>)

  datatype AddrPacket = AddrPacket(to: Address, about: Address)
  datatype Handshake = VersionMsg(to: Address, from: Address) | VerackMsg(to: Address, from: Address)

  datatype Outcome = Outcome(peer: Peer, addrs: seq<AddrPacket>, handshakes: seq<Handshake>)

  function ForwardTo(connected: seq<Address>, about: Address): seq<AddrPacket> {
    if connected == [] then []
    else
      var to := connected[|connected| - 1];
      ForwardTo(connected[..|connected| - 1], about) + if to != about then [AddrPacket(to, about)] else []
  }

  /** `handleAddrMsg`. */
  function OnAddr(self: Address, p: Peer, about: Address): Outcome {
    var handshakes := if about !in p.connected then [VersionMsg(about, self)] else [];
    if about !in p.forwarded then
      Outcome(p.(forwarded := p.forwarded + [about]), ForwardTo(p.connected, about), handshakes)
    else
      Outcome(p, [], handshakes)
  }

  /** `handleVerackMsg`, without the request for blocks or headers that follows. */
  function OnVerack(self: Address, p: Peer, from: Address): Outcome {
    if from in p.connected then Outcome(p, [], [])
    else Outcome(p.(connected := p.connected + [from]), [AddrPacket(from, self)], [])
  }

  /** `handleVersionMsg`, for nodes of one protocol version. */
  function OnVersion(self: Address, p: Peer, from: Address): Outcome {
    Outcome(p, [], [VerackMsg(from, self)] + if from !in p.connected then [VersionMsg(from, self)] else [])
  }

  // ---------- the network ----------

  /** Nodes by position; messages in flight in any order. */
  datatype Net = Net(peers: seq<Peer>, addrs: multiset<AddrPacket>, handshakes: multiset<Handshake>)

  datatype Event = GetAddr(node: nat, packet: AddrPacket) | GetHandshake(node: nat, msg: Handshake)
                 | LoseAddr(packet: AddrPacket) | LoseHandshake(msg: Handshake)

  /** Any message in flight may arrive at its node, or be lost when nothing listens at its address. */
  predicate Possible(nodes: seq<Address>, net: Net, e: Event) {
    match e
    case GetAddr(n, p) => n < |nodes| == |net.peers| && p in net.addrs && p.to == nodes[n]
    case GetHandshake(n, m) => n < |nodes| == |net.peers| && m in net.handshakes && m.to == nodes[n]
    case LoseAddr(p) => p in net.addrs
    case LoseHandshake(m) => m in net.handshakes
  }

  function Received(nodes: seq<Address>, net: Net, e: Event): Outcome
    requires Possible(nodes, net, e) && (e.GetAddr? || e.GetHandshake?)
  {
    match e
    case GetAddr(n, p) => OnAddr(nodes[n], net.peers[n], p.about)
    case GetHandshake(n, VersionMsg(_, from)) => OnVersion(nodes[n], net.peers[n], from)
    case GetHandshake(n, VerackMsg(_, from)) => OnVerack(nodes[n], net.peers[n], from)
  }

  function Next(nodes: seq<Address>, net: Net, e: Event): Net
    requires Possible(nodes, net, e)
  {
    match e
    case GetAddr(n, p) =>
      var o := Received(nodes, net, e);
      Net(net.peers[n := o.peer], net.addrs - multiset{p} + multiset(o.addrs), net.handshakes + multiset(o.handshakes))
    case GetHandshake(n, m) =>
      var o := Received(nodes, net, e);
      Net(net.peers[n := o.peer], net.addrs + multiset(o.addrs), net.handshakes - multiset{m} + multiset(o.handshakes))
    case LoseAddr(p) => net.(addrs := net.addrs - multiset{p})
    case LoseHandshake(m) => net.(handshakes := net.handshakes - multiset{m})
  }

  // ---------- the invariant ----------

  predicate NoRepeats(s: seq<Address>) {
    forall i, j :: 0 <= i < j < |s| ==> s[i] != s[j]
  }

  predicate PeerOk(known: set<Address>, p: Peer) {
    && NoRepeats(p.connected) && NoRepeats(p.forwarded)
    && (forall a :: a in p.connected ==> a in known)
    && (forall a :: a in p.forwarded ==> a in known)
  }

  /** All addresses that occur are among the known ones, and both lists of every node are free of repeats. */
  ghost predicate NetOk(known: set<Address>, nodes: seq<Address>, net: Net) {
    && |net.peers| == |nodes|
    && (forall n :: 0 <= n < |nodes| ==> nodes[n] in known && PeerOk(known, net.peers[n]))
    && (forall p :: p in net.addrs ==> p.to in known && p.about in known)
    && (forall m :: m in net.handshakes ==> m.to in known && m.from in known)
  }

  lemma {:induction false} ForwardToFacts(connected: seq<Address>, about: Address, p: AddrPacket)
    ensures |ForwardTo(connected, about)| <= |connected|
    ensures p in ForwardTo(connected, about) <==> p.about == about && p.to in connected && p.to != about
  {
    if connected != [] {
      ForwardToFacts(connected[..|connected| - 1], about, p);
      assert connected == connected[..|connected| - 1] + [connected[|connected| - 1]];
    }
  }

  lemma ReceivedOk(known: set<Address>, nodes: seq<Address>, net: Net, e: Event)
    requires NetOk(known, nodes, net) && Possible(nodes, net, e) && (e.GetAddr? || e.GetHandshake?)
    ensures var o := Received(nodes, net, e);
            && PeerOk(known, o.peer)
            && (forall p :: p in o.addrs ==> p.to in known && p.about in known)
            && (forall m :: m in o.handshakes ==> m.to in known && m.from in known)
  {
    var o := Received(nodes, net, e);
    assert PeerOk(known, net.peers[e.node]);
    forall p | p in o.addrs ensures p.to in known && p.about in known {
      if e.GetAddr? {
        ForwardToFacts(net.peers[e.node].connected, e.packet.about, p);
      }
    }
  }

  lemma StepOk(known: set<Address>, nodes: seq<Address>, net: Net, e: Event)
    requires NetOk(known, nodes, net) && Possible(nodes, net, e)
    ensures NetOk(known, nodes, Next(nodes, net, e))
  {
    if e.GetAddr? || e.GetHandshake? {
      ReceivedOk(known, nodes, net, e);
    }
  }

  // ---------- the measure ----------

  function Elements(s: seq<Address>): set<Address> {
    set a | a in s
  }

  lemma {:induction false} NoRepeatsSize(s: seq<Address>, known: set<Address>)
    requires NoRepeats(s) && Elements(s) <= known
    ensures |s| <= |known|
  {
    if s != [] {
      var n := |s| - 1;
      assert s == s[..n] + [s[n]];
      NoRepeatsSize(s[..n], known - {s[n]});
    }
  }

  /** Room left in the two lists of one node; forwarding is weighted by the packets it may send. */
  function Room(size: nat, p: Peer): int {
    (size - |p.connected|) + size * (size - |p.forwarded|)
  }

  function Rooms(size: nat, peers: seq<Peer>): int {
    if peers == [] then 0 else Rooms(size, peers[..|peers| - 1]) + Room(size, peers[|peers| - 1])
  }

  /** Addr messages in flight plus the addr messages that can still be caused. */
  function Measure(known: set<Address>, net: Net): int {
    |net.addrs| + Rooms(|known|, net.peers)
  }

  lemma {:induction false} RoomsUpdate(size: nat, peers: seq<Peer>, n: nat, p: Peer)
    requires n < |peers|
    ensures Rooms(size, peers[n := p]) == Rooms(size, peers) - Room(size, peers[n]) + Room(size, p)
  {
    var last := |peers| - 1;
    if n == last {
      assert peers[n := p][..last] == peers[..last];
    } else {
      RoomsUpdate(size, peers[..last], n, p);
      assert peers[n := p][..last] == peers[..last][n := p];
    }
  }

  lemma {:induction false} RoomsNonNegative(known: set<Address>, peers: seq<Peer>)
    requires forall n :: 0 <= n < |peers| ==> PeerOk(known, peers[n])
    ensures Rooms(|known|, peers) >= 0
  {
    if peers != [] {
      var p := peers[|peers| - 1];
      RoomsNonNegative(known, peers[..|peers| - 1]);
      NoRepeatsSize(p.connected, known);
      NoRepeatsSize(p.forwarded, known);
      assert |known| * (|known| - |p.forwarded|) >= 0;
    }
  }

  lemma AddrDecreases(known: set<Address>, nodes: seq<Address>, net: Net, e: Event)
    requires NetOk(known, nodes, net) && Possible(nodes, net, e) && e.GetAddr?
    ensures Measure(known, Next(nodes, net, e)) < Measure(known, net)
  {
    var p := net.peers[e.node];
    var o := Received(nodes, net, e);
    RoomsUpdate(|known|, net.peers, e.node, o.peer);
    assert PeerOk(known, p);
    NoRepeatsSize(p.connected, known);
    ForwardToFacts(p.connected, e.packet.about, e.packet);
    if e.packet.about !in p.forwarded {
      assert Room(|known|, o.peer) == Room(|known|, p) - |known| by {
        assert |known| * (|known| - (|p.forwarded| + 1)) == |known| * (|known| - |p.forwarded|) - |known|;
      }
    }
  }

  lemma HandshakePays(known: set<Address>, nodes: seq<Address>, net: Net, e: Event)
    requires NetOk(known, nodes, net) && Possible(nodes, net, e) && e.GetHandshake?
    ensures Measure(known, Next(nodes, net, e)) <= Measure(known, net)
  {
    var p, o := net.peers[e.node], Received(nodes, net, e);
    RoomsUpdate(|known|, net.peers, e.node, o.peer);
    assert |multiset(o.addrs)| == |o.addrs|;
    if o.peer != p {
      assert |o.addrs| == 1 && |o.peer.connected| == |p.connected| + 1 && o.peer.forwarded == p.forwarded;
    }
  }

  /** An arriving or lost addr message makes the measure smaller; nothing makes it larger: a new connection pays
      for the addr message it causes. */
  lemma {:induction false} StepMeasure(known: set<Address>, nodes: seq<Address>, net: Net, e: Event)
    requires NetOk(known, nodes, net) && Possible(nodes, net, e)
    ensures if e.GetAddr? || e.LoseAddr? then Measure(known, Next(nodes, net, e)) < Measure(known, net)
            else Measure(known, Next(nodes, net, e)) <= Measure(known, net)
  {
    if e.GetAddr? {
      AddrDecreases(known, nodes, net, e);
    } else if e.GetHandshake? {
      HandshakePays(known, nodes, net, e);
    }
  }

  // ---------- runs ----------

  ghost predicate Run(nodes: seq<Address>, net: Net, events: seq<Event>, net': Net)
    decreases |events|
  {
    if events == [] then net' == net
    else Possible(nodes, net, events[0]) && Run(nodes, Next(nodes, net, events[0]), events[1..], net')
  }

  function AddrEvents(events: seq<Event>): nat {
    if events == [] then 0
    else (if events[0].GetAddr? || events[0].LoseAddr? then 1 else 0) + AddrEvents(events[1..])
  }

  /** Main theorem on gossip: in every run, whatever the order of delivery and however long the handshakes go on,
      the number of addr messages delivered is bounded by the measure of the start, and the lists of every node
      stay free of repeats. */
  lemma {:induction false} GossipTerminates(known: set<Address>, nodes: seq<Address>, net: Net, events: seq<Event>,
                                            net': Net)
    requires NetOk(known, nodes, net) && Run(nodes, net, events, net')
    ensures NetOk(known, nodes, net')
    ensures AddrEvents(events) + Measure(known, net') <= Measure(known, net)
    ensures 0 <= Measure(known, net')
    decreases |events|
  {
    if events == [] {
      RoomsNonNegative(known, net.peers);
    } else {
      StepOk(known, nodes, net, events[0]);
      StepMeasure(known, nodes, net, events[0]);
      GossipTerminates(known, nodes, Next(nodes, net, events[0]), events[1..], net');
    }
  }

  lemma {:induction false} FreshRooms(size: nat, nodes: nat)
    ensures Rooms(size, seq(nodes, i => Peer([], []))) == nodes * (size + size * size)
  {
    if nodes > 0 {
      var peers := seq(nodes, i => Peer([], []));
      assert peers[..nodes - 1] == seq(nodes - 1, i => Peer([], []));
      FreshRooms(size, nodes - 1);
      assert nodes * (size + size * size) == (nodes - 1) * (size + size * size) + (size + size * size);
    }
  }

  /** From a start with nothing connected or forwarded the bound is the initial messages plus, for each node,
      one connection and one round of forwarding for each known address. */
  lemma {:induction false} FreshStartBound(known: set<Address>, nodes: seq<Address>, net: Net, events: seq<Event>,
                                           net': Net)
    requires NetOk(known, nodes, net) && Run(nodes, net, events, net')
    requires net.peers == seq(|nodes|, i => Peer([], []))
    ensures AddrEvents(events) <= |net.addrs| + |nodes| * (|known| + |known| * |known|)
  {
    GossipTerminates(known, nodes, net, events, net');
    FreshRooms(|known|, |nodes|);
  }

  /** The event makes node `n` pass on `a`. */
  ghost predicate Forwards(nodes: seq<Address>, net: Net, e: Event, n: nat, a: Address)
    requires Possible(nodes, net, e) && n < |net.peers|
  {
    e.GetAddr? && e.node == n && e.packet.about == a && a !in net.peers[n].forwarded
  }

  ghost function ForwardCount(nodes: seq<Address>, net: Net, events: seq<Event>, n: nat, a: Address): nat
    decreases |events|
  {
    if events == [] || !Possible(nodes, net, events[0]) || |net.peers| != |nodes| || n >= |nodes| then 0
    else
      var e := events[0];
      (if Forwards(nodes, net, e, n, a) then 1 else 0)
      + ForwardCount(nodes, Next(nodes, net, e), events[1..], n, a)
  }

  /** In every run each node passes on each address at most once, and never one it had passed on before. */
  lemma {:induction false} ForwardedOnce(nodes: seq<Address>, net: Net, events: seq<Event>, net': Net, n: nat,
                                         a: Address)
    requires Run(nodes, net, events, net') && |net.peers| == |nodes| && n < |nodes|
    ensures ForwardCount(nodes, net, events, n, a) <= if a in net.peers[n].forwarded then 0 else 1
    ensures a in net.peers[n].forwarded ==> |net'.peers| == |nodes| && a in net'.peers[n].forwarded
    decreases |events|
  {
    if events != [] {
      ForwardedOnce(nodes, Next(nodes, net, events[0]), events[1..], net', n, a);
    }
  }
}
