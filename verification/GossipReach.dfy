/** Address gossip gets through: without losses, addresses spread along the connections, and nodes that hear of one
    another become peers. */
module GossipReach {
  import opened Types
  import opened Gossip

  /** Nodes with addresses of their own, one list of peers for each. */
  ghost predicate Nodes(nodes: seq<Address>, net: Net) {
    NoRepeats(nodes) && |net.peers| == |nodes|
  }

  predicate NoAddrLost(events: seq<Event>) {
    forall e :: e in events ==> !e.LoseAddr?
  }

  predicate NothingLost(events: seq<Event>) {
    forall e :: e in events ==> !e.LoseAddr? && !e.LoseHandshake?
  }

  /** A run, taken apart at its first event. */
  lemma {:induction false} FirstEvent(nodes: seq<Address>, net: Net, events: seq<Event>, net': Net)
    requires events != [] && Nodes(nodes, net) && Run(nodes, net, events, net')
    ensures Possible(nodes, net, events[0]) && events[0] in events
    ensures Nodes(nodes, Next(nodes, net, events[0])) && Run(nodes, Next(nodes, net, events[0]), events[1..], net')
    ensures forall e :: e in events[1..] ==> e in events
  {
  }

  // ---------- lists only grow ----------

  lemma {:induction false} ListsGrow(nodes: seq<Address>, net: Net, events: seq<Event>, net': Net, n: nat, a: Address)
    requires Nodes(nodes, net) && Run(nodes, net, events, net') && n < |nodes|
    ensures Nodes(nodes, net')
    ensures a in net.peers[n].connected ==> a in net'.peers[n].connected
    ensures a in net.peers[n].forwarded ==> a in net'.peers[n].forwarded
    decreases |events|
  {
    if events != [] {
      FirstEvent(nodes, net, events, net');
      ListsGrow(nodes, Next(nodes, net, events[0]), events[1..], net', n, a);
    }
  }

  // ---------- addresses spread ----------

  /** What is on its way to a node is still on its way, or the node has passed it on. */
  lemma {:induction false} PacketArrives(nodes: seq<Address>, net: Net, events: seq<Event>, net': Net, p: AddrPacket,
                                         m: nat)
    requires Nodes(nodes, net) && Run(nodes, net, events, net') && NoAddrLost(events)
    requires m < |nodes| && nodes[m] == p.to && p in net.addrs
    ensures Nodes(nodes, net') && (p in net'.addrs || p.about in net'.peers[m].forwarded)
    decreases |events|
  {
    if events != [] {
      var e, next := events[0], Next(nodes, net, events[0]);
      FirstEvent(nodes, net, events, net');
      if e.GetAddr? && e.packet == p {
        assert e.node == m;
        assert p.about in next.peers[m].forwarded;
        ListsGrow(nodes, next, events[1..], net', m, p.about);
      } else {
        assert p in next.addrs;
        PacketArrives(nodes, next, events[1..], net', p, m);
      }
    }
  }

  /** In the run, node `n` passes on `a` at a moment when it is connected to `b`. */
  ghost predicate PassedOn(nodes: seq<Address>, net: Net, events: seq<Event>, n: nat, a: Address, b: Address)
    decreases |events|
  {
    && events != [] && Possible(nodes, net, events[0]) && |net.peers| == |nodes| && n < |nodes|
    && ((Forwards(nodes, net, events[0], n, a) && b in net.peers[n].connected && b != a)
        || PassedOn(nodes, Next(nodes, net, events[0]), events[1..], n, a, b))
  }

  /** Main theorem on spreading: what a node passes on, to a peer that it is connected to at that moment, is on its way
      to that peer or has been passed on by it in turn, at the end of every run without losses. */
  lemma {:induction false} Spreads(nodes: seq<Address>, net: Net, events: seq<Event>, net': Net, n: nat, a: Address,
                                   m: nat)
    requires Nodes(nodes, net) && Run(nodes, net, events, net') && NoAddrLost(events) && m < |nodes|
    requires PassedOn(nodes, net, events, n, a, nodes[m])
    ensures Nodes(nodes, net') && (AddrPacket(nodes[m], a) in net'.addrs || a in net'.peers[m].forwarded)
    decreases |events|
  {
    var e, next := events[0], Next(nodes, net, events[0]);
    FirstEvent(nodes, net, events, net');
    if Forwards(nodes, net, e, n, a) && nodes[m] in net.peers[n].connected && nodes[m] != a {
      var p := AddrPacket(nodes[m], a);
      ForwardToFacts(net.peers[n].connected, a, p);
      assert p in Received(nodes, net, e).addrs;
      assert p in next.addrs;
      PacketArrives(nodes, next, events[1..], net', p, m);
    } else {
      Spreads(nodes, next, events[1..], net', n, a, m);
    }
  }

  /** A node that has come to list an address has passed it on to whom it was connected at the start. */
  lemma {:induction false} ListedWasPassed(nodes: seq<Address>, net: Net, events: seq<Event>, net': Net, n: nat,
                                           a: Address, b: Address)
    requires Nodes(nodes, net) && Run(nodes, net, events, net') && n < |nodes|
    requires a !in net.peers[n].forwarded && Nodes(nodes, net') && a in net'.peers[n].forwarded
    requires b in net.peers[n].connected && b != a
    ensures PassedOn(nodes, net, events, n, a, b)
    decreases |events|
  {
    if events != [] {
      var e, next := events[0], Next(nodes, net, events[0]);
      FirstEvent(nodes, net, events, net');
      if !Forwards(nodes, net, e, n, a) {
        assert a !in next.peers[n].forwarded && b in next.peers[n].connected;
        ListedWasPassed(nodes, next, events[1..], net', n, a, b);
      }
    }
  }

  /** Each node of the path is connected to the next one. */
  ghost predicate Connections(nodes: seq<Address>, net: Net, path: seq<nat>)
    requires |net.peers| == |nodes|
  {
    && (forall i :: 0 <= i < |path| ==> path[i] < |nodes|)
    && forall i :: 0 <= i < |path| - 1 ==> nodes[path[i + 1]] in net.peers[path[i]].connected
  }

  /** When no addr message about an address is on its way any more, it has reached every node, other than its own, to
      which a path of connections leads from a node that has passed it on. */
  lemma {:induction false} ReachesAlong(nodes: seq<Address>, net: Net, events: seq<Event>, net': Net, a: Address,
                                        path: seq<nat>)
    requires Nodes(nodes, net) && Run(nodes, net, events, net') && NoAddrLost(events)
    requires forall n :: 0 <= n < |nodes| ==> a !in net.peers[n].forwarded
    requires forall p :: p in net'.addrs ==> p.about != a
    requires path != [] && Connections(nodes, net, path) && forall i :: 0 <= i < |path| ==> nodes[path[i]] != a
    requires Nodes(nodes, net') && a in net'.peers[path[0]].forwarded
    ensures a in net'.peers[path[|path| - 1]].forwarded
    decreases |path|
  {
    if |path| > 1 {
      var n, m := path[|path| - 2], path[|path| - 1];
      ReachesAlong(nodes, net, events, net', a, path[..|path| - 1]);
      StepAlong(nodes, net, events, net', a, n, m);
    }
  }

  lemma {:induction false} StepAlong(nodes: seq<Address>, net: Net, events: seq<Event>, net': Net, a: Address, n: nat,
                                     m: nat)
    requires Nodes(nodes, net) && Run(nodes, net, events, net') && NoAddrLost(events)
    requires n < |nodes| && m < |nodes| && nodes[m] != a && nodes[m] in net.peers[n].connected
    requires a !in net.peers[n].forwarded && Nodes(nodes, net') && a in net'.peers[n].forwarded
    requires AddrPacket(nodes[m], a) !in net'.addrs
    ensures a in net'.peers[m].forwarded
  {
    ListedWasPassed(nodes, net, events, net', n, a, nodes[m]);
    Spreads(nodes, net, events, net', n, a, m);
  }

  // ---------- nodes become peers ----------

  /** The node at `n` has the address as a peer, or a message that will make it one is on its way. */
  ghost predicate WillKnow(nodes: seq<Address>, net: Net, n: nat, a: Address)
    requires |net.peers| == |nodes| && n < |nodes|
  {
    || a in net.peers[n].connected
    || VersionMsg(a, nodes[n]) in net.handshakes
    || VerackMsg(nodes[n], a) in net.handshakes
  }

  lemma {:induction false} StillWillKnow(nodes: seq<Address>, net: Net, e: Event, n: nat, m: nat)
    requires Nodes(nodes, net) && n < |nodes| && m < |nodes| && Possible(nodes, net, e) && !e.LoseHandshake?
    requires WillKnow(nodes, net, n, nodes[m])
    ensures WillKnow(nodes, Next(nodes, net, e), n, nodes[m])
  {
    var a, self, next := nodes[m], nodes[n], Next(nodes, net, e);
    if a !in net.peers[n].connected {
      if VersionMsg(a, self) in net.handshakes {
        if e.GetHandshake? && e.msg == VersionMsg(a, self) {
          assert e.node == m;
          assert VerackMsg(self, a) in Received(nodes, net, e).handshakes;
          assert VerackMsg(self, a) in next.handshakes;
        } else {
          assert VersionMsg(a, self) in next.handshakes;
        }
      } else if e.GetHandshake? && e.msg == VerackMsg(self, a) {
        assert e.node == n;
        assert a in next.peers[n].connected;
      } else {
        assert VerackMsg(self, a) in next.handshakes;
      }
    }
  }

  lemma {:induction false} KnowsInTheEnd(nodes: seq<Address>, net: Net, events: seq<Event>, net': Net, n: nat, m: nat)
    requires Nodes(nodes, net) && Run(nodes, net, events, net') && NothingLost(events)
    requires n < |nodes| && m < |nodes| && WillKnow(nodes, net, n, nodes[m])
    ensures Nodes(nodes, net') && WillKnow(nodes, net', n, nodes[m])
    decreases |events|
  {
    if events != [] {
      FirstEvent(nodes, net, events, net');
      StillWillKnow(nodes, net, events[0], n, m);
      KnowsInTheEnd(nodes, Next(nodes, net, events[0]), events[1..], net', n, m);
    }
  }

  /** A version message delivered makes its receiver know the sender too. */
  lemma {:induction false} GreetedWillKnow(nodes: seq<Address>, net: Net, events: seq<Event>, net': Net, n: nat, m: nat)
    requires Nodes(nodes, net) && Run(nodes, net, events, net') && NothingLost(events)
    requires n < |nodes| && m < |nodes| && VersionMsg(nodes[m], nodes[n]) in net.handshakes
    ensures Nodes(nodes, net')
    ensures VersionMsg(nodes[m], nodes[n]) in net'.handshakes || WillKnow(nodes, net', m, nodes[n])
    decreases |events|
  {
    if events != [] {
      var e, next, msg := events[0], Next(nodes, net, events[0]), VersionMsg(nodes[m], nodes[n]);
      FirstEvent(nodes, net, events, net');
      if e.GetHandshake? && e.msg == msg {
        assert e.node == m;
        assert nodes[n] !in net.peers[m].connected ==>
            VersionMsg(nodes[n], nodes[m]) in Received(nodes, net, e).handshakes;
        assert WillKnow(nodes, next, m, nodes[n]);
        KnowsInTheEnd(nodes, next, events[1..], net', m, n);
      } else {
        assert msg in next.handshakes;
        GreetedWillKnow(nodes, next, events[1..], net', n, m);
      }
    }
  }

  /** Main theorem on acquaintance: when no handshake is on its way any more, after a run without losses, a node that
      sent a version message to another and its receiver are peers of each other. */
  lemma {:induction false} BecomePeers(nodes: seq<Address>, net: Net, events: seq<Event>, net': Net, n: nat, m: nat)
    requires Nodes(nodes, net) && Run(nodes, net, events, net') && NothingLost(events)
    requires n < |nodes| && m < |nodes| && VersionMsg(nodes[m], nodes[n]) in net.handshakes
    requires net'.handshakes == multiset{}
    ensures Nodes(nodes, net')
    ensures nodes[m] in net'.peers[n].connected && nodes[n] in net'.peers[m].connected
  {
    assert WillKnow(nodes, net, n, nodes[m]);
    KnowsInTheEnd(nodes, net, events, net', n, m);
    GreetedWillKnow(nodes, net, events, net', n, m);
  }

  /** A node that hears of another, whether or not it has passed the address on before, becomes its peer. */
  lemma {:induction false} HeardBecomesPeer(nodes: seq<Address>, net: Net, e: Event, events: seq<Event>, net': Net,
                                            m: nat)
    requires Nodes(nodes, net) && Possible(nodes, net, e) && e.GetAddr? && m < |nodes| && e.packet.about == nodes[m]
    requires Run(nodes, Next(nodes, net, e), events, net') && NothingLost(events) && net'.handshakes == multiset{}
    ensures Nodes(nodes, net') && nodes[m] in net'.peers[e.node].connected
  {
    var next, a := Next(nodes, net, e), nodes[m];
    assert a !in net.peers[e.node].connected ==> VersionMsg(a, nodes[e.node]) in Received(nodes, net, e).handshakes;
    assert WillKnow(nodes, next, e.node, a);
    KnowsInTheEnd(nodes, next, events, net', e.node, m);
  }
}
