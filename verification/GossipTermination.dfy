/**
  Gossip stops: between publishes, every step that changes the network lowers a
  natural number, and a network that is not quiescent can always take such a step.
 */
module GossipTermination {
  import opened Fanout
  import opened GossipNode
  import opened GossipNetwork

  /** How many further steps a packet may still cause by itself. */
  function PacketWeight(p: Packet): nat {
    match p.envelope case FullMessage(_) => 1 case IWant(_) => 2 case IHave(_, _, _) => 4
  }

  function FlightWeight(flight: seq<Packet>): nat {
    if flight == [] then 0 else FlightWeight(flight[..|flight| - 1]) + PacketWeight(flight[|flight| - 1])
  }

  /** Content a node has not seen weighs more than the flood it will cause. */
  function UnseenWeight(seen: set<Hash>, contents: set<Hash>, degree: nat): nat {
    (degree + 1) * |contents - seen|
  }

  function NodeWeight(n: Node, contents: set<Hash>, degree: nat): nat {
    3 * |n.pending| + UnseenWeight(n.seen, contents, degree)
  }

  function NodesWeight(nodes: seq<Node>, contents: set<Hash>, degree: nat): nat {
    if nodes == [] then 0
    else NodesWeight(nodes[..|nodes| - 1], contents, degree) + NodeWeight(nodes[|nodes| - 1], contents, degree)
  }

  function Measure(net: Net, contents: set<Hash>, degree: nat): nat {
    FlightWeight(net.flight) + NodesWeight(net.nodes, contents, degree)
  }

  /** `contents` names all content in circulation and `degree` bounds the peer lists. */
  ghost predicate Bounded(g: Graph, net: Net, contents: set<Hash>, degree: nat) {
    && (forall u | 0 <= u < |g.peers| :: |g.peers[u]| <= degree)
    && (forall p | p in net.flight :: HashOf(p.envelope) in contents)
    && (forall u | 0 <= u < |net.nodes| :: net.nodes[u].pending.Keys <= contents)
  }

  // Sums -----------------------------------------------------------------------

  lemma {:induction false} FlightWeightAdds(a: seq<Packet>, b: seq<Packet>)
    ensures FlightWeight(a + b) == FlightWeight(a) + FlightWeight(b)
    decreases |b|
  {
    if b == [] {
      assert a + b == a;
    } else {
      assert (a + b)[..|a + b| - 1] == a + b[..|b| - 1];
      FlightWeightAdds(a, b[..|b| - 1]);
    }
  }

  lemma {:induction false} FlightWeightWithout(flight: seq<Packet>, i: nat)
    requires i < |flight|
    ensures FlightWeight(Without(flight, i)) + PacketWeight(flight[i]) == FlightWeight(flight)
    decreases |flight|
  {
    var k := |flight| - 1;
    if i == k {
      assert Without(flight, i) == flight[..k];
    } else {
      assert Without(flight, i)[..k - 1] == Without(flight[..k], i);
      FlightWeightWithout(flight[..k], i);
    }
  }

  lemma {:induction false} FlightWeightUniform(src: NodeId, peers: seq<NodeId>, wire: Wire)
    ensures FlightWeight(SendAll(src, peers, FullMessage(wire))) == |peers|
    decreases |peers|
  {
    if peers != [] {
      assert SendAll(src, peers, FullMessage(wire))[..|peers| - 1] == SendAll(src, peers[..|peers| - 1], FullMessage(wire));
      FlightWeightUniform(src, peers[..|peers| - 1], wire);
    }
  }

  lemma {:induction false} NodesWeightUpdate(nodes: seq<Node>, u: nat, n: Node, contents: set<Hash>, degree: nat)
    requires u < |nodes|
    ensures NodesWeight(nodes[u := n], contents, degree) + NodeWeight(nodes[u], contents, degree)
            == NodesWeight(nodes, contents, degree) + NodeWeight(n, contents, degree)
    decreases |nodes|
  {
    hide NodeWeight;
    var k := |nodes| - 1;
    if u == k {
      assert nodes[u := n][..k] == nodes[..k];
    } else {
      assert nodes[u := n][..k] == nodes[..k][u := n];
      NodesWeightUpdate(nodes[..k], u, n, contents, degree);
    }
  }

  // One handler at a time --------------------------------------------------------

  lemma SeeingLowers(seen: set<Hash>, h: Hash, contents: set<Hash>, degree: nat)
    requires h in contents && h !in seen
    ensures UnseenWeight(seen + {h}, contents, degree) + degree + 1 == UnseenWeight(seen, contents, degree)
  {
    assert contents - seen == (contents - (seen + {h})) + {h};
    var rest := |contents - (seen + {h})|;
    assert (degree + 1) * (rest + 1) == (degree + 1) * rest + degree + 1;
  }

  /** Accepting new content pays for the flood it causes. */
  lemma FullLowers(n: Node, me: NodeId, peers: seq<NodeId>, wire: Wire, sender: NodeId, contents: set<Hash>, degree: nat)
    requires |peers| <= degree && wire.contentHash in contents
    ensures FlightWeight(FullPackets(n, me, peers, wire, sender)) + NodeWeight(AfterFull(n, wire), contents, degree)
            < 1 + NodeWeight(n, contents, degree)
  {
    hide UnseenWeight;
    if wire.contentHash !in n.seen {
      FlightWeightUniform(me, ForwardTargets(peers, sender, wire.origin, me), wire);
      SeeingLowers(n.seen, wire.contentHash, contents, degree);
      var n' := AfterFull(n, wire);
      SubsetSize(n'.pending.Keys, n.pending.Keys);
    }
  }

  lemma {:induction false} SubsetSize<T>(a: set<T>, b: set<T>)
    requires a <= b
    ensures |a| <= |b|
  {
    assert b == a + (b - a);
  }

  lemma IHaveLowers(n: Node, h: Hash, sender: NodeId, now: nat, contents: set<Hash>, degree: nat)
    ensures NodeWeight(AfterIHave(n, h, sender, now), contents, degree) < 4 + NodeWeight(n, contents, degree)
  {}

  /** The announcements a tick would ask for, or drop, among `order`. */
  function Asked(n: Node, now: nat, timeout: nat, order: seq<Hash>): set<Hash>
    requires forall h | h in order :: h in n.pending
  {
    set h | h in order && TimedOut(n, h, now, timeout)
  }

  lemma {:induction false} TickWeight(n: Node, me: NodeId, now: nat, timeout: nat, order: seq<Hash>)
    requires forall h | h in order :: h in n.pending
    requires forall i, j | 0 <= i < j < |order| :: order[i] != order[j]
    ensures FlightWeight(TickPackets(n, me, now, timeout, order)) == 2 * |Asked(n, now, timeout, order)|
    decreases |order|
  {
    if order != [] {
      var rest, h := order[..|order| - 1], order[|order| - 1];
      assert order == rest + [h];
      TickWeight(n, me, now, timeout, rest);
      assert h !in rest;
      if TimedOut(n, h, now, timeout) {
        assert Asked(n, now, timeout, order) == Asked(n, now, timeout, rest) + {h};
        FlightWeightAdds(TickPackets(n, me, now, timeout, rest), [Packet(me, n.pending[h].from, IWant(h))]);
      } else {
        assert Asked(n, now, timeout, order) == Asked(n, now, timeout, rest);
        assert TickPackets(n, me, now, timeout, order) == TickPackets(n, me, now, timeout, rest);
      }
    }
  }

  lemma IdleTick(n: Node, me: NodeId, now: nat, timeout: nat, order: seq<Hash>)
    requires Enumerates(order, n) && AfterTick(n, now, timeout) == n
    ensures TickPackets(n, me, now, timeout, order) == []
  {
    TickWeight(n, me, now, timeout, order);
    assert Asked(n, now, timeout, order) <= n.pending.Keys - AfterTick(n, now, timeout).pending.Keys;
  }

  lemma TickLowers(n: Node, me: NodeId, now: nat, timeout: nat, order: seq<Hash>, contents: set<Hash>, degree: nat)
    requires Enumerates(order, n) && AfterTick(n, now, timeout) != n
    ensures FlightWeight(TickPackets(n, me, now, timeout, order)) + NodeWeight(AfterTick(n, now, timeout), contents, degree)
            < NodeWeight(n, contents, degree)
  {
    hide UnseenWeight;
    var n' := AfterTick(n, now, timeout);
    var dropped := n.pending.Keys - n'.pending.Keys;
    TickWeight(n, me, now, timeout, order);
    assert n.pending.Keys == n'.pending.Keys + dropped;
    SubsetSize(Asked(n, now, timeout, order), dropped);
    assert dropped == {} ==> n'.pending == n.pending;
  }

  // Every step -----------------------------------------------------------------------

  lemma DeliverLowers(g: Graph, net: Net, e: Event, contents: set<Hash>, degree: nat)
    requires Enabled(g, net, e) && e.Deliver? && Bounded(g, net, contents, degree)
    ensures Measure(Step(g, net, e), contents, degree) < Measure(net, contents, degree)
  {
    var p := net.flight[e.index];
    var n := net.nodes[p.dst];
    assert p in net.flight;
    FlightWeightWithout(net.flight, e.index);
    FlightWeightAdds(Without(net.flight, e.index), Answer(n, g.peers[p.dst], p));
    NodesWeightUpdate(net.nodes, p.dst, Handle(n, p, e.now), contents, degree);
    match p.envelope {
      case FullMessage(wire) => FullLowers(n, p.dst, g.peers[p.dst], wire, p.src, contents, degree);
      case IHave(_, h, _) => IHaveLowers(n, h, p.src, e.now, contents, degree);
      case IWant(h) =>
    }
  }

  /** Between publishes, a step changes nothing or lowers the measure. */
  lemma StepLowers(g: Graph, net: Net, e: Event, contents: set<Hash>, degree: nat)
    requires Enabled(g, net, e) && !e.Publish? && Bounded(g, net, contents, degree)
    ensures Step(g, net, e) == net || Measure(Step(g, net, e), contents, degree) < Measure(net, contents, degree)
  {
    if e.Deliver? {
      DeliverLowers(g, net, e, contents, degree);
    } else {
      var n := net.nodes[e.node];
      var n' := AfterTick(n, e.now, g.config.lazyTimeout);
      if n' == n {
        IdleTick(n, e.node, e.now, g.config.lazyTimeout, e.order);
      } else {
        TickLowers(n, e.node, e.now, g.config.lazyTimeout, e.order, contents, degree);
        FlightWeightAdds(net.flight, TickPackets(n, e.node, e.now, g.config.lazyTimeout, e.order));
        NodesWeightUpdate(net.nodes, e.node, n', contents, degree);
      }
    }
  }

  lemma TickStaysBounded(g: Graph, net: Net, e: Event, contents: set<Hash>, degree: nat)
    requires Enabled(g, net, e) && e.Tick? && Bounded(g, net, contents, degree)
    ensures Bounded(g, Step(g, net, e), contents, degree)
  {
    hide TickPackets;
    var n := net.nodes[e.node];
    TickPacketsExact(n, e.node, e.now, g.config.lazyTimeout, e.order);
    forall p | p in TickPackets(n, e.node, e.now, g.config.lazyTimeout, e.order)
      ensures HashOf(p.envelope) in contents
    {
      var h :| h in e.order && TimedOut(n, h, e.now, g.config.lazyTimeout) && p == Packet(e.node, n.pending[h].from, IWant(h));
    }
  }

  lemma AnswerSameContent(n: Node, peers: seq<NodeId>, p: Packet, q: Packet)
    requires q in Answer(n, peers, p)
    requires forall h | h in n.cache :: n.cache[h].contentHash == h
    ensures HashOf(q.envelope) == HashOf(p.envelope)
  {}

  lemma DeliverStaysBounded(g: Graph, net: Net, e: Event, contents: set<Hash>, degree: nat)
    requires Enabled(g, net, e) && e.Deliver? && Bounded(g, net, contents, degree) && StateOk(g, net)
    ensures Bounded(g, Step(g, net, e), contents, degree)
  {
    hide PacketOk, Answer;
    var p := net.flight[e.index];
    assert p in net.flight;
    assert NodeOkAt(net.nodes, p.dst);
    assert forall q | q in Without(net.flight, e.index) :: q in net.flight;
    forall q | q in Answer(net.nodes[p.dst], g.peers[p.dst], p)
      ensures HashOf(q.envelope) in contents
    {
      AnswerSameContent(net.nodes[p.dst], g.peers[p.dst], p, q);
    }
  }

  // Runs -------------------------------------------------------------------------------

  /** How many events of a run changed the network. */
  ghost function Changes(g: Graph, net: Net, events: seq<Event>): nat
    decreases |events|
  {
    if events == [] then 0
    else
      var shorter := events[..|events| - 1];
      Changes(g, net, shorter) + (if Run(g, net, events) == Run(g, net, shorter) then 0 else 1)
  }

  /** A run without publishes makes at most as many changes as the measure of its start. */
  lemma {:induction false} GossipStops(g: Graph, net: Net, events: seq<Event>, contents: set<Hash>, degree: nat)
    requires WellFormed(g) && Inv(g, net) && Bounded(g, net, contents, degree)
    requires forall i | 0 <= i < |events| :: !events[i].Publish?
    ensures Bounded(g, Run(g, net, events), contents, degree)
    ensures Changes(g, net, events) + Measure(Run(g, net, events), contents, degree) <= Measure(net, contents, degree)
    decreases |events|
  {
    hide WellFormed, Covered, Bounded, Measure, NodeOk, PacketOk;
    if events != [] {
      var shorter, e := events[..|events| - 1], events[|events| - 1];
      GossipStops(g, net, shorter, contents, degree);
      RunsKeepInv(g, net, shorter);
      var before := Run(g, net, shorter);
      if Enabled(g, before, e) {
        StepLowers(g, before, e, contents, degree);
        if e.Tick? {
          TickStaysBounded(g, before, e, contents, degree);
        } else {
          DeliverStaysBounded(g, before, e, contents, degree);
        }
      }
    }
  }

  lemma {:induction false} SomeOrder(n: Node, keys: set<Hash>) returns (order: seq<Hash>)
    requires keys <= n.pending.Keys
    ensures (forall h :: h in order <==> h in keys) && forall i, j | 0 <= i < j < |order| :: order[i] != order[j]
    decreases keys
  {
    order := [];
    if keys != {} {
      var h :| h in keys;
      var rest := SomeOrder(n, keys - {h});
      order := rest + [h];
    }
  }

  lemma TickLeft(g: Graph, net: Net, u: NodeId, clock: nat) returns (e: Event)
    requires |net.nodes| == |g.peers| && u < |net.nodes| && net.nodes[u].pending != map[]
    ensures Enabled(g, net, e) && e.Tick? && clock <= e.now && Step(g, net, e) != net
  {
    var n := net.nodes[u];
    assert n.pending.Keys != {};
    var h :| h in n.pending;
    var order := SomeOrder(n, n.pending.Keys);
    e := Tick(u, clock + n.pending[h].receivedAt + g.config.lazyTimeout, order);
    assert h !in Step(g, net, e).nodes[u].pending;
  }

  /** Whatever the time, a network that is not quiescent has a step left that changes it. */
  lemma NeverStuck(g: Graph, net: Net, contents: set<Hash>, degree: nat, clock: nat) returns (e: Event)
    requires StateOk(g, net) && Bounded(g, net, contents, degree) && !Quiescent(net)
    ensures Enabled(g, net, e) && !e.Publish? && clock <= e.now && Step(g, net, e) != net
  {
    hide NodeOk, Bounded, Step;
    if net.flight != [] {
      e := Deliver(0, clock);
      assert net.flight[0] in net.flight;
      DeliverLowers(g, net, e, contents, degree);
    } else {
      var u :| 0 <= u < |net.nodes| && net.nodes[u].pending != map[];
      e := TickLeft(g, net, u, clock);
    }
  }

  // Draining ------------------------------------------------------------------------------

  function PendingContents(nodes: seq<Node>): set<Hash> {
    if nodes == [] then {} else PendingContents(nodes[..|nodes| - 1]) + nodes[|nodes| - 1].pending.Keys
  }

  /** All content in circulation. */
  function Contents(net: Net): set<Hash> {
    (set p | p in net.flight :: HashOf(p.envelope)) + PendingContents(net.nodes)
  }

  function Degree(peers: seq<seq<NodeId>>): nat {
    if peers == [] then 0
    else
      var rest := Degree(peers[..|peers| - 1]);
      if rest < |peers[|peers| - 1]| then |peers[|peers| - 1]| else rest
  }

  lemma {:induction false} DegreeBounds(peers: seq<seq<NodeId>>)
    ensures forall u | 0 <= u < |peers| :: |peers[u]| <= Degree(peers)
    decreases |peers|
  {
    if peers != [] {
      DegreeBounds(peers[..|peers| - 1]);
    }
  }

  lemma {:induction false} PendingBounds(nodes: seq<Node>)
    ensures forall u | 0 <= u < |nodes| :: nodes[u].pending.Keys <= PendingContents(nodes)
    decreases |nodes|
  {
    if nodes != [] {
      var shorter := nodes[..|nodes| - 1];
      PendingBounds(shorter);
      forall u | 0 <= u < |nodes|
        ensures nodes[u].pending.Keys <= PendingContents(nodes)
      {
        if u < |nodes| - 1 {
          assert nodes[u] == shorter[u];
        }
      }
    }
  }

  lemma AlwaysBounded(g: Graph, net: Net)
    ensures Bounded(g, net, Contents(net), Degree(g.peers))
  {
    DegreeBounds(g.peers);
    PendingBounds(net.nodes);
  }

  /** A run the code can make from `net` on without a publish, with a clock that never goes back. */
  ghost predicate Feasible(g: Graph, net: Net, events: seq<Event>, clock: nat)
    decreases |events|
  {
    events == [] ||
    (var e := events[0];
     Enabled(g, net, e) && !e.Publish? && clock <= e.now && Feasible(g, Step(g, net, e), events[1..], e.now))
  }

  /** The latest time any of the events carries. */
  function Latest(events: seq<Event>): nat {
    if events == [] then 0
    else
      var e, before := events[|events| - 1], Latest(events[..|events| - 1]);
      if e.Publish? || e.now < before then before else e.now
  }

  lemma {:induction false} RunFromStep(g: Graph, net: Net, e: Event, events: seq<Event>)
    requires Enabled(g, net, e)
    ensures Run(g, net, [e] + events) == Run(g, Step(g, net, e), events)
    decreases |events|
  {
    hide Enabled, Step;
    if events == [] {
      assert [e] + events == [e] && [e][..0] == [];
      assert Run(g, net, [e][..0]) == net;
    } else {
      var k := |events| - 1;
      assert ([e] + events)[..k + 1] == [e] + events[..k];
      RunFromStep(g, net, e, events[..k]);
    }
  }

  lemma {:induction false} DrainsWithin(g: Graph, net: Net, contents: set<Hash>, degree: nat, clock: nat)
    returns (events: seq<Event>)
    requires WellFormed(g) && Inv(g, net) && Bounded(g, net, contents, degree)
    ensures Quiescent(Run(g, net, events)) && Feasible(g, net, events, clock)
    decreases Measure(net, contents, degree)
  {
    hide WellFormed, Covered, Bounded, Measure, Quiescent, NodeOk, PacketOk, Enabled, Step;
    if Quiescent(net) {
      events := [];
    } else {
      var e := NeverStuck(g, net, contents, degree, clock);
      StepLowers(g, net, e, contents, degree);
      StepKeepsInv(g, net, e);
      if e.Tick? {
        TickStaysBounded(g, net, e, contents, degree);
      } else {
        DeliverStaysBounded(g, net, e, contents, degree);
      }
      var rest := DrainsWithin(g, Step(g, net, e), contents, degree, e.now);
      RunFromStep(g, net, e, rest);
      events := [e] + rest;
      assert events[1..] == rest;
    }
  }

  /**
    From every reachable state the protocol can run to quiescence with nothing
    published, by steps that are possible in turn and never earlier than what
    came before.
   */
  lemma Drains(g: Graph, net: Net, events: seq<Event>) returns (more: seq<Event>)
    requires WellFormed(g) && Fresh(g, net)
    ensures Quiescent(Run(g, Run(g, net, events), more))
    ensures Feasible(g, Run(g, net, events), more, Latest(events))
  {
    hide Quiescent, Bounded, WellFormed, Run, Feasible;
    var now := Run(g, net, events);
    FreshIsInv(g, net);
    RunsKeepInv(g, net, events);
    AlwaysBounded(g, now);
    more := DrainsWithin(g, now, Contents(now), Degree(g.peers), Latest(events));
  }
}
