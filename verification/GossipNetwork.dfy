/**
  A network of gossip nodes on a static symmetric peer graph.

  Nodes are the indices of `nodes`; packets in flight are kept in a list any
  element of which may be delivered next. Transport is reliable: a packet leaves
  the list only by being delivered. Every handler is one atomic step.
 */
module GossipNetwork {
  import opened ByteOrder
  import opened Fanout
  import opened GossipNode

  datatype Graph = Graph(peers: seq<seq<NodeId>>, config: FanoutConfig)

  datatype Net = Net(nodes: seq<Node>, flight: seq<Packet>)

  datatype Event =
    | Publish(node: NodeId, topic: Bytes, payload: Bytes, shuffled: seq<NodeId>)
    | Deliver(index: nat, now: nat)
    | Tick(node: NodeId, now: nat, order: seq<Hash>)

  ghost predicate WellFormed(g: Graph) {
    && (forall u, i | 0 <= u < |g.peers| && 0 <= i < |g.peers[u]| :: g.peers[u][i] < |g.peers|)
    && (forall u, v | 0 <= u < |g.peers| && 0 <= v < |g.peers| :: v in g.peers[u] <==> u in g.peers[v])
  }

  /** The events the code can perform in a state. */
  ghost predicate Enabled(g: Graph, net: Net, e: Event) {
    && |net.nodes| == |g.peers|
    && match e
       case Publish(u, _, _, shuffled) => u < |net.nodes| && multiset(shuffled) == multiset(g.peers[u])
       case Deliver(i, _) => i < |net.flight| && net.flight[i].dst < |net.nodes|
       case Tick(u, _, order) => u < |net.nodes| && Enumerates(order, net.nodes[u])
  }

  function Without(flight: seq<Packet>, i: nat): seq<Packet>
    requires i < |flight|
  {
    flight[..i] + flight[i + 1..]
  }

  function Handle(n: Node, p: Packet, now: nat): Node {
    match p.envelope
    case FullMessage(wire) => AfterFull(n, wire)
    case IHave(_, h, _) => AfterIHave(n, h, p.src, now)
    case IWant(_) => n
  }

  function Answer(n: Node, peers: seq<NodeId>, p: Packet): seq<Packet> {
    match p.envelope
    case FullMessage(wire) => FullPackets(n, p.dst, peers, wire, p.src)
    case IHave(_, _, _) => []
    case IWant(h) => IWantPackets(n, p.dst, h, p.src)
  }

  ghost function Step(g: Graph, net: Net, e: Event): Net
    requires Enabled(g, net, e)
  {
    match e
    case Publish(u, topic, payload, shuffled) =>
      Net(net.nodes[u := Published(net.nodes[u], u, topic, payload)],
          net.flight + PublishPackets(u, topic, payload, g.peers[u], shuffled, g.config))
    case Deliver(i, now) =>
      var p := net.flight[i];
      Net(net.nodes[p.dst := Handle(net.nodes[p.dst], p, now)],
          Without(net.flight, i) + Answer(net.nodes[p.dst], g.peers[p.dst], p))
    case Tick(u, now, order) =>
      Net(net.nodes[u := AfterTick(net.nodes[u], now, g.config.lazyTimeout)],
          net.flight + TickPackets(net.nodes[u], u, now, g.config.lazyTimeout, order))
  }

  // The invariant ------------------------------------------------------------

  function HashOf(e: Envelope): Hash {
    match e case FullMessage(w) => w.contentHash case IHave(_, h, _) => h case IWant(h) => h
  }

  predicate HasSeen(nodes: seq<Node>, u: NodeId, h: Hash) {
    u < |nodes| && h in nodes[u].seen
  }

  /** The node that will answer for a packet's content has it. */
  ghost predicate PacketOk(nodes: seq<Node>, p: Packet) {
    && p.src < |nodes| && p.dst < |nodes|
    && match p.envelope
       case FullMessage(w) => HasSeen(nodes, p.src, w.contentHash) && HasSeen(nodes, w.origin, w.contentHash)
       case IHave(_, h, _) => HasSeen(nodes, p.src, h)
       case IWant(h) => HasSeen(nodes, p.dst, h)
  }

  /** A node caches exactly what it has seen, and every announcer still holds what it announced. */
  ghost predicate NodeOk(nodes: seq<Node>, n: Node) {
    && n.cache.Keys == n.seen
    && (forall h | h in n.cache :: n.cache[h].contentHash == h && HasSeen(nodes, n.cache[h].origin, h))
    && (forall h | h in n.pending :: HasSeen(nodes, n.pending[h].from, h))
  }

  ghost predicate NodeOkAt(nodes: seq<Node>, u: NodeId)
    requires u < |nodes|
  {
    NodeOk(nodes, nodes[u])
  }

  /** The packet, when delivered, takes `h` closer to `v`. */
  predicate Brings(p: Packet, v: NodeId, h: Hash) {
    HashOf(p.envelope) == h && (if p.envelope.IWant? then p.src == v else p.dst == v)
  }

  /** `v` has `h`, or it is on its way: announced, asked for, or in flight. */
  ghost predicate OnItsWay(net: Net, v: NodeId, h: Hash)
    requires v < |net.nodes|
  {
    || h in net.nodes[v].seen
    || h in net.nodes[v].pending
    || exists p | p in net.flight :: Brings(p, v, h)
  }

  /** Whatever a node has seen is on its way to each of its peers. */
  ghost predicate Covered(g: Graph, net: Net)
    requires |net.nodes| == |g.peers|
  {
    forall u: NodeId, v: NodeId, h: Hash | HasSeen(net.nodes, u, h) && v in g.peers[u] && v < |net.nodes| :: OnItsWay(net, v, h)
  }

  ghost predicate StateOk(g: Graph, net: Net) {
    && |net.nodes| == |g.peers|
    && (forall p | p in net.flight :: PacketOk(net.nodes, p))
    && (forall u: NodeId | u < |net.nodes| :: NodeOkAt(net.nodes, u))
  }

  ghost predicate Inv(g: Graph, net: Net) {
    StateOk(g, net) && Covered(g, net)
  }

  /** Nodes only ever learn. */
  ghost predicate Learned(nodes: seq<Node>, nodes': seq<Node>) {
    |nodes'| == |nodes| && forall u | 0 <= u < |nodes| :: nodes[u].seen <= nodes'[u].seen
  }

  lemma PacketStays(nodes: seq<Node>, nodes': seq<Node>, p: Packet)
    requires Learned(nodes, nodes') && PacketOk(nodes, p)
    ensures PacketOk(nodes', p)
  {}

  lemma NodeStays(nodes: seq<Node>, nodes': seq<Node>, n: Node)
    requires Learned(nodes, nodes') && NodeOk(nodes, n)
    ensures NodeOk(nodes', n)
  {}

  /** A step replaces node `u`, keeps some packets and adds others. */
  lemma StateKept(g: Graph, net: Net, net': Net, u: NodeId)
    requires StateOk(g, net) && u < |net.nodes| && |net'.nodes| == |net.nodes|
    requires net'.nodes == net.nodes[u := net'.nodes[u]]
    requires net.nodes[u].seen <= net'.nodes[u].seen
    requires NodeOk(net'.nodes, net'.nodes[u])
    requires forall p | p in net'.flight :: p in net.flight || PacketOk(net'.nodes, p)
    ensures StateOk(g, net')
  {
    forall p | p in net'.flight
      ensures PacketOk(net'.nodes, p)
    {
      if p in net.flight {
        PacketStays(net.nodes, net'.nodes, p);
      }
    }
    forall v: NodeId | v < |net'.nodes|
      ensures NodeOkAt(net'.nodes, v)
    {
      if v != u {
        assert NodeOkAt(net.nodes, v);
        NodeStays(net.nodes, net'.nodes, net.nodes[v]);
      }
    }
  }

  /** No delivery under way is lost. */
  ghost predicate NothingLost(net: Net, net': Net) {
    && |net'.nodes| == |net.nodes|
    && forall v: NodeId, h: Hash | v < |net.nodes| && OnItsWay(net, v, h) :: OnItsWay(net', v, h)
  }

  /** What node `u` has just learned is on its way to its peers. */
  ghost predicate NewsSpread(g: Graph, net: Net, net': Net, u: NodeId)
    requires u < |g.peers| == |net.nodes| == |net'.nodes|
  {
    forall v: NodeId, h: Hash | h in net'.nodes[u].seen && h !in net.nodes[u].seen && v in g.peers[u] && v < |net'.nodes| ::
      OnItsWay(net', v, h)
  }

  lemma CoverKept(g: Graph, net: Net, net': Net, u: NodeId)
    requires |net.nodes| == |g.peers| && Covered(g, net) && u < |net.nodes| == |net'.nodes|
    requires net'.nodes == net.nodes[u := net'.nodes[u]]
    requires NothingLost(net, net') && NewsSpread(g, net, net', u)
    ensures Covered(g, net')
  {}

  // Publishing -----------------------------------------------------------------

  /** Every peer of a publisher gets the full message or an announcement. */
  lemma PublishReachesPeers(g: Graph, u: NodeId, topic: Bytes, payload: Bytes, shuffled: seq<NodeId>, v: NodeId)
    requires u < |g.peers| && v in g.peers[u] && multiset(shuffled) == multiset(g.peers[u])
    ensures exists p :: p in PublishPackets(u, topic, payload, g.peers[u], shuffled, g.config) && Brings(p, v, Hash(payload))
  {
    var sent := PublishPackets(u, topic, payload, g.peers[u], shuffled, g.config);
    var (eager, lazy) := SelectFanout(shuffled, g.config);
    var full := FullMessage(PublishedWire(u, topic, payload));
    var ihave := IHave(topic, Hash(payload), u);
    FullSplitCoversAll(g.peers[u], shuffled, g.config, v);
    var left := Uncovered(g.peers[u], (set p | p in eager) + (set p | p in lazy));
    if v in eager {
      var i :| 0 <= i < |eager| && eager[i] == v;
      assert SendAll(u, eager, full)[i] in sent;
      assert Brings(Packet(u, v, full), v, Hash(payload));
    } else if v in lazy {
      var i :| 0 <= i < |lazy| && lazy[i] == v;
      assert SendAll(u, lazy, ihave)[i] in sent;
      assert Brings(Packet(u, v, ihave), v, Hash(payload));
    } else {
      var i :| 0 <= i < |left| && left[i] == v;
      assert SendAll(u, left, ihave)[i] in sent;
      assert Brings(Packet(u, v, ihave), v, Hash(payload));
    }
  }

  lemma PublishTargets(g: Graph, u: NodeId, topic: Bytes, payload: Bytes, shuffled: seq<NodeId>, p: Packet)
    requires WellFormed(g) && u < |g.peers| && multiset(shuffled) == multiset(g.peers[u])
    requires p in PublishPackets(u, topic, payload, g.peers[u], shuffled, g.config)
    ensures p.src == u && p.dst < |g.peers|
    ensures p.envelope == FullMessage(PublishedWire(u, topic, payload)) || p.envelope == IHave(topic, Hash(payload), u)
  {
    var (eager, lazy) := SelectFanout(shuffled, g.config);
    var left := Uncovered(g.peers[u], (set q | q in eager) + (set q | q in lazy));
    var v := p.dst;
    assert v in eager || v in lazy || v in left;
    if v in eager || v in lazy {
      assert v in eager + lazy;
      assert v in multiset(shuffled);
    }
    assert v in g.peers[u];
    var i :| 0 <= i < |g.peers[u]| && g.peers[u][i] == v;
  }

  lemma PublishLosesNothing(g: Graph, net: Net, e: Event, v: NodeId, h: Hash)
    requires Enabled(g, net, e) && e.Publish? && v < |net.nodes| && OnItsWay(net, v, h)
    ensures OnItsWay(Step(g, net, e), v, h)
  {}

  lemma PublishedOk(g: Graph, net: Net, e: Event)
    requires WellFormed(g) && StateOk(g, net) && Enabled(g, net, e) && e.Publish?
    ensures StateOk(g, Step(g, net, e))
  {
    hide PublishPackets, WellFormed;
    var net' := Step(g, net, e);
    var u := e.node;
    forall p | p in PublishPackets(u, e.topic, e.payload, g.peers[u], e.shuffled, g.config)
      ensures PacketOk(net'.nodes, p)
    {
      PublishTargets(g, u, e.topic, e.payload, e.shuffled, p);
    }
    assert NodeOkAt(net.nodes, u);
    NodeStays(net.nodes, net'.nodes, net.nodes[u]);
    StateKept(g, net, net', u);
  }

  lemma PublishKeepsInv(g: Graph, net: Net, e: Event)
    requires WellFormed(g) && Inv(g, net) && Enabled(g, net, e) && e.Publish?
    ensures Inv(g, Step(g, net, e))
  {
    hide PublishPackets, WellFormed, Covered, NodeOk, PacketOk;
    PublishedOk(g, net, e);
    var net' := Step(g, net, e);
    var u := e.node;
    forall v: NodeId, h: Hash | v < |net.nodes| && OnItsWay(net, v, h)
      ensures OnItsWay(net', v, h)
    {
      PublishLosesNothing(g, net, e, v, h);
    }
    forall v: NodeId, h: Hash | h in net'.nodes[u].seen && h !in net.nodes[u].seen && v in g.peers[u] && v < |net'.nodes|
      ensures OnItsWay(net', v, h)
    {
      PublishReachesPeers(g, u, e.topic, e.payload, e.shuffled, v);
    }
    CoverKept(g, net, net', u);
  }

  // Delivering -----------------------------------------------------------------

  lemma WithoutKeeps(flight: seq<Packet>, i: nat, p: Packet)
    requires i < |flight| && p in flight && p != flight[i]
    ensures p in Without(flight, i)
  {}

  lemma HandledNodeOk(nodes: seq<Node>, p: Packet, now: nat)
    requires PacketOk(nodes, p) && NodeOk(nodes, nodes[p.dst])
    ensures var nodes' := nodes[p.dst := Handle(nodes[p.dst], p, now)];
            Learned(nodes, nodes') && NodeOk(nodes', nodes'[p.dst])
  {
    NodeStays(nodes, nodes[p.dst := Handle(nodes[p.dst], p, now)], nodes[p.dst]);
  }

  lemma AnswersOk(g: Graph, nodes: seq<Node>, nodes': seq<Node>, p: Packet, q: Packet)
    requires WellFormed(g) && |nodes| == |g.peers| && PacketOk(nodes, p) && NodeOk(nodes, nodes[p.dst]) && Learned(nodes, nodes')
    requires p.envelope.FullMessage? ==> HasSeen(nodes', p.dst, p.envelope.wire.contentHash)
    requires q in Answer(nodes[p.dst], g.peers[p.dst], p)
    ensures PacketOk(nodes', q)
  {
    if p.envelope.FullMessage? {
      var targets := ForwardTargets(g.peers[p.dst], p.src, p.envelope.wire.origin, p.dst);
      assert q.dst in targets;
      var i :| 0 <= i < |g.peers[p.dst]| && g.peers[p.dst][i] == q.dst;
    }
  }

  /** What the delivered packet was bringing has arrived, or its successor is on the way. */
  lemma DeliveryMovesOn(g: Graph, net: Net, e: Event, p: Packet, v: NodeId, h: Hash)
    requires Enabled(g, net, e) && e.Deliver? && p == net.flight[e.index]
    requires PacketOk(net.nodes, p) && NodeOk(net.nodes, net.nodes[p.dst])
    requires v < |net.nodes| && Brings(p, v, h)
    ensures OnItsWay(Step(g, net, e), v, h)
  {
    if p.envelope.IWant? {
      var reply := Packet(p.dst, p.src, FullMessage(net.nodes[p.dst].cache[h]));
      assert Answer(net.nodes[p.dst], g.peers[p.dst], p) == [reply];
      assert reply in Step(g, net, e).flight && Brings(reply, v, h);
    }
  }

  lemma StillOnItsWay(g: Graph, net: Net, e: Event, p: Packet, v: NodeId, h: Hash)
    requires Enabled(g, net, e) && e.Deliver? && p == net.flight[e.index]
    requires PacketOk(net.nodes, p) && NodeOk(net.nodes, net.nodes[p.dst])
    requires v < |net.nodes| && OnItsWay(net, v, h)
    ensures OnItsWay(Step(g, net, e), v, h)
  {
    if h !in net.nodes[v].seen && h !in net.nodes[v].pending {
      var q :| q in net.flight && Brings(q, v, h);
      if q == p {
        DeliveryMovesOn(g, net, e, p, v, h);
      } else {
        WithoutKeeps(net.flight, e.index, q);
        assert q in Step(g, net, e).flight;
      }
    }
  }

  /** A node that accepts a message has sent it to every peer that may lack it. */
  lemma AcceptedIsForwarded(g: Graph, net: Net, e: Event, p: Packet, v: NodeId)
    requires Enabled(g, net, e) && e.Deliver? && p == net.flight[e.index] && PacketOk(net.nodes, p)
    requires p.envelope.FullMessage? && p.envelope.wire.contentHash !in net.nodes[p.dst].seen
    requires v in g.peers[p.dst] && v < |net.nodes|
    ensures OnItsWay(Step(g, net, e), v, p.envelope.wire.contentHash)
  {
    var wire := p.envelope.wire;
    var targets := ForwardTargets(g.peers[p.dst], p.src, wire.origin, p.dst);
    if v in targets {
      var j :| 0 <= j < |targets| && targets[j] == v;
      var copy := SendAll(p.dst, targets, FullMessage(wire))[j];
      assert copy in Step(g, net, e).flight && Brings(copy, v, wire.contentHash);
    }
  }

  lemma HandledOk(g: Graph, net: Net, e: Event, p: Packet)
    requires WellFormed(g) && StateOk(g, net) && Enabled(g, net, e) && e.Deliver? && p == net.flight[e.index]
    ensures PacketOk(net.nodes, p) && NodeOk(net.nodes, net.nodes[p.dst]) && StateOk(g, Step(g, net, e))
  {
    hide WellFormed, Answer, NodeOk, PacketOk;
    assert p in net.flight && NodeOkAt(net.nodes, p.dst);
    var net' := Step(g, net, e);
    HandledNodeOk(net.nodes, p, e.now);
    forall q | q in Answer(net.nodes[p.dst], g.peers[p.dst], p)
      ensures PacketOk(net'.nodes, q)
    {
      AnswersOk(g, net.nodes, net'.nodes, p, q);
    }
    StateKept(g, net, net', p.dst);
  }

  lemma DeliverKeepsInv(g: Graph, net: Net, e: Event)
    requires WellFormed(g) && Inv(g, net) && Enabled(g, net, e) && e.Deliver?
    ensures Inv(g, Step(g, net, e))
  {
    hide OnItsWay, WellFormed, Covered, Answer, NodeOk, PacketOk;
    var net' := Step(g, net, e);
    var p := net.flight[e.index];
    assert p in net.flight;
    HandledOk(g, net, e, p);
    forall v: NodeId, h: Hash | v < |net.nodes| && OnItsWay(net, v, h)
      ensures OnItsWay(net', v, h)
    {
      StillOnItsWay(g, net, e, p, v, h);
    }
    forall v: NodeId, h: Hash | h in net'.nodes[p.dst].seen && h !in net.nodes[p.dst].seen && v in g.peers[p.dst] && v < |net'.nodes|
      ensures OnItsWay(net', v, h)
    {
      AcceptedIsForwarded(g, net, e, p, v);
    }
    CoverKept(g, net, net', p.dst);
  }

  // Timing out -----------------------------------------------------------------

  lemma {:induction false} TickPacketsExact(n: Node, me: NodeId, now: nat, timeout: nat, order: seq<Hash>)
    requires forall h | h in order :: h in n.pending
    ensures forall p :: p in TickPackets(n, me, now, timeout, order)
              <==> exists h :: h in order && TimedOut(n, h, now, timeout) && p == Packet(me, n.pending[h].from, IWant(h))
    decreases |order|
  {
    if order != [] {
      TickPacketsExact(n, me, now, timeout, order[..|order| - 1]);
    }
  }

  lemma TickLosesNothing(g: Graph, net: Net, e: Event, v: NodeId, h: Hash)
    requires Enabled(g, net, e) && e.Tick? && v < |net.nodes| && OnItsWay(net, v, h)
    ensures OnItsWay(Step(g, net, e), v, h)
  {
    var u, n := e.node, net.nodes[e.node];
    var sent := TickPackets(n, u, e.now, g.config.lazyTimeout, e.order);
    var net' := Step(g, net, e);
    if v == u && h in n.pending && h !in n.seen && h !in net'.nodes[u].pending {
      TickPacketsExact(n, u, e.now, g.config.lazyTimeout, e.order);
      var ask := Packet(u, n.pending[h].from, IWant(h));
      assert h in e.order && TimedOut(n, h, e.now, g.config.lazyTimeout);
      assert ask in sent;
      assert ask in net'.flight && Brings(ask, v, h);
    } else if h !in net.nodes[v].seen && h !in net.nodes[v].pending {
      var q :| q in net.flight && Brings(q, v, h);
      assert q in net'.flight;
    }
  }

  lemma TickedOk(g: Graph, net: Net, e: Event)
    requires StateOk(g, net) && Enabled(g, net, e) && e.Tick?
    ensures StateOk(g, Step(g, net, e))
  {
    hide TickPackets, PacketOk;
    var net' := Step(g, net, e);
    var u, n := e.node, net.nodes[e.node];
    assert NodeOkAt(net.nodes, u);
    NodeStays(net.nodes, net'.nodes, n);
    forall p | p in TickPackets(n, u, e.now, g.config.lazyTimeout, e.order)
      ensures PacketOk(net'.nodes, p)
    {
      TickPacketsExact(n, u, e.now, g.config.lazyTimeout, e.order);
      var h :| h in e.order && TimedOut(n, h, e.now, g.config.lazyTimeout) && p == Packet(u, n.pending[h].from, IWant(h));
      AskOk(net'.nodes, p, h);
    }
    StateKept(g, net, net', u);
  }

  lemma AskOk(nodes: seq<Node>, p: Packet, h: Hash)
    requires p.src < |nodes| && p.envelope == IWant(h) && HasSeen(nodes, p.dst, h)
    ensures PacketOk(nodes, p)
  {}

  lemma TickKeepsInv(g: Graph, net: Net, e: Event)
    requires WellFormed(g) && Inv(g, net) && Enabled(g, net, e) && e.Tick?
    ensures Inv(g, Step(g, net, e))
  {
    hide OnItsWay, WellFormed, Covered, TickPackets, PacketOk, NodeOk;
    var net' := Step(g, net, e);
    TickedOk(g, net, e);
    forall v: NodeId, h: Hash | v < |net.nodes| && OnItsWay(net, v, h)
      ensures OnItsWay(net', v, h)
    {
      TickLosesNothing(g, net, e, v, h);
    }
    CoverKept(g, net, net', e.node);
  }

  // Runs -------------------------------------------------------------------------

  lemma StepKeepsInv(g: Graph, net: Net, e: Event)
    requires WellFormed(g) && Inv(g, net) && Enabled(g, net, e)
    ensures Inv(g, Step(g, net, e))
  {
    match e {
      case Publish(_, _, _, _) => PublishKeepsInv(g, net, e);
      case Deliver(_, _) => DeliverKeepsInv(g, net, e);
      case Tick(_, _, _) => TickKeepsInv(g, net, e);
    }
  }

  ghost predicate Fresh(g: Graph, net: Net) {
    && |net.nodes| == |g.peers| && net.flight == []
    && forall u | 0 <= u < |net.nodes| ::
         net.nodes[u] == Node(net.nodes[u].topics, {}, map[], map[], [])
  }

  lemma FreshIsInv(g: Graph, net: Net)
    requires Fresh(g, net)
    ensures Inv(g, net)
  {}

  /** The state after a run; an event that is not enabled changes nothing. */
  ghost function Run(g: Graph, net: Net, events: seq<Event>): Net
    decreases |events|
  {
    if events == [] then net
    else
      var before := Run(g, net, events[..|events| - 1]);
      if Enabled(g, before, events[|events| - 1]) then Step(g, before, events[|events| - 1]) else before
  }

  lemma {:induction false} RunsKeepInv(g: Graph, net: Net, events: seq<Event>)
    requires WellFormed(g) && Inv(g, net)
    ensures Inv(g, Run(g, net, events))
    decreases |events|
  {
    if events != [] {
      var before := Run(g, net, events[..|events| - 1]);
      RunsKeepInv(g, net, events[..|events| - 1]);
      if Enabled(g, before, events[|events| - 1]) {
        StepKeepsInv(g, before, events[|events| - 1]);
      }
    }
  }

  // Delivery ---------------------------------------------------------------------

  ghost predicate Quiescent(net: Net) {
    net.flight == [] && forall u | 0 <= u < |net.nodes| :: net.nodes[u].pending == map[]
  }

  ghost predicate IsPath(g: Graph, path: seq<NodeId>) {
    && path != []
    && (forall i | 0 <= i < |path| :: path[i] < |g.peers|)
    && forall i | 0 <= i < |path| - 1 :: path[i + 1] in g.peers[path[i]]
  }

  ghost predicate Joined(g: Graph, u: NodeId, v: NodeId) {
    exists path :: IsPath(g, path) && path[0] == u && path[|path| - 1] == v
  }

  ghost predicate Connected(g: Graph) {
    forall u: NodeId, v: NodeId | u < |g.peers| && v < |g.peers| :: Joined(g, u, v)
  }

  lemma PeerHasSeen(g: Graph, net: Net, u: NodeId, v: NodeId, h: Hash)
    requires Inv(g, net) && Quiescent(net) && HasSeen(net.nodes, u, h) && v in g.peers[u] && v < |g.peers|
    ensures HasSeen(net.nodes, v, h)
  {}

  lemma {:induction false} SpreadsAlong(g: Graph, net: Net, path: seq<NodeId>, h: Hash)
    requires Inv(g, net) && Quiescent(net) && IsPath(g, path) && HasSeen(net.nodes, path[0], h)
    ensures HasSeen(net.nodes, path[|path| - 1], h)
    decreases |path|
  {
    hide Inv, Quiescent;
    if |path| > 1 {
      PeerHasSeen(g, net, path[0], path[1], h);
      SpreadsAlong(g, net, path[1..], h);
    }
  }

  /**
    On a connected graph, when nothing is in flight and no announcement is
    pending, every node has seen everything any node has seen.
   */
  lemma EveryoneHasSeen(g: Graph, net: Net, events: seq<Event>, u: NodeId, v: NodeId, h: Hash)
    requires WellFormed(g) && Connected(g) && Fresh(g, net)
    requires Quiescent(Run(g, net, events))
    requires HasSeen(Run(g, net, events).nodes, u, h) && v < |g.peers|
    ensures HasSeen(Run(g, net, events).nodes, v, h)
  {
    hide WellFormed, Quiescent, Run, Covered, NodeOk, PacketOk;
    FreshIsInv(g, net);
    RunsKeepInv(g, net, events);
    assert Joined(g, u, v);
    var path :| IsPath(g, path) && path[0] == u && path[|path| - 1] == v;
    SpreadsAlong(g, Run(g, net, events), path, h);
  }

  // At most once -----------------------------------------------------------------

  /** What the receive path of `u` did about `h`: packets sent and messages handed to subscribers. */
  datatype Reaction = Reaction(sent: seq<Packet>, handed: seq<Message>)

  ghost function Reactions(g: Graph, net: Net, events: seq<Event>, u: NodeId, h: Hash): Reaction
    decreases |events|
  {
    if events == [] then Reaction([], [])
    else
      var shorter, e := events[..|events| - 1], events[|events| - 1];
      var before, past := Run(g, net, shorter), Reactions(g, net, shorter, u, h);
      if Enabled(g, before, e) && e.Deliver? && Floods(before.flight[e.index], u, h) then
        var p, n := before.flight[e.index], before.nodes[u];
        Reaction(past.sent + Answer(n, g.peers[u], p), past.handed + Handle(n, p, e.now).inbox[|n.inbox|..])
      else past
  }

  /** A full message of `h` for `u`. */
  predicate Floods(p: Packet, u: NodeId, h: Hash) {
    p.dst == u && p.envelope.FullMessage? && p.envelope.wire.contentHash == h
  }

  /** One copy of one message to each peer but its sender, its origin and `u`, and one delivery. */
  ghost predicate FloodedOnce(g: Graph, u: NodeId, h: Hash, r: Reaction, wire: Wire, sender: NodeId)
    requires u < |g.peers|
  {
    && wire.contentHash == h && (r.handed == [] || r.handed == [MessageOf(wire)])
    && r.sent == SendAll(u, ForwardTargets(g.peers[u], sender, wire.origin, u), FullMessage(wire))
  }

  /** In every run a node's receive path floods a content at most once and delivers it at most once. */
  lemma {:induction false} AtMostOnce(g: Graph, net: Net, events: seq<Event>, u: NodeId, h: Hash)
    requires Fresh(g, net) && u < |g.peers|
    ensures var r := Reactions(g, net, events, u, h);
            || r == Reaction([], [])
            || (HasSeen(Run(g, net, events).nodes, u, h) && exists wire, sender :: FloodedOnce(g, u, h, r, wire, sender))
    decreases |events|
  {
    hide Fresh, ForwardTargets, SendAll;
    if events != [] {
      var shorter, e := events[..|events| - 1], events[|events| - 1];
      var before, past := Run(g, net, shorter), Reactions(g, net, shorter, u, h);
      AtMostOnce(g, net, shorter, u, h);
      if Enabled(g, before, e) {
        StepLearns(g, before, e, u, h);
        if e.Deliver? && Floods(before.flight[e.index], u, h) {
          OneReaction(g, before, e, u, h, past);
          assert past.sent + [] == past.sent && past.handed + [] == past.handed;
          if HasSeen(before.nodes, u, h) {
            assert Reactions(g, net, events, u, h) == past;
          }
        }
      }
    }
  }

  /** The first full message is flooded and delivered; after that the content is seen and nothing follows. */
  lemma OneReaction(g: Graph, net: Net, e: Event, u: NodeId, h: Hash, past: Reaction)
    requires Enabled(g, net, e) && e.Deliver? && Floods(net.flight[e.index], u, h)
    requires past == Reaction([], []) || HasSeen(net.nodes, u, h)
    ensures HasSeen(Step(g, net, e).nodes, u, h)
    ensures var p, n := net.flight[e.index], net.nodes[u];
            var sent, handed := Answer(n, g.peers[u], p), Handle(n, p, e.now).inbox[|n.inbox|..];
            if HasSeen(net.nodes, u, h) then sent == [] && handed == []
            else FloodedOnce(g, u, h, Reaction(past.sent + sent, past.handed + handed), p.envelope.wire, p.src)
  {}

  lemma StepLearns(g: Graph, net: Net, e: Event, u: NodeId, h: Hash)
    requires Enabled(g, net, e)
    ensures HasSeen(net.nodes, u, h) ==> HasSeen(Step(g, net, e).nodes, u, h)
  {}

  /** No position of the peer list gets a second copy. */
  lemma CopiesPerPeer(g: Graph, net: Net, events: seq<Event>, u: NodeId, h: Hash, v: NodeId)
    requires Fresh(g, net) && u < |g.peers|
    ensures multiset(Targets(Reactions(g, net, events, u, h).sent))[v] <= multiset(g.peers[u])[v]
  {
    hide Reactions, Fresh, ForwardTargets;
    AtMostOnce(g, net, events, u, h);
    var r := Reactions(g, net, events, u, h);
    if r.sent != [] {
      var wire, sender :| FloodedOnce(g, u, h, r, wire, sender);
      assert Targets(r.sent) == ForwardTargets(g.peers[u], sender, wire.origin, u);
      TargetsArePeers(g.peers[u], sender, wire.origin, u);
    }
  }

  function Targets(packets: seq<Packet>): seq<NodeId> {
    seq(|packets|, i requires 0 <= i < |packets| => packets[i].dst)
  }

  lemma {:induction false} TargetsArePeers(peers: seq<NodeId>, sender: NodeId, origin: NodeId, me: NodeId)
    ensures multiset(ForwardTargets(peers, sender, origin, me)) <= multiset(peers)
    decreases |peers|
  {
    if peers != [] {
      var k := |peers| - 1;
      assert peers == peers[..k] + [peers[k]];
      TargetsArePeers(peers[..k], sender, origin, me);
    }
  }
}
