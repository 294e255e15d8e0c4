/** What subscribers get, where it comes from, and when content is asked for. */
module GossipDelivery {
  import opened ByteOrder
  import opened Numbers
  import opened Fanout
  import opened GossipNode
  import opened GossipNetwork

  // Provenance -----------------------------------------------------------------------

  /** Event `k` of the run published the wire's content under its topic at its origin. */
  ghost predicate PublishedBy(g: Graph, net: Net, events: seq<Event>, k: nat, wire: Wire)
    requires k < |events|
  {
    && events[k].Publish? && Enabled(g, Run(g, net, events[..k]), events[k])
    && events[k].node == wire.origin && events[k].topic == wire.topic && events[k].payload == wire.payload
  }

  /** The wire carries its payload's own hash and was published. */
  ghost predicate Genuine(g: Graph, net: Net, events: seq<Event>, wire: Wire) {
    && wire.contentHash == Hash(wire.payload)
    && exists k | 0 <= k < |events| :: PublishedBy(g, net, events, k, wire)
  }

  ghost predicate GenuineNode(g: Graph, net: Net, events: seq<Event>, n: Node) {
    && (forall h | h in n.cache :: n.cache[h].contentHash == h && Genuine(g, net, events, n.cache[h]))
    && (forall m | m in n.inbox :: m.topic in n.topics && Genuine(g, net, events, Wire(m.topic, m.payload, m.contentHash, m.source)))
  }

  ghost predicate GenuinePacket(g: Graph, net: Net, events: seq<Event>, p: Packet) {
    p.envelope.FullMessage? ==> Genuine(g, net, events, p.envelope.wire)
  }

  /** What a subscriber of the cached wire's topic must have got. */
  ghost predicate Served(n: Node) {
    forall h | h in n.cache && n.cache[h].topic in n.topics ::
      Message(n.cache[h].topic, n.cache[h].payload, h, n.cache[h].origin) in n.inbox
  }

  ghost predicate NodeGood(g: Graph, net: Net, events: seq<Event>, nodes: seq<Node>, u: NodeId)
    requires u < |nodes|
  {
    GenuineNode(g, net, events, nodes[u]) && Served(nodes[u])
  }

  ghost predicate AllGood(g: Graph, net: Net, events: seq<Event>, now: Net) {
    && (forall u: NodeId | u < |now.nodes| :: NodeGood(g, net, events, now.nodes, u))
    && (forall p | p in now.flight :: GenuinePacket(g, net, events, p))
  }

  lemma GenuineStays(g: Graph, net: Net, events: seq<Event>, e: Event, wire: Wire)
    requires Genuine(g, net, events, wire)
    ensures Genuine(g, net, events + [e], wire)
  {
    var k :| 0 <= k < |events| && PublishedBy(g, net, events, k, wire);
    assert (events + [e])[..k] == events[..k];
    assert PublishedBy(g, net, events + [e], k, wire);
  }

  lemma NodeStaysGenuine(g: Graph, net: Net, events: seq<Event>, e: Event, n: Node)
    requires GenuineNode(g, net, events, n)
    ensures GenuineNode(g, net, events + [e], n)
  {
    hide Genuine;
    forall h | h in n.cache ensures Genuine(g, net, events + [e], n.cache[h]) {
      GenuineStays(g, net, events, e, n.cache[h]);
    }
    forall m | m in n.inbox ensures Genuine(g, net, events + [e], Wire(m.topic, m.payload, m.contentHash, m.source)) {
      GenuineStays(g, net, events, e, Wire(m.topic, m.payload, m.contentHash, m.source));
    }
  }

  // One event ---------------------------------------------------------------------------

  /** Taking in a genuine wire keeps a node good. */
  lemma TakesIn(g: Graph, net: Net, events: seq<Event>, n: Node, n': Node, wire: Wire)
    requires GenuineNode(g, net, events, n) && Served(n) && Genuine(g, net, events, wire)
    requires n'.topics == n.topics && n'.cache == n.cache[wire.contentHash := wire]
    requires n'.inbox == n.inbox + Handed(n, wire)
    ensures GenuineNode(g, net, events, n') && Served(n')
  {
    hide Genuine;
  }

  lemma PublishIsGenuine(g: Graph, net: Net, events: seq<Event>, e: Event)
    requires e.Publish? && Enabled(g, Run(g, net, events), e)
    ensures Genuine(g, net, events + [e], PublishedWire(e.node, e.topic, e.payload))
  {
    var all := events + [e];
    assert all[..|events|] == events && all[|events|] == e;
    assert PublishedBy(g, net, all, |events|, PublishedWire(e.node, e.topic, e.payload));
  }

  lemma PublishPacketsGenuine(g: Graph, net: Net, events: seq<Event>, u: NodeId, topic: Bytes, payload: Bytes,
                              peers: seq<NodeId>, shuffled: seq<NodeId>, p: Packet)
    requires Genuine(g, net, events, PublishedWire(u, topic, payload))
    requires p in PublishPackets(u, topic, payload, peers, shuffled, g.config)
    ensures GenuinePacket(g, net, events, p)
  {
    hide Genuine;
  }

  lemma AnswerIsGenuine(g: Graph, net: Net, events: seq<Event>, n: Node, peers: seq<NodeId>, p: Packet, q: Packet)
    requires GenuineNode(g, net, events, n) && GenuinePacket(g, net, events, p) && q in Answer(n, peers, p)
    ensures GenuinePacket(g, net, events, q)
  {
    hide Genuine;
  }

  lemma {:induction false} TickSendsNoContent(n: Node, me: NodeId, now: nat, timeout: nat, order: seq<Hash>, p: Packet)
    requires (forall h | h in order :: h in n.pending) && p in TickPackets(n, me, now, timeout, order)
    ensures p.envelope.IWant?
    decreases |order|
  {
    var k := |order| - 1;
    if k >= 0 && p in TickPackets(n, me, now, timeout, order[..k]) {
      TickSendsNoContent(n, me, now, timeout, order[..k], p);
    }
  }

  lemma NodesStayGood(g: Graph, net: Net, events: seq<Event>, now: Net, e: Event)
    requires AllGood(g, net, events, now)
    ensures AllGood(g, net, events + [e], now)
  {
    hide GenuineNode, Served, Genuine;
    forall u: NodeId | u < |now.nodes| ensures NodeGood(g, net, events + [e], now.nodes, u) {
      assert NodeGood(g, net, events, now.nodes, u);
      NodeStaysGenuine(g, net, events, e, now.nodes[u]);
    }
    forall p | p in now.flight ensures GenuinePacket(g, net, events + [e], p) {
      if p.envelope.FullMessage? { GenuineStays(g, net, events, e, p.envelope.wire); }
    }
  }

  /** Replacing one node by a good one and adding genuine packets. */
  lemma UpdateStaysGood(g: Graph, net: Net, events: seq<Event>, now: Net, now': Net, u: NodeId, n: Node)
    requires AllGood(g, net, events, now) && u < |now.nodes| && now'.nodes == now.nodes[u := n]
    requires GenuineNode(g, net, events, n) && Served(n)
    requires forall p | p in now'.flight :: p in now.flight || GenuinePacket(g, net, events, p)
    ensures AllGood(g, net, events, now')
  {
    hide GenuineNode, Served, GenuinePacket;
    forall v: NodeId | v < |now'.nodes| ensures NodeGood(g, net, events, now'.nodes, v) {
      if v != u { assert NodeGood(g, net, events, now.nodes, v); }
    }
  }

  lemma StepStaysGood(g: Graph, net: Net, events: seq<Event>, now: Net, e: Event)
    requires AllGood(g, net, events, now) && now == Run(g, net, events) && Enabled(g, now, e)
    ensures AllGood(g, net, events + [e], Step(g, now, e))
  {
    hide GenuineNode, Served, GenuinePacket, Genuine, Run, PublishPackets, Answer, TickPackets, Handle, Published;
    var all := events + [e];
    NodesStayGood(g, net, events, now, e);
    match e {
      case Publish(u, topic, payload, shuffled) =>
        PublishIsGenuine(g, net, events, e);
        assert NodeGood(g, net, all, now.nodes, u);
        PublisherTakesIn(g, net, all, now.nodes[u], u, topic, payload);
        forall p | p in PublishPackets(u, topic, payload, g.peers[u], shuffled, g.config) ensures GenuinePacket(g, net, all, p) {
          PublishPacketsGenuine(g, net, all, u, topic, payload, g.peers[u], shuffled, p);
        }
        UpdateStaysGood(g, net, all, now, Step(g, now, e), u, Published(now.nodes[u], u, topic, payload));
      case Deliver(i, time) =>
        var p := now.flight[i];
        assert p in now.flight && NodeGood(g, net, all, now.nodes, p.dst);
        HandlerTakesIn(g, net, all, now.nodes[p.dst], p, time);
        forall q | q in Answer(now.nodes[p.dst], g.peers[p.dst], p) ensures GenuinePacket(g, net, all, q) {
          AnswerIsGenuine(g, net, all, now.nodes[p.dst], g.peers[p.dst], p, q);
        }
        assert forall q | q in Without(now.flight, i) :: q in now.flight;
        UpdateStaysGood(g, net, all, now, Step(g, now, e), p.dst, Handle(now.nodes[p.dst], p, time));
      case Tick(u, time, order) =>
        assert NodeGood(g, net, all, now.nodes, u);
        var n' := AfterTick(now.nodes[u], time, g.config.lazyTimeout);
        TickKeepsNode(g, net, all, now.nodes[u], time, g.config.lazyTimeout);
        forall p | p in TickPackets(now.nodes[u], u, time, g.config.lazyTimeout, order) ensures GenuinePacket(g, net, all, p) {
          TickSendsNoContent(now.nodes[u], u, time, g.config.lazyTimeout, order, p);
          NoContentIsGenuine(g, net, all, p);
        }
        UpdateStaysGood(g, net, all, now, Step(g, now, e), u, n');
    }
  }

  lemma NoContentIsGenuine(g: Graph, net: Net, events: seq<Event>, p: Packet)
    requires p.envelope.IWant?
    ensures GenuinePacket(g, net, events, p)
  {}

  lemma PublisherTakesIn(g: Graph, net: Net, events: seq<Event>, n: Node, u: NodeId, topic: Bytes, payload: Bytes)
    requires GenuineNode(g, net, events, n) && Served(n) && Genuine(g, net, events, PublishedWire(u, topic, payload))
    ensures GenuineNode(g, net, events, Published(n, u, topic, payload)) && Served(Published(n, u, topic, payload))
  {
    hide Genuine, GenuineNode, Served;
    TakesIn(g, net, events, n, Published(n, u, topic, payload), PublishedWire(u, topic, payload));
  }

  lemma HandlerTakesIn(g: Graph, net: Net, events: seq<Event>, n: Node, p: Packet, now: nat)
    requires GenuineNode(g, net, events, n) && Served(n) && GenuinePacket(g, net, events, p)
    ensures GenuineNode(g, net, events, Handle(n, p, now)) && Served(Handle(n, p, now))
  {
    hide Genuine;
    if p.envelope.FullMessage? && p.envelope.wire.contentHash !in n.seen {
      TakesIn(g, net, events, n, Handle(n, p, now), p.envelope.wire);
    }
  }

  lemma TickKeepsNode(g: Graph, net: Net, events: seq<Event>, n: Node, now: nat, timeout: nat)
    requires GenuineNode(g, net, events, n) && Served(n)
    ensures GenuineNode(g, net, events, AfterTick(n, now, timeout)) && Served(AfterTick(n, now, timeout))
  {
    hide Genuine;
  }

  // Runs ------------------------------------------------------------------------------------

  lemma {:induction false} RunsStayGood(g: Graph, net: Net, events: seq<Event>)
    requires Fresh(g, net)
    ensures AllGood(g, net, events, Run(g, net, events))
    decreases |events|
  {
    hide Step, Enabled, NodeGood, GenuinePacket;
    if events == [] {
      FreshIsGood(g, net);
    } else {
      var shorter, e := events[..|events| - 1], events[|events| - 1];
      assert events == shorter + [e];
      RunsStayGood(g, net, shorter);
      if Enabled(g, Run(g, net, shorter), e) {
        StepStaysGood(g, net, shorter, Run(g, net, shorter), e);
      } else {
        NodesStayGood(g, net, shorter, Run(g, net, shorter), e);
      }
    }
  }

  lemma FreshIsGood(g: Graph, net: Net)
    requires Fresh(g, net)
    ensures AllGood(g, net, [], net)
  {
    forall u: NodeId | u < |net.nodes| ensures NodeGood(g, net, [], net.nodes, u) {
      assert net.nodes[u] == Node(net.nodes[u].topics, {}, map[], map[], []);
    }
  }

  /**
    In every run a subscriber has got exactly the kind of content it should: the
    message of each content it holds under a topic it subscribed to, and nothing
    of another topic.
   */
  lemma SubscribersAreServed(g: Graph, net: Net, events: seq<Event>, u: NodeId)
    requires Fresh(g, net) && u < |Run(g, net, events).nodes|
    ensures var n := Run(g, net, events).nodes[u];
            && (forall h | h in n.cache && n.cache[h].topic in n.topics ::
                  Message(n.cache[h].topic, n.cache[h].payload, h, n.cache[h].origin) in n.inbox)
            && (forall m | m in n.inbox :: m.topic in n.topics)
  {
    hide Run, Genuine;
    RunsStayGood(g, net, events);
    assert NodeGood(g, net, events, Run(g, net, events).nodes, u);
  }

  /** Whatever a subscriber got was published at its source, under that topic and with that payload. */
  lemma DeliveredWasPublished(g: Graph, net: Net, events: seq<Event>, u: NodeId, m: Message)
    requires Fresh(g, net) && u < |Run(g, net, events).nodes| && m in Run(g, net, events).nodes[u].inbox
    ensures m.contentHash == Hash(m.payload)
    ensures exists k | 0 <= k < |events| ::
              && events[k].Publish? && Enabled(g, Run(g, net, events[..k]), events[k])
              && events[k].node == m.source && events[k].topic == m.topic && events[k].payload == m.payload
  {
    hide Run;
    RunsStayGood(g, net, events);
    assert NodeGood(g, net, events, Run(g, net, events).nodes, u);
    var wire := Wire(m.topic, m.payload, m.contentHash, m.source);
    assert Genuine(g, net, events, wire);
    var k :| 0 <= k < |events| && PublishedBy(g, net, events, k, wire);
  }

  // Everyone who subscribed has it ------------------------------------------------------------

  lemma StepKeeps(g: Graph, net: Net, e: Event, u: NodeId, h: Hash)
    requires Enabled(g, net, e) && u < |net.nodes|
    ensures u < |Step(g, net, e).nodes| && Step(g, net, e).nodes[u].topics == net.nodes[u].topics
    ensures h in net.nodes[u].seen ==> h in Step(g, net, e).nodes[u].seen
    ensures e.Publish? && e.node == u ==> Hash(e.payload) in Step(g, net, e).nodes[u].seen
  {}

  lemma {:induction false} TopicsStay(g: Graph, net: Net, events: seq<Event>, u: NodeId)
    requires u < |net.nodes|
    ensures u < |Run(g, net, events).nodes| && Run(g, net, events).nodes[u].topics == net.nodes[u].topics
    decreases |events|
  {
    hide Step, Enabled;
    if events != [] {
      var shorter, e := events[..|events| - 1], events[|events| - 1];
      TopicsStay(g, net, shorter, u);
      if Enabled(g, Run(g, net, shorter), e) { StepKeeps(g, Run(g, net, shorter), e, u, Hash([])); }
    }
  }

  lemma {:induction false} PublishedIsSeen(g: Graph, net: Net, events: seq<Event>, k: nat)
    requires k < |events| && events[k].Publish? && Enabled(g, Run(g, net, events[..k]), events[k])
    ensures HasSeen(Run(g, net, events).nodes, events[k].node, Hash(events[k].payload))
    decreases |events|
  {
    hide Step;
    var shorter, e := events[..|events| - 1], events[|events| - 1];
    var before, u, h := Run(g, net, shorter), events[k].node, Hash(events[k].payload);
    if k == |shorter| {
      StepKeeps(g, before, e, u, h);
    } else {
      assert shorter[..k] == events[..k];
      PublishedIsSeen(g, net, shorter, k);
      if Enabled(g, before, e) { StepKeeps(g, before, e, u, h); }
    }
  }

  /** All publications of a payload in the run are under one topic. */
  ghost predicate OneTopic(g: Graph, net: Net, events: seq<Event>, topic: Bytes, payload: Bytes) {
    forall k | 0 <= k < |events| && events[k].Publish? && Enabled(g, Run(g, net, events[..k]), events[k]) ::
      events[k].payload == payload ==> events[k].topic == topic
  }

  /**
    On a connected graph, once nothing is in flight and nothing pending, everybody
    who subscribed to a topic has got every payload published under it alone.
   */
  lemma EverySubscriberHasIt(g: Graph, net: Net, events: seq<Event>, k: nat, v: NodeId)
    requires WellFormed(g) && Connected(g) && Fresh(g, net) && Quiescent(Run(g, net, events))
    requires k < |events| && events[k].Publish? && Enabled(g, Run(g, net, events[..k]), events[k])
    requires OneTopic(g, net, events, events[k].topic, events[k].payload)
    requires v < |net.nodes| && events[k].topic in net.nodes[v].topics
    ensures v < |Run(g, net, events).nodes|
    ensures exists m | m in Run(g, net, events).nodes[v].inbox :: m.topic == events[k].topic && m.payload == events[k].payload
  {
    hide WellFormed, Connected, Quiescent, Run, Enabled;
    var h, now := Hash(events[k].payload), Run(g, net, events);
    PublishedIsSeen(g, net, events, k);
    EveryoneHasSeen(g, net, events, events[k].node, v, h);
    TopicsStay(g, net, events, v);
    FreshIsInv(g, net);
    RunsKeepInv(g, net, events);
    RunsStayGood(g, net, events);
    assert NodeOkAt(now.nodes, v) && NodeGood(g, net, events, now.nodes, v);
    var wire := now.nodes[v].cache[h];
    assert Genuine(g, net, events, wire);
    var j :| 0 <= j < |events| && PublishedBy(g, net, events, j, wire);
    assert wire.payload == events[k].payload && wire.topic == events[k].topic;
    assert Message(wire.topic, wire.payload, h, wire.origin) in now.nodes[v].inbox;
  }

  // Who gets what from a publisher ---------------------------------------------------------------

  /** How many peers are sent the content itself. */
  function EagerCount(shuffled: seq<NodeId>, config: FanoutConfig): (n: nat)
    ensures n <= |shuffled|
  {
    if config.eagerPushPeers < |shuffled| then config.eagerPushPeers else |shuffled|
  }

  /** The first peers of the shuffle get the content itself. */
  lemma EagerPeersGetContent(me: NodeId, topic: Bytes, payload: Bytes, peers: seq<NodeId>,
                             shuffled: seq<NodeId>, config: FanoutConfig, v: NodeId)
    requires v in shuffled[..EagerCount(shuffled, config)]
    ensures Packet(me, v, FullMessage(Wire(topic, payload, Hash(payload), me)))
            in PublishPackets(me, topic, payload, peers, shuffled, config)
  {
    var full := FullMessage(PublishedWire(me, topic, payload));
    var (eager, lazy) := SelectFanout(shuffled, config);
    assert eager == shuffled[..EagerCount(shuffled, config)];
    var i :| 0 <= i < |eager| && eager[i] == v;
    assert SendAll(me, eager, full)[i] in PublishPackets(me, topic, payload, peers, shuffled, config);
  }

  /** All others hear of it. */
  lemma OtherPeersHearOfIt(me: NodeId, topic: Bytes, payload: Bytes, peers: seq<NodeId>,
                           shuffled: seq<NodeId>, config: FanoutConfig, v: NodeId)
    requires multiset(shuffled) == multiset(peers) && v in peers && v !in shuffled[..EagerCount(shuffled, config)]
    ensures Packet(me, v, IHave(topic, Hash(payload), me)) in PublishPackets(me, topic, payload, peers, shuffled, config)
  {
    var ihave, sent := IHave(topic, Hash(payload), me), PublishPackets(me, topic, payload, peers, shuffled, config);
    var (eager, lazy) := SelectFanout(shuffled, config);
    assert eager == shuffled[..EagerCount(shuffled, config)];
    FullSplitCoversAll(peers, shuffled, config, v);
    if v in lazy {
      var i :| 0 <= i < |lazy| && lazy[i] == v;
      assert SendAll(me, lazy, ihave)[i] in sent;
    } else {
      var left := Uncovered(peers, (set p | p in eager) + (set p | p in lazy));
      var i :| 0 <= i < |left| && left[i] == v;
      assert SendAll(me, left, ihave)[i] in sent;
    }
  }

  /** And nothing else is sent. */
  lemma PublishSendsNothingElse(me: NodeId, topic: Bytes, payload: Bytes, peers: seq<NodeId>,
                                shuffled: seq<NodeId>, config: FanoutConfig, p: Packet)
    requires multiset(shuffled) == multiset(peers) && p in PublishPackets(me, topic, payload, peers, shuffled, config)
    ensures || (p.dst in shuffled[..EagerCount(shuffled, config)]
                && p == Packet(me, p.dst, FullMessage(Wire(topic, payload, Hash(payload), me))))
            || (p.dst in peers && p == Packet(me, p.dst, IHave(topic, Hash(payload), me)))
  {
    var (eager, lazy) := SelectFanout(shuffled, config);
    assert eager == shuffled[..EagerCount(shuffled, config)];
    if p in SendAll(me, lazy, IHave(topic, Hash(payload), me)) {
      assert p.dst in eager + lazy;
      assert p.dst in multiset(shuffled);
    }
  }

  // Asking --------------------------------------------------------------------------------------

  /** Event `k` delivered an announcement of `h` by `v` to `u` at time `t`. */
  ghost predicate AnnouncedAt(g: Graph, net: Net, events: seq<Event>, k: nat, u: NodeId, v: NodeId, h: Hash, t: nat)
    requires k < |events|
  {
    && events[k].Deliver? && events[k].now == t
    && var before := Run(g, net, events[..k]);
       && Enabled(g, before, events[k])
       && var p := before.flight[events[k].index];
          p.src == v && p.dst == u && p.envelope.IHave? && p.envelope.contentHash == h
  }

  ghost predicate Announced(g: Graph, net: Net, events: seq<Event>, u: NodeId, v: NodeId, h: Hash, t: nat) {
    exists k | 0 <= k < |events| :: AnnouncedAt(g, net, events, k, u, v, h, t)
  }

  ghost predicate PendingAnnounced(g: Graph, net: Net, events: seq<Event>, nodes: seq<Node>, u: NodeId)
    requires u < |nodes|
  {
    forall h | h in nodes[u].pending :: Announced(g, net, events, u, nodes[u].pending[h].from, h, nodes[u].pending[h].receivedAt)
  }

  lemma AnnouncedStays(g: Graph, net: Net, events: seq<Event>, e: Event, u: NodeId, v: NodeId, h: Hash, t: nat)
    requires Announced(g, net, events, u, v, h, t)
    ensures Announced(g, net, events + [e], u, v, h, t)
  {
    var k :| 0 <= k < |events| && AnnouncedAt(g, net, events, k, u, v, h, t);
    assert (events + [e])[..k] == events[..k];
    assert AnnouncedAt(g, net, events + [e], k, u, v, h, t);
  }

  /** A pending entry is an old one, or the announcement being delivered. */
  lemma PendingComesFrom(g: Graph, net: Net, e: Event, u: NodeId, h: Hash)
    requires Enabled(g, net, e) && u < |net.nodes|
    ensures u < |Step(g, net, e).nodes|
    ensures h in Step(g, net, e).nodes[u].pending ==>
              var entry := Step(g, net, e).nodes[u].pending[h];
              || (h in net.nodes[u].pending && net.nodes[u].pending[h] == entry)
              || (&& e.Deliver? && e.now == entry.receivedAt
                  && var p := net.flight[e.index];
                     p.src == entry.from && p.dst == u && p.envelope.IHave? && p.envelope.contentHash == h)
  {}

  lemma {:induction false} RunsStayAnnounced(g: Graph, net: Net, events: seq<Event>, u: NodeId)
    requires Fresh(g, net) && u < |net.nodes|
    ensures u < |Run(g, net, events).nodes| && PendingAnnounced(g, net, events, Run(g, net, events).nodes, u)
    decreases |events|
  {
    hide Step, Announced, Enabled;
    if events != [] {
      var shorter, e := events[..|events| - 1], events[|events| - 1];
      var before, now := Run(g, net, shorter), Run(g, net, events);
      assert events == shorter + [e];
      RunsStayAnnounced(g, net, shorter, u);
      if Enabled(g, before, e) { PendingComesFrom(g, before, e, u, Hash([])); }
      forall h | h in now.nodes[u].pending
        ensures Announced(g, net, events, u, now.nodes[u].pending[h].from, h, now.nodes[u].pending[h].receivedAt)
      {
        var entry := now.nodes[u].pending[h];
        if Enabled(g, before, e) { PendingComesFrom(g, before, e, u, h); }
        if h in before.nodes[u].pending && before.nodes[u].pending[h] == entry {
          AnnouncedStays(g, net, shorter, e, u, entry.from, h, entry.receivedAt);
        } else {
          NowAnnounced(g, net, shorter, e, u, entry.from, h, entry.receivedAt);
        }
      }
    }
  }

  lemma NowAnnounced(g: Graph, net: Net, events: seq<Event>, e: Event, u: NodeId, v: NodeId, h: Hash, t: nat)
    requires e.Deliver? && e.now == t && Enabled(g, Run(g, net, events), e)
    requires var p := Run(g, net, events).flight[e.index];
             p.src == v && p.dst == u && p.envelope.IHave? && p.envelope.contentHash == h
    ensures Announced(g, net, events + [e], u, v, h, t)
  {
    var all := events + [e];
    assert all[..|events|] == events && all[|events|] == e;
    assert AnnouncedAt(g, net, all, |events|, u, v, h, t);
  }

  lemma {:induction false} TickAsks(n: Node, me: NodeId, now: nat, timeout: nat, order: seq<Hash>, p: Packet)
    requires forall h | h in order :: h in n.pending
    ensures p in TickPackets(n, me, now, timeout, order) <==>
            exists h | h in order :: h !in n.seen && n.pending[h].receivedAt + timeout <= now
                                     && p == Packet(me, n.pending[h].from, IWant(h))
    decreases |order|
  {
    if order != [] {
      var k := |order| - 1;
      TickAsks(n, me, now, timeout, order[..k], p);
      assert order == order[..k] + [order[k]];
    }
  }

  /**
    In every run a tick asks exactly for the content announced and not seen, of
    the node that announced it, once the timeout has passed since.
   */
  lemma AskedAfterTimeout(g: Graph, net: Net, events: seq<Event>, e: Event, p: Packet)
    requires Fresh(g, net) && e.Tick? && Enabled(g, Run(g, net, events), e) && e.node < |net.nodes|
    requires p in TickPackets(Run(g, net, events).nodes[e.node], e.node, e.now, g.config.lazyTimeout, e.order)
    ensures p.src == e.node && p.envelope.IWant?
    ensures p.envelope.contentHash !in Run(g, net, events).nodes[e.node].seen
    ensures exists t: nat :: t + g.config.lazyTimeout <= e.now && Announced(g, net, events, e.node, p.dst, p.envelope.contentHash, t)
  {
    hide Run, Announced;
    RunsStayAnnounced(g, net, events, e.node);
    var n := Run(g, net, events).nodes[e.node];
    TickAsks(n, e.node, e.now, g.config.lazyTimeout, e.order, p);
    var h :| h in e.order && h !in n.seen && n.pending[h].receivedAt + g.config.lazyTimeout <= e.now
             && p == Packet(e.node, n.pending[h].from, IWant(h));
    assert Announced(g, net, events, e.node, p.dst, h, n.pending[h].receivedAt);
  }

  /** While content is waited for, the first announcement counts. */
  lemma FirstAnnouncementCounts(g: Graph, net: Net, e: Event, u: NodeId, h: Hash)
    requires Enabled(g, net, e) && u < |net.nodes| && h in net.nodes[u].pending && h in Step(g, net, e).nodes[u].pending
    ensures Step(g, net, e).nodes[u].pending[h] == net.nodes[u].pending[h]
  {}

  /** Content that arrives is held, and no longer waited for; what the node knows of other content stays. */
  lemma ArrivalSettlesContent(n: Node, wire: Wire, other: Hash)
    requires wire.contentHash !in n.seen && other != wire.contentHash
    ensures var n', h := AfterFull(n, wire), wire.contentHash;
            && h in n'.seen && h in n'.cache && n'.cache[h] == wire && h !in n'.pending
            && (other in n'.seen <==> other in n.seen) && (other in n'.cache <==> other in n.cache)
            && (other in n'.pending <==> other in n.pending)
            && (other in n.pending ==> n'.pending[other] == n.pending[other])
            && (other in n.cache ==> n'.cache[other] == n.cache[other])
  {}
}
