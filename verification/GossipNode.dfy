/** One gossip node: its handlers as transitions (crates/ephemera-gossip/src/service.rs). */
module GossipNode {
  import opened ByteOrder
  import opened Fanout

  /** A BLAKE3 hash, determined by and determining the payload. */
  datatype Hash = Hash(payload: Bytes)

  datatype Wire = Wire(topic: Bytes, payload: Bytes, contentHash: Hash, origin: NodeId)

  datatype Envelope =
    | FullMessage(wire: Wire)
    | IHave(topic: Bytes, contentHash: Hash, origin: NodeId)
    | IWant(contentHash: Hash)

  /** An envelope on its way from `src` to `dst`. */
  datatype Packet = Packet(src: NodeId, dst: NodeId, envelope: Envelope)

  datatype Pending = Pending(from: NodeId, receivedAt: nat)

  /** What a local subscriber gets. */
  datatype Message = Message(topic: Bytes, payload: Bytes, contentHash: Hash, source: NodeId)

  /** The shared state of a service; `inbox` is what was sent to its subscribers so far. */
  datatype Node = Node(
    topics: set<Bytes>,
    seen: set<Hash>,
    cache: map<Hash, Wire>,
    pending: map<Hash, Pending>,
    inbox: seq<Message>)

  // Outgoing packets ---------------------------------------------------------

  function SendAll(src: NodeId, peers: seq<NodeId>, envelope: Envelope): (r: seq<Packet>)
    ensures |r| == |peers|
    ensures forall i | 0 <= i < |r| :: r[i] == Packet(src, peers[i], envelope)
  {
    seq(|peers|, i requires 0 <= i < |peers| => Packet(src, peers[i], envelope))
  }

  /** The peers a publisher's fanout did not reach. */
  function Uncovered(peers: seq<NodeId>, covered: set<NodeId>): (r: seq<NodeId>)
    ensures forall p :: p in r <==> p in peers && p !in covered
  {
    if peers == [] then []
    else
      var rest := Uncovered(peers[..|peers| - 1], covered);
      if peers[|peers| - 1] in covered then rest else rest + [peers[|peers| - 1]]
  }

  /** The peers a message is flooded to: not its sender, its origin, or ourselves. */
  function ForwardTargets(peers: seq<NodeId>, sender: NodeId, origin: NodeId, me: NodeId): (r: seq<NodeId>)
    ensures |r| <= |peers|
    ensures forall p :: p in r <==> p in peers && p != sender && p != origin && p != me
  {
    if peers == [] then []
    else
      var rest := ForwardTargets(peers[..|peers| - 1], sender, origin, me);
      var p := peers[|peers| - 1];
      if p == sender || p == origin || p == me then rest else rest + [p]
  }

  // Transitions --------------------------------------------------------------

  function PublishedWire(me: NodeId, topic: Bytes, payload: Bytes): Wire {
    Wire(topic, payload, Hash(payload), me)
  }

  function MessageOf(wire: Wire): Message {
    Message(wire.topic, wire.payload, wire.contentHash, wire.origin)
  }

  /** The subscriber of the wire's topic, if any, gets its message. */
  function Handed(n: Node, wire: Wire): seq<Message> {
    if wire.topic in n.topics then [MessageOf(wire)] else []
  }

  function Published(n: Node, me: NodeId, topic: Bytes, payload: Bytes): Node {
    var wire := PublishedWire(me, topic, payload);
    n.(seen := n.seen + {wire.contentHash}, cache := n.cache[wire.contentHash := wire], inbox := n.inbox + Handed(n, wire))
  }

  function PublishPackets(me: NodeId, topic: Bytes, payload: Bytes, peers: seq<NodeId>, shuffled: seq<NodeId>, config: FanoutConfig)
    : seq<Packet>
  {
    var (eager, lazy) := SelectFanout(shuffled, config);
    var full := FullMessage(PublishedWire(me, topic, payload));
    var ihave := IHave(topic, Hash(payload), me);
    SendAll(me, eager, full) + SendAll(me, lazy, ihave)
    + (if |eager| + |lazy| < |peers|
       then SendAll(me, Uncovered(peers, (set p | p in eager) + (set p | p in lazy)), ihave)
       else [])
  }

  function AfterFull(n: Node, wire: Wire): Node {
    var h := wire.contentHash;
    if h in n.seen then n
    else n.(seen := n.seen + {h}, pending := n.pending - {h}, cache := n.cache[h := wire],
            inbox := n.inbox + Handed(n, wire))
  }

  function FullPackets(n: Node, me: NodeId, peers: seq<NodeId>, wire: Wire, sender: NodeId): seq<Packet> {
    if wire.contentHash in n.seen then []
    else SendAll(me, ForwardTargets(peers, sender, wire.origin, me), FullMessage(wire))
  }

  function AfterIHave(n: Node, h: Hash, sender: NodeId, now: nat): Node {
    if h in n.seen || h in n.pending then n else n.(pending := n.pending[h := Pending(sender, now)])
  }

  function IWantPackets(n: Node, me: NodeId, h: Hash, sender: NodeId): seq<Packet> {
    if h in n.cache then [Packet(me, sender, FullMessage(n.cache[h]))] else []
  }

  predicate TimedOut(n: Node, h: Hash, now: nat, timeout: nat)
    requires h in n.pending
  {
    h !in n.seen && n.pending[h].receivedAt + timeout <= now
  }

  /** A tick drops announcements we already have and those that timed out ... */
  predicate Drops(n: Node, h: Hash, now: nat, timeout: nat) {
    h in n.pending && (h in n.seen || TimedOut(n, h, now, timeout))
  }

  function AfterTick(n: Node, now: nat, timeout: nat): Node {
    n.(pending := map h | h in n.pending && !Drops(n, h, now, timeout) :: n.pending[h])
  }

  /** ... and asks for the latter, in the order the map is iterated. */
  function TickPackets(n: Node, me: NodeId, now: nat, timeout: nat, order: seq<Hash>): seq<Packet>
    requires forall h | h in order :: h in n.pending
  {
    if order == [] then []
    else
      var h := order[|order| - 1];
      TickPackets(n, me, now, timeout, order[..|order| - 1])
      + (if TimedOut(n, h, now, timeout) then [Packet(me, n.pending[h].from, IWant(h))] else [])
  }

  /** `order` lists the keys of the pending map, each once. */
  ghost predicate Enumerates(order: seq<Hash>, n: Node) {
    && (forall h :: h in order <==> h in n.pending)
    && (forall i, j | 0 <= i < j < |order| :: order[i] != order[j])
  }

  // The mutable service ------------------------------------------------------

  class GossipService {
    const localId: NodeId
    const config: FanoutConfig
    var topics: set<Bytes>
    var seen: set<Hash>
    var messageCache: map<Hash, Wire>
    var pendingIHaves: map<Hash, Pending>
    var inbox: seq<Message>

    ghost function Value(): Node
      reads this
    {
      Node(topics, seen, messageCache, pendingIHaves, inbox)
    }

    constructor (localId: NodeId, config: FanoutConfig, topics: set<Bytes>)
      ensures this.localId == localId && this.config == config
      ensures Value() == Node(topics, {}, map[], map[], [])
    {
      this.localId, this.config, this.topics := localId, config, topics;
      seen, messageCache, pendingIHaves, inbox := {}, map[], map[], [];
    }

    method Push(peers: seq<NodeId>, envelope: Envelope) returns (sent: seq<Packet>)
      ensures sent == SendAll(localId, peers, envelope)
    {
      sent := [];
      for i := 0 to |peers|
        invariant sent == SendAll(localId, peers[..i], envelope)
      {
        sent := sent + [Packet(localId, peers[i], envelope)];
      }
    }

    method Publish(topic: Bytes, payload: Bytes, peers: seq<NodeId>, shuffled: seq<NodeId>) returns (sent: seq<Packet>)
      modifies this
      ensures Value() == Published(old(Value()), localId, topic, payload)
      ensures sent == PublishPackets(localId, topic, payload, peers, shuffled, config)
    {
      var contentHash := Hash(payload);
      seen := seen + {contentHash};
      var wire := Wire(topic, payload, contentHash, localId);
      messageCache := messageCache[contentHash := wire];
      var ihave := IHave(topic, contentHash, localId);
      if topic in topics {
        inbox := inbox + [Message(topic, payload, contentHash, localId)];
      }
      var (eager, lazy) := SelectFanout(shuffled, config);
      var pushed := Push(eager, FullMessage(wire));
      var announced := Push(lazy, ihave);
      sent := pushed + announced;
      if |eager| + |lazy| < |peers| {
        var overflow := PushUncovered(peers, (set p | p in eager) + (set p | p in lazy), ihave);
        sent := sent + overflow;
      } else {
        assert sent + [] == sent;
      }
    }

    method PushUncovered(peers: seq<NodeId>, covered: set<NodeId>, ihave: Envelope) returns (sent: seq<Packet>)
      ensures sent == SendAll(localId, Uncovered(peers, covered), ihave)
    {
      sent := [];
      for i := 0 to |peers|
        invariant sent == SendAll(localId, Uncovered(peers[..i], covered), ihave)
      {
        assert peers[..i + 1][..i] == peers[..i];
        if peers[i] !in covered {
          sent := sent + [Packet(localId, peers[i], ihave)];
        }
      }
      assert peers[..|peers|] == peers;
    }

    method HandleFullMessage(wire: Wire, sender: NodeId, peers: seq<NodeId>) returns (sent: seq<Packet>)
      modifies this
      ensures Value() == AfterFull(old(Value()), wire)
      ensures sent == FullPackets(old(Value()), localId, peers, wire, sender)
    {
      sent := [];
      if wire.contentHash in seen {
        return;
      }
      seen := seen + {wire.contentHash};
      pendingIHaves := pendingIHaves - {wire.contentHash};
      messageCache := messageCache[wire.contentHash := wire];
      if wire.topic in topics {
        inbox := inbox + [Message(wire.topic, wire.payload, wire.contentHash, wire.origin)];
      }
      for i := 0 to |peers|
        invariant sent == SendAll(localId, ForwardTargets(peers[..i], sender, wire.origin, localId), FullMessage(wire))
        invariant Value() == AfterFull(old(Value()), wire)
      {
        assert peers[..i + 1][..i] == peers[..i];
        if peers[i] == sender || peers[i] == wire.origin || peers[i] == localId {
          continue;
        }
        sent := sent + [Packet(localId, peers[i], FullMessage(wire))];
      }
      assert peers[..|peers|] == peers;
    }

    method HandleIHave(contentHash: Hash, sender: NodeId, now: nat)
      modifies this
      ensures Value() == AfterIHave(old(Value()), contentHash, sender, now)
    {
      if contentHash in seen {
        return;
      }
      if contentHash !in pendingIHaves {
        pendingIHaves := pendingIHaves[contentHash := Pending(sender, now)];
      }
    }

    method HandleIWant(contentHash: Hash, sender: NodeId) returns (sent: seq<Packet>)
      ensures sent == IWantPackets(Value(), localId, contentHash, sender)
    {
      sent := [];
      if contentHash in messageCache {
        sent := [Packet(localId, sender, FullMessage(messageCache[contentHash]))];
      }
    }

    method LazyTimeoutTick(now: nat, order: seq<Hash>) returns (sent: seq<Packet>)
      requires Enumerates(order, Value())
      modifies this
      ensures Value() == AfterTick(old(Value()), now, config.lazyTimeout)
      ensures sent == TickPackets(old(Value()), localId, now, config.lazyTimeout, order)
    {
      ghost var start := Value();
      sent := [];
      var expired: set<Hash> := {};
      for i := 0 to |order|
        invariant Value() == start
        invariant sent == TickPackets(start, localId, now, config.lazyTimeout, order[..i])
        invariant forall h :: h in expired <==> h in order[..i] && Drops(start, h, now, config.lazyTimeout)
      {
        var h := order[i];
        assert order[..i + 1] == order[..i] + [h];
        if h in seen {
          expired := expired + {h};
        } else if pendingIHaves[h].receivedAt + config.lazyTimeout <= now {
          sent := sent + [Packet(localId, pendingIHaves[h].from, IWant(h))];
          expired := expired + {h};
        }
      }
      assert order[..|order|] == order;
      pendingIHaves := pendingIHaves - expired;
      assert pendingIHaves == AfterTick(start, now, config.lazyTimeout).pending;
    }
  }
}
