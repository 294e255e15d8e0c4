/** The eager/lazy peer split (crates/ephemera-gossip/src/fanout.rs). */
module Fanout {
  import opened Numbers

  type NodeId = nat

  datatype FanoutConfig = FanoutConfig(eagerPushPeers: nat, lazyPushPeers: nat, lazyTimeout: nat)

  /**
    The split of an already shuffled peer list: a prefix gets the full message,
    the next stretch an announcement, the rest is left to the caller.
   */
  function SelectFanout(shuffled: seq<NodeId>, config: FanoutConfig): (r: (seq<NodeId>, seq<NodeId>))
    ensures r.0 + r.1 <= shuffled
    ensures |r.0| <= config.eagerPushPeers && |r.1| <= config.lazyPushPeers
    ensures |r.0| + |r.1| < |shuffled| ==> |r.0| == config.eagerPushPeers && |r.1| == config.lazyPushPeers
  {
    var eagerCount := Min(config.eagerPushPeers, |shuffled|);
    var remaining := shuffled[eagerCount..];
    var lazyCount := Min(config.lazyPushPeers, |remaining|);
    (shuffled[..eagerCount], remaining[..lazyCount])
  }

  /** Whatever the shuffle, a full split (no peer left over) reaches every candidate. */
  lemma FullSplitCoversAll(candidates: seq<NodeId>, shuffled: seq<NodeId>, config: FanoutConfig, peer: NodeId)
    requires multiset(shuffled) == multiset(candidates) && peer in candidates
    ensures var (eager, lazy) := SelectFanout(shuffled, config);
            |eager| + |lazy| >= |candidates| ==> peer in eager || peer in lazy
  {
    var (eager, lazy) := SelectFanout(shuffled, config);
    assert |shuffled| == |multiset(shuffled)| == |candidates|;
    assert peer in multiset(shuffled);
    if |eager| + |lazy| >= |candidates| {
      assert eager + lazy == shuffled;
    }
  }
}
