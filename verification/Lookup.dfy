/** The iterative Kademlia lookup (crates/ephemera-dht/src/query.rs). */
module Lookup {
  import opened NodeIds
  import opened Routing

  /** `candidates` is keyed by XOR distance to the target. */
  datatype Query = Query(
    target: NodeId, localId: NodeId, alpha: nat, k: nat,
    queried: set<NodeId>, candidates: map<NodeId, NodeId>, finished: bool)

  function Names(candidates: map<NodeId, NodeId>): set<NodeId> { candidates.Values }

  function Known(q: Query): set<NodeId> { Names(q.candidates) }

  function Unqueried(q: Query): set<NodeId> { Known(q) - q.queried }

  /** Candidates after hearing of some nodes: ourselves and known distances are skipped. */
  function Learn(candidates: map<NodeId, NodeId>, nodes: seq<NodeId>, localId: NodeId, target: NodeId): map<NodeId, NodeId> {
    if nodes == [] then candidates
    else
      var before := Learn(candidates, nodes[..|nodes| - 1], localId, target);
      var node := nodes[|nodes| - 1];
      if node == localId || XorDistance(node, target) in before then before else before[XorDistance(node, target) := node]
  }

  function AfterResponse(q: Query, from: NodeId, closer: seq<NodeId>): Query {
    var q' := q.(queried := q.queried + {from}, candidates := Learn(q.candidates, closer, q.localId, q.target));
    q'.(finished := q.finished || q.alpha == 0 || Unqueried(q') == {})
  }

  /** A response is recorded, and finishes a query that asks no one more. */
  lemma ResponseExactly(q: Query, from: NodeId, closer: seq<NodeId>)
    ensures var q' := AfterResponse(q, from, closer);
            && q'.queried == q.queried + {from} && q'.target == q.target && q'.localId == q.localId
            && (q'.finished <==> q.finished || q.alpha == 0 || Unqueried(q') == {})
  {}

  ghost predicate QueryOk(q: Query) {
    && (forall d | d in q.candidates :: XorDistance(q.candidates[d], q.target) == d)
    && q.localId !in Known(q)
  }

  lemma KnownAt(q: Query, n: NodeId)
    requires QueryOk(q)
    ensures n in Known(q) <==> XorDistance(n, q.target) in q.candidates
  {
    hide XorDistance;
    if XorDistance(n, q.target) in q.candidates {
      XorInjective(q.candidates[XorDistance(n, q.target)], n, q.target);
    }
  }

  function News(nodes: seq<NodeId>, localId: NodeId): set<NodeId> {
    set n | n in nodes && n != localId
  }

  /** Learning adds exactly the nodes heard of, other than ourselves. */
  lemma {:induction false} LearnAdds(q: Query, nodes: seq<NodeId>)
    requires QueryOk(q)
    ensures var q' := q.(candidates := Learn(q.candidates, nodes, q.localId, q.target));
            QueryOk(q') && Known(q') == Known(q) + News(nodes, q.localId)
    decreases |nodes|
  {
    hide XorDistance;
    if nodes != [] {
      var rest, node := nodes[..|nodes| - 1], nodes[|nodes| - 1];
      LearnAdds(q, rest);
      var b := q.(candidates := Learn(q.candidates, rest, q.localId, q.target));
      var q' := q.(candidates := Learn(q.candidates, nodes, q.localId, q.target));
      KnownAt(b, node);
      assert forall n | n in nodes :: n in rest || n == node;
      if node != q.localId && XorDistance(node, q.target) !in b.candidates {
        AddValue(b.candidates, XorDistance(node, q.target), node);
      }
    }
  }

  lemma AddValue(m: map<NodeId, NodeId>, d: NodeId, n: NodeId)
    requires d !in m
    ensures m[d := n].Values == m.Values + {n}
  {
    var m' := m[d := n];
    forall x
      ensures x in m'.Values <==> x in m.Values + {n}
    {
      if x in m.Values {
        var k :| k in m && m[k] == x;
        assert m'[k] == x;
      }
      assert m'[d] == n;
    }
  }

  // Running a lookup against a fixed network ------------------------------------------

  /** What each node answers; every node it may name answers too. */
  ghost predicate Closed(knows: map<NodeId, seq<NodeId>>, local: NodeId) {
    forall n, m | n in knows && m in knows[n] && m != local :: m in knows
  }

  ghost predicate Starts(q: Query, seeds: set<NodeId>) {
    QueryOk(q) && q.queried == {} && !q.finished && Known(q) == seeds && q.alpha >= 1
  }

  predicate Answered(knows: map<NodeId, seq<NodeId>>, responses: seq<NodeId>) {
    forall r | r in responses :: r in knows
  }

  /** The query after some responses, in arrival order; repeated responses are allowed. */
  function Respond(q: Query, knows: map<NodeId, seq<NodeId>>, responses: seq<NodeId>): Query
    requires Answered(knows, responses)
  {
    if responses == [] then q
    else
      var from := responses[|responses| - 1];
      AfterResponse(Respond(q, knows, responses[..|responses| - 1]), from, knows[from])
  }

  /** Only nodes known by then can have been asked. */
  ghost predicate Askable(q: Query, knows: map<NodeId, seq<NodeId>>, responses: seq<NodeId>) {
    && Answered(knows, responses)
    && forall i | 0 <= i < |responses| :: responses[i] in Known(Respond(q, knows, responses[..i]))
  }

  /** A chain of answers leading from a seed to a node, never through ourselves. */
  ghost predicate IsPath(knows: map<NodeId, seq<NodeId>>, seeds: set<NodeId>, local: NodeId, path: seq<NodeId>) {
    && path != [] && path[0] in seeds
    && (forall i | 0 <= i < |path| :: path[i] != local)
    && forall i | 0 <= i < |path| - 1 :: path[i] in knows && path[i + 1] in knows[path[i]]
  }

  ghost predicate Reachable(knows: map<NodeId, seq<NodeId>>, seeds: set<NodeId>, local: NodeId, n: NodeId) {
    exists path :: IsPath(knows, seeds, local, path) && path[|path| - 1] == n
  }

  /** The nodes a lookup could ever learn about. */
  ghost function ReachableSet(knows: map<NodeId, seq<NodeId>>, seeds: set<NodeId>, local: NodeId): set<NodeId> {
    set n | n in knows && Reachable(knows, seeds, local, n)
  }

  /** Whatever a queried node answered is known. */
  ghost predicate Digested(q: Query, knows: map<NodeId, seq<NodeId>>) {
    forall n, m | n in q.queried && n in knows && m in knows[n] && m != q.localId :: m in Known(q)
  }

  ghost predicate LookupOk(q: Query, q': Query, knows: map<NodeId, seq<NodeId>>, seeds: set<NodeId>) {
    && QueryOk(q')
    && q'.target == q.target && q'.localId == q.localId && q'.alpha == q.alpha && q'.k == q.k
    && seeds <= Known(q')
    && q'.queried <= Known(q')
    && Known(q') <= ReachableSet(knows, seeds, q.localId)
    && Digested(q', knows)
    && (q'.finished ==> Unqueried(q') == {})
  }

  lemma SeedsReachable(q: Query, knows: map<NodeId, seq<NodeId>>, seeds: set<NodeId>)
    requires Starts(q, seeds) && seeds <= knows.Keys
    ensures LookupOk(q, q, knows, seeds)
  {
    forall n | n in seeds
      ensures Reachable(knows, seeds, q.localId, n)
    {
      assert IsPath(knows, seeds, q.localId, [n]);
    }
  }

  lemma ReachFurther(knows: map<NodeId, seq<NodeId>>, seeds: set<NodeId>, local: NodeId, n: NodeId, m: NodeId)
    requires Closed(knows, local) && n in ReachableSet(knows, seeds, local) && m in knows[n] && m != local
    ensures m in ReachableSet(knows, seeds, local)
  {
    var path :| IsPath(knows, seeds, local, path) && path[|path| - 1] == n;
    assert IsPath(knows, seeds, local, path + [m]);
    assert (path + [m])[|path|] == m;
  }

  lemma DigestsMore(q: Query, q': Query, knows: map<NodeId, seq<NodeId>>, from: NodeId)
    requires Digested(q, knows) && from in knows && q'.localId == q.localId && q'.queried == q.queried + {from}
    requires Known(q') == Known(q) + News(knows[from], q.localId)
    ensures Digested(q', knows)
  {}

  /** Once nothing is left to query, a late answer brings no news. */
  lemma StaysDone(q: Query, q': Query, knows: map<NodeId, seq<NodeId>>, from: NodeId)
    requires Digested(q, knows) && from in knows && from in Known(q) && Unqueried(q) == {}
    requires q'.queried == q.queried + {from}
    requires Known(q') == Known(q) + News(knows[from], q.localId)
    ensures Unqueried(q') == {}
  {
    hide Names;
    assert from !in Unqueried(q);
    assert forall n | n in Known(q) :: n !in Unqueried(q);
  }

  lemma NewsIsReachable(knows: map<NodeId, seq<NodeId>>, seeds: set<NodeId>, local: NodeId, from: NodeId)
    requires Closed(knows, local) && from in ReachableSet(knows, seeds, local)
    ensures News(knows[from], local) <= ReachableSet(knows, seeds, local)
  {
    hide ReachableSet, Closed;
    assert from in knows by { InNetwork(knows, seeds, local, from); }
    forall m | m in knows[from] && m != local
      ensures m in ReachableSet(knows, seeds, local)
    {
      ReachFurther(knows, seeds, local, from, m);
    }
  }

  lemma InNetwork(knows: map<NodeId, seq<NodeId>>, seeds: set<NodeId>, local: NodeId, n: NodeId)
    requires n in ReachableSet(knows, seeds, local)
    ensures n in knows
  {}

  lemma ResponseKeepsOk(q: Query, q': Query, knows: map<NodeId, seq<NodeId>>, seeds: set<NodeId>, from: NodeId)
    requires LookupOk(q, q', knows, seeds) && Closed(knows, q.localId) && q.alpha >= 1
    requires from in knows && from in Known(q')
    ensures LookupOk(q, AfterResponse(q', from, knows[from]), knows, seeds)
  {
    LearnAdds(q', knows[from]);
    hide Learn, QueryOk, ReachableSet, Closed, Digested, Names, News;
    var r := AfterResponse(q', from, knows[from]);
    assert r.candidates == Learn(q'.candidates, knows[from], q'.localId, q'.target);
    OnlyCandidatesMatter(q'.(candidates := r.candidates), r);
    assert Known(r) == Known(q') + News(knows[from], q.localId);
    DigestsMore(q', r, knows, from);
    NewsIsReachable(knows, seeds, q.localId, from);
    if q'.finished {
      StaysDone(q', r, knows, from);
    }
  }

  lemma OnlyCandidatesMatter(q: Query, q': Query)
    requires QueryOk(q) && q'.candidates == q.candidates && q'.target == q.target && q'.localId == q.localId
    ensures QueryOk(q')
  {}

  /** In whatever order responses arrive, only reachable nodes are learned and asked. */
  lemma {:induction false} LookupStaysOk(q: Query, knows: map<NodeId, seq<NodeId>>, seeds: set<NodeId>, responses: seq<NodeId>)
    requires Starts(q, seeds) && seeds <= knows.Keys && Closed(knows, q.localId) && Askable(q, knows, responses)
    ensures LookupOk(q, Respond(q, knows, responses), knows, seeds)
    decreases |responses|
  {
    hide LookupOk, Closed, Names, AfterResponse;
    if responses == [] {
      SeedsReachable(q, knows, seeds);
    } else {
      var rest, from := responses[..|responses| - 1], responses[|responses| - 1];
      assert forall i | 0 <= i < |rest| :: rest[i] == responses[i] && rest[..i] == responses[..i];
      LookupStaysOk(q, knows, seeds, rest);
      ResponseKeepsOk(q, Respond(q, knows, rest), knows, seeds, from);
    }
  }

  lemma {:induction false} ReachesKnown(q: Query, q': Query, knows: map<NodeId, seq<NodeId>>, seeds: set<NodeId>, path: seq<NodeId>)
    requires LookupOk(q, q', knows, seeds) && Unqueried(q') == {} && IsPath(knows, seeds, q.localId, path)
    ensures path[|path| - 1] in Known(q')
    decreases |path|
  {
    hide ReachableSet, QueryOk, Names;
    if |path| > 1 {
      var shorter := path[..|path| - 1];
      ReachesKnown(q, q', knows, seeds, shorter);
      assert shorter[|shorter| - 1] !in Unqueried(q');
    }
  }

  /** Each first response is from a distinct reachable node, so there are at most that many. */
  lemma FirstResponsesBounded(q: Query, knows: map<NodeId, seq<NodeId>>, seeds: set<NodeId>, responses: seq<NodeId>)
    requires Starts(q, seeds) && seeds <= knows.Keys && Closed(knows, q.localId) && Askable(q, knows, responses)
    ensures var q' := Respond(q, knows, responses);
            && q'.queried == (set r | r in responses)
            && |set r | r in responses| <= |ReachableSet(knows, seeds, q.localId)|
  {
    hide ReachableSet, Respond, QueryOk, Digested, Closed, Names;
    LookupStaysOk(q, knows, seeds, responses);
    QueriedAreResponders(q, knows, responses);
    var q' := Respond(q, knows, responses);
    var reach := ReachableSet(knows, seeds, q.localId);
    assert q'.queried <= reach;
    assert reach == q'.queried + (reach - q'.queried);
  }

  lemma {:induction false} QueriedAreResponders(q: Query, knows: map<NodeId, seq<NodeId>>, responses: seq<NodeId>)
    requires q.queried == {} && Answered(knows, responses)
    ensures Respond(q, knows, responses).queried == (set r | r in responses)
    decreases |responses|
  {
    if responses != [] {
      var rest := responses[..|responses| - 1];
      QueriedAreResponders(q, knows, rest);
      assert responses == rest + [responses[|responses| - 1]];
    }
  }

  /**
    When no candidate is left to query, the lookup knows exactly the nodes
    reachable from its seeds, so its results are the k nearest of those.
   */
  lemma LookupFindsNearest(q: Query, knows: map<NodeId, seq<NodeId>>, seeds: set<NodeId>, responses: seq<NodeId>, results: seq<NodeId>)
    requires Starts(q, seeds) && seeds <= knows.Keys && Closed(knows, q.localId) && Askable(q, knows, responses)
    requires Unqueried(Respond(q, knows, responses)) == {}
    requires IsNearest(results, Known(Respond(q, knows, responses)), q.k, q.target)
    ensures IsNearest(results, ReachableSet(knows, seeds, q.localId), q.k, q.target)
    ensures q.localId !in results
  {
    hide IsNearest;
    LookupStaysOk(q, knows, seeds, responses);
    var q' := Respond(q, knows, responses);
    forall n | n in ReachableSet(knows, seeds, q.localId)
      ensures n in Known(q')
    {
      var path :| IsPath(knows, seeds, q.localId, path) && path[|path| - 1] == n;
      ReachesKnown(q, q', knows, seeds, path);
    }
    assert Known(q') == ReachableSet(knows, seeds, q.localId);
    NearestMembers(results, Known(q'), q.k, q.target);
  }

  lemma NearestMembers(r: seq<NodeId>, s: set<NodeId>, k: nat, target: NodeId)
    requires IsNearest(r, s, k, target)
    ensures forall n | n in r :: n in s
  {}

  /** After at least one response, the finished flag says exactly that nothing is left to query. */
  lemma FinishedMeansDone(q: Query, knows: map<NodeId, seq<NodeId>>, seeds: set<NodeId>, responses: seq<NodeId>)
    requires Starts(q, seeds) && seeds <= knows.Keys && Closed(knows, q.localId) && Askable(q, knows, responses)
    ensures var q' := Respond(q, knows, responses);
            q'.finished <==> responses != [] && Unqueried(q') == {}
  {
    hide Closed, Askable, QueryOk;
    LookupStaysOk(q, knows, seeds, responses);
  }

  /** While something is left to query there is a next node to ask, and each next one brings a first response. */
  lemma LookupNeverStuck(q: Query, knows: map<NodeId, seq<NodeId>>, seeds: set<NodeId>, responses: seq<NodeId>, next: seq<NodeId>)
    requires Starts(q, seeds) && seeds <= knows.Keys && Closed(knows, q.localId) && Askable(q, knows, responses)
    requires IsNearest(next, Unqueried(Respond(q, knows, responses)), q.alpha, q.target)
    ensures next != [] <==> Unqueried(Respond(q, knows, responses)) != {}
    ensures forall from | from in next :: from !in responses && Askable(q, knows, responses + [from])
  {
    hide Closed, QueryOk, Digested, Names, AfterResponse, Respond;
    LookupStaysOk(q, knows, seeds, responses);
    QueriedAreResponders(q, knows, responses);
    var q' := Respond(q, knows, responses);
    NearestMembers(next, Unqueried(q'), q.alpha, q.target);
    forall from | from in next
      ensures from !in responses && Askable(q, knows, responses + [from])
    {
      InNetwork(knows, seeds, q.localId, from);
      OneMoreAskable(q, knows, responses, from);
    }
  }

  lemma OneMoreAskable(q: Query, knows: map<NodeId, seq<NodeId>>, responses: seq<NodeId>, from: NodeId)
    requires Askable(q, knows, responses) && from in knows && from in Known(Respond(q, knows, responses))
    ensures Askable(q, knows, responses + [from])
  {
    hide Respond, Known;
    var all := responses + [from];
    forall i | 0 <= i < |all|
      ensures all[i] in Known(Respond(q, knows, all[..i]))
    {
      if i < |responses| {
        assert all[..i] == responses[..i];
      } else {
        assert all[..i] == responses;
      }
    }
  }

  // The mutable query -------------------------------------------------------------------

  class DhtQuery {
    const target: NodeId
    const localId: NodeId
    const alpha: nat
    const k: nat
    var queried: set<NodeId>
    var candidates: map<NodeId, NodeId>
    var finished: bool

    ghost function Value(): Query
      reads this
    {
      Query(target, localId, alpha, k, queried, candidates, finished)
    }

    ghost predicate Valid()
      reads this
    {
      QueryOk(Value())
    }

    /** Seeds are the `k` entries of the routing table nearest to the target. */
    constructor (target: NodeId, alpha: nat, k: nat, table: RoutingTable, seeds: seq<NodeEntry>)
      requires forall e | e in seeds :: e.id != table.localId
      ensures Valid() && this.target == target && localId == table.localId && this.alpha == alpha && this.k == k
      ensures queried == {} && !finished && Known(Value()) == IdSet(seeds)
    {
      this.target, this.localId, this.alpha, this.k := target, table.localId, alpha, k;
      queried, candidates, finished := {}, map[], false;
      new;
      for i := 0 to |seeds|
        invariant Valid() && queried == {} && !finished
        invariant Known(Value()) == IdSet(seeds[..i])
      {
        var dist := XorDistance(seeds[i].id, target);
        assert seeds[..i + 1] == seeds[..i] + [seeds[i]];
        KnownAt(Value(), seeds[i].id);
        if dist in candidates {
          XorInjective(candidates[dist], seeds[i].id, target);
          assert candidates[dist := seeds[i].id] == candidates;
        } else {
          AddValue(candidates, dist, seeds[i].id);
        }
        candidates := candidates[dist := seeds[i].id];
      }
      assert seeds[..|seeds|] == seeds;
    }

    method NextToQuery() returns (next: seq<NodeId>)
      ensures IsNearest(next, Unqueried(Value()), alpha, target)
      ensures next == [] <==> alpha == 0 || Unqueried(Value()) == {}
    {
      next := TakeNearest(candidates.Values - queried, alpha, target);
    }

    method ClosestResults() returns (results: seq<NodeId>)
      ensures IsNearest(results, Known(Value()), k, target)
    {
      results := TakeNearest(candidates.Values, k, target);
    }

    method ProcessFindNodeResponse(from: NodeId, closerNodes: seq<NodeId>) returns (learnedCloser: bool)
      modifies this
      ensures Value() == AfterResponse(old(Value()), from, closerNodes)
      ensures learnedCloser <==> candidates != old(candidates)
    {
      queried := queried + {from};
      learnedCloser := false;
      for i := 0 to |closerNodes|
        invariant candidates == Learn(old(candidates), closerNodes[..i], localId, target)
        invariant old(candidates).Keys <= candidates.Keys
        invariant learnedCloser <==> candidates.Keys != old(candidates).Keys
        invariant !learnedCloser ==> candidates == old(candidates)
        invariant queried == old(queried) + {from} && finished == old(finished)
      {
        assert closerNodes[..i + 1][..i] == closerNodes[..i];
        var node := closerNodes[i];
        if node == localId {
          continue;
        }
        var dist := XorDistance(node, target);
        if dist !in candidates {
          candidates := candidates[dist := node];
          learnedCloser := true;
        }
      }
      assert closerNodes[..|closerNodes|] == closerNodes;
      var next := NextToQuery();
      if next == [] {
        finished := true;
      }
    }
  }

  /** A lookup's seeds, as `DhtQuery::new` takes them from the routing table. */
  method StartQuery(target: NodeId, alpha: nat, k: nat, table: RoutingTable) returns (query: DhtQuery, seeds: seq<NodeEntry>)
    requires table.Valid()
    ensures fresh(query) && query.Valid()
    ensures query.localId == table.localId && query.target == target && query.alpha == alpha && query.k == k
    ensures query.queried == {} && !query.finished && Known(query.Value()) == IdSet(seeds)
    ensures IsNearest(Ids(seeds), IdSet(Flatten(table.buckets)), k, target)
  {
    seeds := table.Closest(target, k);
    query := new DhtQuery(target, alpha, k, table, seeds);
  }

  // The whole lookup ------------------------------------------------------------------------

  /** Nothing is asked twice, and the query is what the answers so far make of it. */
  ghost predicate Running(q: Query, q': Query, knows: map<NodeId, seq<NodeId>>, seeds: set<NodeId>, asked: seq<NodeId>) {
    && Starts(q, seeds) && seeds <= knows.Keys && Closed(knows, q.localId)
    && Askable(q, knows, asked) && q' == Respond(q, knows, asked)
    && forall i, j | 0 <= i < j < |asked| :: asked[i] != asked[j]
  }

  lemma AskOne(q: Query, q': Query, knows: map<NodeId, seq<NodeId>>, seeds: set<NodeId>, asked: seq<NodeId>, from: NodeId)
    requires Running(q, q', knows, seeds, asked) && from in Known(q') && from !in asked
    ensures from in knows && Running(q, AfterResponse(q', from, knows[from]), knows, seeds, asked + [from])
    ensures Known(q') <= Known(AfterResponse(q', from, knows[from]))
  {
    hide Closed, QueryOk, Digested, Names, AfterResponse, ReachableSet;
    LookupStaysOk(q, knows, seeds, asked);
    InNetwork(knows, seeds, q.localId, from);
    OneMoreAskable(q, knows, asked, from);
    RespondOne(q, knows, asked, from);
    KnownGrows(q', from, knows[from]);
  }

  lemma RespondOne(q: Query, knows: map<NodeId, seq<NodeId>>, asked: seq<NodeId>, from: NodeId)
    requires Answered(knows, asked + [from]) && Answered(knows, asked) && from in knows
    ensures Respond(q, knows, asked + [from]) == AfterResponse(Respond(q, knows, asked), from, knows[from])
  {
    assert (asked + [from])[..|asked|] == asked;
  }

  lemma KnownGrows(q: Query, from: NodeId, closer: seq<NodeId>)
    requires QueryOk(q)
    ensures Known(q) <= Known(AfterResponse(q, from, closer))
  {
    hide QueryOk, Learn;
    LearnAdds(q, closer);
  }

  /** What is left to ask, and how far the lookup is from its end. */
  ghost function Remaining(knows: map<NodeId, seq<NodeId>>, seeds: set<NodeId>, local: NodeId, asked: seq<NodeId>): set<NodeId> {
    ReachableSet(knows, seeds, local) - set n | n in asked
  }

  lemma BatchIsProgress(q: Query, q': Query, knows: map<NodeId, seq<NodeId>>, seeds: set<NodeId>, asked: seq<NodeId>, next: seq<NodeId>)
    requires Running(q, q', knows, seeds, asked) && next != [] && IsNearest(next, Unqueried(q'), q.alpha, q.target)
    ensures forall n | n in next :: n in Known(q') && n !in asked
    ensures Remaining(knows, seeds, q.localId, asked + next) < Remaining(knows, seeds, q.localId, asked)
  {
    hide Closed, QueryOk, Digested, Names, AfterResponse, ReachableSet, Respond;
    LookupStaysOk(q, knows, seeds, asked);
    QueriedAreResponders(q, knows, asked);
    NearestMembers(next, Unqueried(q'), q.alpha, q.target);
    assert next[0] in next && next[0] in Remaining(knows, seeds, q.localId, asked);
    assert next[0] !in Remaining(knows, seeds, q.localId, asked + next);
  }

  lemma AllAsked(q: Query, q': Query, knows: map<NodeId, seq<NodeId>>, seeds: set<NodeId>, asked: seq<NodeId>)
    requires Running(q, q', knows, seeds, asked) && Unqueried(q') == {}
    ensures forall n :: n in asked <==> n in ReachableSet(knows, seeds, q.localId)
  {
    hide Closed, QueryOk, Digested, Names, AfterResponse, Respond;
    LookupStaysOk(q, knows, seeds, asked);
    QueriedAreResponders(q, knows, asked);
    forall n | n in ReachableSet(knows, seeds, q.localId)
      ensures n in asked
    {
      var path :| IsPath(knows, seeds, q.localId, path) && path[|path| - 1] == n;
      ReachesKnown(q, q', knows, seeds, path);
      assert n !in Unqueried(q');
    }
  }

  lemma NearestAreDistinct(r: seq<NodeId>, s: set<NodeId>, k: nat, target: NodeId)
    requires IsNearest(r, s, k, target)
    ensures forall i, j | 0 <= i < j < |r| :: r[i] != r[j]
  {
    forall i, j | 0 <= i < j < |r|
      ensures r[i] != r[j]
    {
      CloserAsymmetric(r[i], r[j], target);
    }
  }

  /**
    The algorithm the module describes: start from the nearest known nodes, ask the
    next batch and take in its answers until no one is left to ask. It ends, asks
    every node reachable from the seeds exactly once and no other, and returns the
    nearest of them.
   */
  method FindNode(target: NodeId, alpha: nat, k: nat, table: RoutingTable, knows: map<NodeId, seq<NodeId>>)
    returns (results: seq<NodeId>, seeds: seq<NodeEntry>, asked: seq<NodeId>)
    requires table.Valid() && alpha >= 1
    requires IdSet(Flatten(table.buckets)) <= knows.Keys && Closed(knows, table.localId)
    ensures IsNearest(Ids(seeds), IdSet(Flatten(table.buckets)), k, target)
    ensures IsNearest(results, ReachableSet(knows, IdSet(seeds), table.localId), k, target) && table.localId !in results
    ensures forall n :: n in asked <==> n in ReachableSet(knows, IdSet(seeds), table.localId)
    ensures forall i, j | 0 <= i < j < |asked| :: asked[i] != asked[j]
  {
    hide IsNearest, Closed, QueryOk, Digested, Names, AfterResponse, ReachableSet, Respond, Flatten, IdSet;
    var query: DhtQuery;
    query, seeds := StartQuery(target, alpha, k, table);
    ghost var q, from := query.Value(), IdSet(seeds);
    asked := [];
    SeedsAreKnown(seeds, Flatten(table.buckets), k, target);
    StartsRunning(q, knows, from);
    var next := query.NextToQuery();
    while next != []
      invariant fresh(query) && query.target == target && query.alpha == alpha && query.k == k
      invariant Running(q, query.Value(), knows, from, asked)
      invariant IsNearest(next, Unqueried(query.Value()), alpha, target)
      invariant next == [] <==> Unqueried(query.Value()) == {}
      decreases Remaining(knows, from, q.localId, asked)
    {
      ghost var before := asked;
      BatchIsProgress(q, query.Value(), knows, from, asked, next);
      NearestAreDistinct(next, Unqueried(query.Value()), alpha, target);
      for i := 0 to |next|
        invariant fresh(query)
        invariant Running(q, query.Value(), knows, from, asked)
        invariant asked == before + next[..i]
        invariant forall n | n in next :: n in Known(query.Value()) && n !in before
      {
        assert next[i] !in next[..i];
        AskOne(q, query.Value(), knows, from, asked, next[i]);
        var _ := query.ProcessFindNodeResponse(next[i], knows[next[i]]);
        asked := asked + [next[i]];
      }
      assert next[..|next|] == next;
      next := query.NextToQuery();
    }
    results := query.ClosestResults();
    AllAsked(q, query.Value(), knows, from, asked);
    LookupFindsNearest(q, knows, from, asked, results);
  }

  lemma StartsRunning(q: Query, knows: map<NodeId, seq<NodeId>>, seeds: set<NodeId>)
    requires Starts(q, seeds) && seeds <= knows.Keys && Closed(knows, q.localId)
    ensures Running(q, q, knows, seeds, [])
  {}

  lemma SeedsAreKnown(seeds: seq<NodeEntry>, all: seq<NodeEntry>, k: nat, target: NodeId)
    requires IsNearest(Ids(seeds), IdSet(all), k, target)
    ensures IdSet(seeds) <= IdSet(all)
  {
    forall n | n in IdSet(seeds)
      ensures n in IdSet(all)
    {
      var e :| e in seeds && e.id == n;
      var i :| 0 <= i < |seeds| && seeds[i] == e;
      assert Ids(seeds)[i] == n;
    }
  }
}
