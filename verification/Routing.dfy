/** The Kademlia routing table (crates/ephemera-dht/src/routing.rs). */
module Routing {
  import opened Wrappers
  import opened NodeIds
  import opened Numbers

  const ID_BITS: nat := 256

  datatype NodeEntry = NodeEntry(id: NodeId, lastSeen: nat)

  datatype Bucket = Bucket(entries: seq<NodeEntry>, replacementCache: seq<NodeEntry>, k: nat)

  datatype InsertResult = Inserted | Updated | BucketFull(pingTarget: Option<NodeId>)

  datatype Table = Table(localId: NodeId, buckets: seq<Bucket>)

  // One bucket -------------------------------------------------------------------

  function Position(entries: seq<NodeEntry>, id: NodeId): (r: Option<nat>)
    ensures r.Some? ==> r.value < |entries| && entries[r.value].id == id
    ensures r.None? ==> forall i | 0 <= i < |entries| :: entries[i].id != id
  {
    if entries == [] then None
    else if entries[|entries| - 1].id == id && Position(entries[..|entries| - 1], id).None? then Some(|entries| - 1)
    else Position(entries[..|entries| - 1], id)
  }

  function BucketInsert(b: Bucket, entry: NodeEntry): (Bucket, InsertResult) {
    match Position(b.entries, entry.id)
    case Some(pos) => (b.(entries := b.entries[..pos] + b.entries[pos + 1..] + [entry]), Updated)
    case None =>
      if |b.entries| < b.k then (b.(entries := b.entries + [entry]), Inserted)
      else
        (b.(replacementCache := KeptCache(b) + [entry]),
         BucketFull(if b.entries == [] then None else Some(b.entries[0].id)))
  }

  /** A full cache drops its oldest entry to make room. */
  function KeptCache(b: Bucket): seq<NodeEntry> {
    if |b.replacementCache| >= b.k && b.replacementCache != [] then b.replacementCache[1..] else b.replacementCache
  }

  function EvictOldest(b: Bucket): Bucket {
    var rest := if b.entries == [] then [] else b.entries[1..];
    if b.replacementCache == [] then b.(entries := rest)
    else
      var n := |b.replacementCache| - 1;
      b.(entries := rest + [b.replacementCache[n]], replacementCache := b.replacementCache[..n])
  }

  ghost predicate DistinctIds(entries: seq<NodeEntry>) {
    forall i, j | 0 <= i < j < |entries| :: entries[i].id != entries[j].id
  }

  /** Eviction keeps ids distinct exactly when what it promotes is not among the entries that stay. */
  lemma EvictKeepsDistinct(b: Bucket)
    requires DistinctIds(b.entries)
    ensures DistinctIds(EvictOldest(b).entries) <==>
            || b.replacementCache == []
            || forall i | 1 <= i < |b.entries| :: b.entries[i].id != b.replacementCache[|b.replacementCache| - 1].id
  {
    var rest := if b.entries == [] then [] else b.entries[1..];
    assert forall i | 0 <= i < |rest| :: rest[i] == b.entries[i + 1];
    if b.replacementCache != [] {
      AppendedIsDistinct(rest, b.replacementCache[|b.replacementCache| - 1]);
      assert forall i | 1 <= i < |b.entries| :: b.entries[i] == rest[i - 1];
    }
  }

  // Runs of one bucket -------------------------------------------------------------

  datatype BucketOp = Offer(entry: NodeEntry) | Evict

  function AfterOp(b: Bucket, op: BucketOp): Bucket {
    match op
    case Offer(entry) => BucketInsert(b, entry).0
    case Evict => EvictOldest(b)
  }

  function BucketRun(b: Bucket, ops: seq<BucketOp>): Bucket
    decreases |ops|
  {
    if ops == [] then b else BucketRun(AfterOp(b, ops[0]), ops[1..])
  }

  /** No id occurs twice in entries and cache together, and only a full bucket caches. */
  ghost predicate Tidy(b: Bucket) {
    DistinctIds(b.entries + b.replacementCache) && (b.replacementCache != [] ==> |b.entries| >= b.k)
  }

  /** The bucket is full, does not hold the id, and already caches it. */
  predicate CachesAgain(b: Bucket, op: BucketOp) {
    && op.Offer? && |b.entries| >= b.k && Position(b.entries, op.entry.id).None?
    && exists i | 0 <= i < |KeptCache(b)| :: KeptCache(b)[i].id == op.entry.id
  }

  ghost predicate TidyThroughout(b: Bucket, ops: seq<BucketOp>) {
    forall i | 0 <= i <= |ops| :: Tidy(BucketRun(b, ops[..i]))
  }

  ghost predicate NeverCachesAgain(b: Bucket, ops: seq<BucketOp>) {
    forall i | 0 <= i < |ops| :: !CachesAgain(BucketRun(b, ops[..i]), ops[i])
  }

  lemma DistinctConcat(a: seq<NodeEntry>, c: seq<NodeEntry>)
    ensures DistinctIds(a + c) <==>
            DistinctIds(a) && DistinctIds(c) && forall i, j | 0 <= i < |a| && 0 <= j < |c| :: a[i].id != c[j].id
  {
    var all := a + c;
    assert forall i | 0 <= i < |a| :: all[i] == a[i];
    assert forall j | 0 <= j < |c| :: all[|a| + j] == c[j];
    if DistinctIds(all) {
      forall i, j | 0 <= i < |a| && 0 <= j < |c| ensures a[i].id != c[j].id {
        assert all[i].id != all[|a| + j].id;
      }
      forall i, j | 0 <= i < j < |c| ensures c[i].id != c[j].id {
        assert all[|a| + i].id != all[|a| + j].id;
      }
    }
  }

  lemma OfferKeepsTidy(b: Bucket, entry: NodeEntry)
    requires Tidy(b)
    ensures Tidy(AfterOp(b, Offer(entry))) <==> !CachesAgain(b, Offer(entry))
  {
    hide Position, DistinctIds;
    DistinctConcat(b.entries, b.replacementCache);
    match Position(b.entries, entry.id)
    case Some(pos) =>
      var es := b.entries[..pos] + b.entries[pos + 1..] + [entry];
      MovedToBack(b.entries, pos, entry);
      assert forall i | 0 <= i < |es| ::
        es[i].id == if i < pos then b.entries[i].id else if i < |es| - 1 then b.entries[i + 1].id else b.entries[pos].id;
      DistinctConcat(es, b.replacementCache);
    case None =>
      if |b.entries| < b.k {
        AppendedIsDistinct(b.entries, entry);
        assert b.entries + b.replacementCache == b.entries;
        assert b.entries + [entry] + [] == b.entries + [entry];
      } else {
        OfferToFull(b, entry);
      }
  }

  lemma OfferToFull(b: Bucket, entry: NodeEntry)
    requires Tidy(b) && |b.entries| >= b.k && Position(b.entries, entry.id).None?
    ensures DistinctIds(b.entries + (KeptCache(b) + [entry])) <==> !CachesAgain(b, Offer(entry))
  {
    hide Position, DistinctIds;
    var kept := KeptCache(b);
    KeptIsDistinct(b);
    var known := b.entries + kept;
    AppendedIsDistinct(known, entry);
    assert b.entries + (kept + [entry]) == known + [entry];
    assert forall i | 0 <= i < |b.entries| :: known[i] == b.entries[i];
    assert forall i | 0 <= i < |kept| :: known[|b.entries| + i] == kept[i];
    assert forall i | |b.entries| <= i < |known| :: known[i] == kept[i - |b.entries|];
  }

  lemma KeptIsDistinct(b: Bucket)
    requires DistinctIds(b.entries + b.replacementCache)
    ensures DistinctIds(b.entries + KeptCache(b))
  {
    DistinctConcat(b.entries, b.replacementCache);
    DistinctConcat(b.entries, KeptCache(b));
  }

  lemma EvictKeepsTidy(b: Bucket)
    requires Tidy(b)
    ensures Tidy(EvictOldest(b))
  {
    var rest := if b.entries == [] then [] else b.entries[1..];
    DistinctConcat(b.entries, b.replacementCache);
    if b.replacementCache == [] {
      DistinctConcat(rest, []);
    } else {
      var n := |b.replacementCache| - 1;
      var last, cache := b.replacementCache[n], b.replacementCache[..n];
      AppendedIsDistinct(rest, last);
      DistinctConcat(rest + [last], cache);
    }
  }

  /**
    Over every run of offers and evictions on a bucket, entries and cache stay
    free of duplicates throughout exactly when no full bucket is offered an id it
    still caches.
   */
  lemma {:induction false} BucketRunsStayTidy(b: Bucket, ops: seq<BucketOp>)
    requires Tidy(b)
    ensures TidyThroughout(b, ops) <==> NeverCachesAgain(b, ops)
    decreases |ops|
  {
    hide Tidy, CachesAgain, AfterOp;
    if ops != [] {
      var op, rest := ops[0], ops[1..];
      var b' := AfterOp(b, op);
      OpKeepsTidy(b, op);
      SplitRun(b, ops);
      if Tidy(b') {
        BucketRunsStayTidy(b', rest);
      }
    }
  }

  lemma OpKeepsTidy(b: Bucket, op: BucketOp)
    requires Tidy(b)
    ensures Tidy(AfterOp(b, op)) <==> !CachesAgain(b, op)
  {
    hide Tidy;
    match op
    case Offer(entry) => OfferKeepsTidy(b, entry);
    case Evict => EvictKeepsTidy(b);
  }

  /** Both conditions, split into the first operation and the others. */
  lemma SplitRun(b: Bucket, ops: seq<BucketOp>)
    requires ops != [] && Tidy(b)
    ensures TidyThroughout(b, ops) <==> TidyThroughout(AfterOp(b, ops[0]), ops[1..])
    ensures NeverCachesAgain(b, ops) <==> !CachesAgain(b, ops[0]) && NeverCachesAgain(AfterOp(b, ops[0]), ops[1..])
    ensures TidyThroughout(b, ops) ==> Tidy(AfterOp(b, ops[0]))
  {
    hide Tidy, CachesAgain, AfterOp;
    var b', rest := AfterOp(b, ops[0]), ops[1..];
    forall i | 0 <= i <= |rest| ensures BucketRun(b, ops[..i + 1]) == BucketRun(b', rest[..i]) {
      assert ops[..i + 1][1..] == rest[..i];
    }
    assert BucketRun(b, ops[..0]) == b && BucketRun(b', rest[..0]) == b';
    if TidyThroughout(b, ops) {
      forall i | 0 <= i <= |rest| ensures Tidy(BucketRun(b', rest[..i])) {
        assert Tidy(BucketRun(b, ops[..i + 1]));
      }
      assert Tidy(BucketRun(b', rest[..0]));
    }
    if TidyThroughout(b', rest) {
      forall i | 0 <= i <= |ops| ensures Tidy(BucketRun(b, ops[..i])) {
        if i > 0 { assert Tidy(BucketRun(b', rest[..i - 1])); }
      }
    }
    if NeverCachesAgain(b, ops) {
      forall i | 0 <= i < |rest| ensures !CachesAgain(BucketRun(b', rest[..i]), rest[i]) {
        assert !CachesAgain(BucketRun(b, ops[..i + 1]), ops[i + 1]);
      }
      assert !CachesAgain(BucketRun(b, ops[..0]), ops[0]);
    }
    if !CachesAgain(b, ops[0]) && NeverCachesAgain(b', rest) {
      forall i | 0 <= i < |ops| ensures !CachesAgain(BucketRun(b, ops[..i]), ops[i]) {
        if i > 0 { assert !CachesAgain(BucketRun(b', rest[..i - 1]), rest[i - 1]); }
      }
    }
  }

  /** An id in the entries and again in the cache ends up twice in the entries. */
  lemma {:induction false} Surfaces(b: Bucket, p: nat, m: nat)
    requires p < |b.replacementCache| && m < |b.entries| && m >= |b.replacementCache| - p
    requires b.replacementCache[p].id == b.entries[m].id
    ensures !DistinctIds(BucketRun(b, Evictions(|b.replacementCache| - p)).entries)
    decreases |b.replacementCache| - p
  {
    hide DistinctIds;
    var n := |b.replacementCache| - p;
    var b' := EvictOldest(b);
    assert Evictions(n)[1..] == Evictions(n - 1);
    assert b'.entries[m - 1] == b.entries[m];
    if n == 1 {
      assert BucketRun(b', Evictions(0)) == b';
      TwoAlike(b'.entries, m - 1, |b'.entries| - 1);
    } else {
      Surfaces(b', p, m - 1);
    }
  }

  lemma TwoAlike(entries: seq<NodeEntry>, i: nat, j: nat)
    requires i < j < |entries| && entries[i].id == entries[j].id
    ensures !DistinctIds(entries)
  {}

  function Evictions(n: nat): seq<BucketOp> { seq(n, _ => Evict) }

  predicate CacheFits(b: Bucket) { |b.replacementCache| <= b.k || |b.replacementCache| <= 1 }

  lemma {:induction false} CacheStaysInBounds(b: Bucket, ops: seq<BucketOp>)
    requires CacheFits(b)
    ensures CacheFits(BucketRun(b, ops)) && BucketRun(b, ops).k == b.k
    decreases |ops|
  {
    hide Position;
    if ops != [] { CacheStaysInBounds(AfterOp(b, ops[0]), ops[1..]); }
  }

  /** So the condition is needed: once a bucket caches an id again, evictions bring the duplicate up. */
  lemma CachedAgainSurfaces(k: nat, ops: seq<BucketOp>, entry: NodeEntry)
    requires CachesAgain(BucketRun(Bucket([], [], k), ops), Offer(entry))
    ensures exists n :: !DistinctIds(BucketRun(AfterOp(BucketRun(Bucket([], [], k), ops), Offer(entry)), Evictions(n)).entries)
  {
    hide Position, BucketRun, DistinctIds;
    CacheStaysInBounds(Bucket([], [], k), ops);
    var b := BucketRun(Bucket([], [], k), ops);
    var i :| 0 <= i < |KeptCache(b)| && KeptCache(b)[i].id == entry.id;
    var b1 := AfterOp(b, Offer(entry));
    var b2 := EvictOldest(b1);
    assert b2.entries[|b2.entries| - 1] == entry && b2.replacementCache == KeptCache(b);
    Surfaces(b2, i, |b2.entries| - 1);
    FirstEviction(b1, |b2.replacementCache| - i);
  }

  lemma FirstEviction(b: Bucket, n: nat)
    ensures BucketRun(b, Evictions(n + 1)) == BucketRun(EvictOldest(b), Evictions(n))
  {
    assert Evictions(n + 1)[1..] == Evictions(n);
  }

  /** For example when one id is offered twice to a full bucket. */
  lemma EvictionCanDuplicate(a: NodeId, b: NodeId, c: NodeId)
    requires a != b && a != c && b != c
    ensures var full := Bucket([NodeEntry(a, 0), NodeEntry(c, 0)], [], 2);
            var twice := BucketInsert(BucketInsert(full, NodeEntry(b, 1)).0, NodeEntry(b, 2)).0;
            DistinctIds(twice.entries) && !DistinctIds(EvictOldest(EvictOldest(twice)).entries)
  {
    var full := Bucket([NodeEntry(a, 0), NodeEntry(c, 0)], [], 2);
    var once := BucketInsert(full, NodeEntry(b, 1)).0;
    var twice := BucketInsert(once, NodeEntry(b, 2)).0;
    assert twice.entries == full.entries && twice.replacementCache == [NodeEntry(b, 1), NodeEntry(b, 2)];
    var e := EvictOldest(EvictOldest(twice)).entries;
    assert e[0].id == e[1].id;
  }

  // The table ----------------------------------------------------------------------

  function NewTable(localId: NodeId, k: nat): Table {
    Table(localId, seq(ID_BITS, _ => Bucket([], [], k)))
  }

  function TableInsert(t: Table, entry: NodeEntry): (Table, InsertResult)
    requires |t.buckets| == ID_BITS
  {
    if entry.id == t.localId then (t, Updated)
    else
      match LeadingZerosDistance(t.localId, entry.id)
      case None => (t, Updated)
      case Some(i) =>
        var (bucket, result) := BucketInsert(t.buckets[i], entry);
        (t.(buckets := t.buckets[i := bucket]), result)
  }

  /** Bucket `i` holds at most `k` distinct ids, all at bucket distance `i` from us. */
  ghost predicate BucketOk(local: NodeId, b: Bucket, i: nat) {
    && |b.entries| <= b.k
    && DistinctIds(b.entries)
    && (forall j | 0 <= j < |b.entries| ::
          b.entries[j].id != local && LeadingZerosDistance(local, b.entries[j].id) == Some(i))
  }

  ghost predicate TableOk(t: Table) {
    |t.buckets| == ID_BITS && forall i | 0 <= i < ID_BITS :: BucketOk(t.localId, t.buckets[i], i)
  }

  lemma BucketInsertOk(local: NodeId, b: Bucket, entry: NodeEntry, i: nat)
    requires BucketOk(local, b, i) && entry.id != local && LeadingZerosDistance(local, entry.id) == Some(i)
    ensures BucketOk(local, BucketInsert(b, entry).0, i)
  {
    hide LeadingZerosDistance, Position;
    match Position(b.entries, entry.id)
    case Some(pos) =>
      var es := b.entries[..pos] + b.entries[pos + 1..] + [entry];
      MovedToBack(b.entries, pos, entry);
      forall j | 0 <= j < |es| ensures es[j].id != local && LeadingZerosDistance(local, es[j].id) == Some(i) {
        assert es[j] == if j < pos then b.entries[j] else if j < |es| - 1 then b.entries[j + 1] else entry;
      }
    case None =>
      AppendedIsDistinct(b.entries, entry);
  }

  /** Moving a known id to the back keeps the ids distinct. */
  lemma MovedToBack(entries: seq<NodeEntry>, pos: nat, entry: NodeEntry)
    requires pos < |entries| && DistinctIds(entries) && entries[pos].id == entry.id
    ensures DistinctIds(entries[..pos] + entries[pos + 1..] + [entry])
  {
    var es := entries[..pos] + entries[pos + 1..] + [entry];
    forall i, j | 0 <= i < j < |es| ensures es[i].id != es[j].id {
      assert es[i] == if i < pos then entries[i] else entries[i + 1];
      assert es[j] == if j < pos then entries[j] else if j < |es| - 1 then entries[j + 1] else entry;
    }
  }

  lemma AppendedIsDistinct(entries: seq<NodeEntry>, entry: NodeEntry)
    requires DistinctIds(entries)
    ensures DistinctIds(entries + [entry]) <==> forall i | 0 <= i < |entries| :: entries[i].id != entry.id
  {
    var es := entries + [entry];
    assert forall i | 0 <= i < |entries| :: es[i] == entries[i];
    if DistinctIds(es) {
      forall i | 0 <= i < |entries| ensures entries[i].id != entry.id {
        assert es[i].id != es[|entries|].id;
      }
    }
  }

  lemma TableInsertOk(t: Table, entry: NodeEntry)
    requires TableOk(t)
    ensures TableOk(TableInsert(t, entry).0)
  {
    hide LeadingZerosDistance, BucketOk, BucketInsert;
    if entry.id != t.localId && LeadingZerosDistance(t.localId, entry.id).Some? {
      var i := LeadingZerosDistance(t.localId, entry.id).value;
      BucketInsertOk(t.localId, t.buckets[i], entry, i);
    }
  }

  /** The table after any run of inserts. */
  function Inserts(t: Table, entries: seq<NodeEntry>): (r: Table)
    requires |t.buckets| == ID_BITS
    ensures |r.buckets| == ID_BITS
  {
    if entries == [] then t else TableInsert(Inserts(t, entries[..|entries| - 1]), entries[|entries| - 1]).0
  }

  lemma {:induction false} InsertsKeepTableOk(t: Table, entries: seq<NodeEntry>)
    requires TableOk(t)
    ensures TableOk(Inserts(t, entries)) && Inserts(t, entries).localId == t.localId
    decreases |entries|
  {
    if entries != [] {
      InsertsKeepTableOk(t, entries[..|entries| - 1]);
      TableInsertOk(Inserts(t, entries[..|entries| - 1]), entries[|entries| - 1]);
    }
  }

  /** All entries, bucket by bucket. */
  function Flatten(buckets: seq<Bucket>): seq<NodeEntry> {
    if buckets == [] then [] else Flatten(buckets[..|buckets| - 1]) + buckets[|buckets| - 1].entries
  }

  lemma {:induction false} FlattenDistinct(local: NodeId, buckets: seq<Bucket>)
    requires forall i | 0 <= i < |buckets| :: BucketOk(local, buckets[i], i)
    ensures DistinctIds(Flatten(buckets))
    ensures forall e | e in Flatten(buckets) :: e.id != local && LeadingZerosDistance(local, e.id).Some?
                                                && LeadingZerosDistance(local, e.id).value < |buckets|
    decreases |buckets|
  {
    hide LeadingZerosDistance;
    if buckets != [] {
      var n := |buckets| - 1;
      var rest := Flatten(buckets[..n]);
      FlattenDistinct(local, buckets[..n]);
      assert BucketOk(local, buckets[n], n);
      var all := Flatten(buckets);
      forall i, j | 0 <= i < j < |all|
        ensures all[i].id != all[j].id
      {
        if i < |rest| && |rest| <= j {
          assert all[i] in rest;
        }
      }
    }
  }

  /** Over every run of inserts into a new table, ids stay unique and never include our own. */
  lemma TableIdsStayUnique(localId: NodeId, k: nat, entries: seq<NodeEntry>)
    ensures var all := Flatten(Inserts(NewTable(localId, k), entries).buckets);
            DistinctIds(all) && forall e | e in all :: e.id != localId
  {
    var t := NewTable(localId, k);
    assert TableOk(t);
    InsertsKeepTableOk(t, entries);
    FlattenDistinct(localId, Inserts(t, entries).buckets);
  }

  // The closest entries ---------------------------------------------------------------

  function Ids(entries: seq<NodeEntry>): seq<NodeId> {
    seq(|entries|, i requires 0 <= i < |entries| => entries[i].id)
  }

  ghost function IdSet(entries: seq<NodeEntry>): set<NodeId> {
    set e | e in entries :: e.id
  }

  ghost predicate SortedByDistance(entries: seq<NodeEntry>, target: NodeId) {
    forall i, j | 0 <= i < j < |entries| :: !Closer(entries[j].id, entries[i].id, target)
  }

  method SortByDistance(entries: seq<NodeEntry>, target: NodeId) returns (sorted: seq<NodeEntry>)
    ensures multiset(sorted) == multiset(entries)
    ensures SortedByDistance(sorted, target)
  {
    sorted := [];
    for n := 0 to |entries|
      invariant multiset(sorted) == multiset(entries[..n])
      invariant SortedByDistance(sorted, target)
    {
      assert entries[..n + 1] == entries[..n] + [entries[n]];
      sorted := InsertSorted(sorted, entries[n], target);
    }
    assert entries[..|entries|] == entries;
  }

  method InsertSorted(sorted: seq<NodeEntry>, entry: NodeEntry, target: NodeId) returns (r: seq<NodeEntry>)
    requires SortedByDistance(sorted, target)
    ensures multiset(r) == multiset(sorted) + multiset{entry}
    ensures SortedByDistance(r, target)
  {
    hide Closer;
    var i := |sorted|;
    while i > 0 && Closer(entry.id, sorted[i - 1].id, target)
      invariant 0 <= i <= |sorted|
      invariant forall j | i <= j < |sorted| :: Closer(entry.id, sorted[j].id, target)
    {
      i := i - 1;
    }
    InsertionKeepsSorted(sorted, entry, target, i);
    r := sorted[..i] + [entry] + sorted[i..];
    assert sorted == sorted[..i] + sorted[i..];
  }

  lemma InsertionKeepsSorted(sorted: seq<NodeEntry>, entry: NodeEntry, target: NodeId, i: nat)
    requires SortedByDistance(sorted, target) && i <= |sorted|
    requires forall j | i <= j < |sorted| :: Closer(entry.id, sorted[j].id, target)
    requires i > 0 ==> !Closer(entry.id, sorted[i - 1].id, target)
    ensures SortedByDistance(sorted[..i] + [entry] + sorted[i..], target)
  {
    hide Closer;
    forall j | i <= j < |sorted|
      ensures !Closer(sorted[j].id, entry.id, target)
    {
      CloserAsymmetric(entry.id, sorted[j].id, target);
    }
    forall j | 0 <= j < i
      ensures !Closer(entry.id, sorted[j].id, target)
    {
      NotCloserTransitive(entry.id, sorted[i - 1].id, sorted[j].id, target);
    }
  }

  lemma NotCloserTransitive(a: NodeId, b: NodeId, c: NodeId, target: NodeId)
    requires !Closer(a, b, target) && (b == c || !Closer(b, c, target))
    ensures !Closer(a, c, target)
  {
    hide Closer;
    CloserTotal(b, c, target);
    if Closer(a, c, target) && Closer(c, b, target) {
      CloserTransitive(a, c, b, target);
    }
  }

  lemma {:induction false} DistinctCount(entries: seq<NodeEntry>)
    requires DistinctIds(entries)
    ensures |IdSet(entries)| == |entries|
    decreases |entries|
  {
    if entries != [] {
      var rest, last := entries[..|entries| - 1], entries[|entries| - 1];
      DistinctCount(rest);
      assert entries == rest + [last];
      assert IdSet(entries) == IdSet(rest) + {last.id};
    }
  }

  lemma {:induction false} PermutationKeepsDistinct(a: seq<NodeEntry>, b: seq<NodeEntry>)
    requires multiset(a) == multiset(b) && DistinctIds(a)
    ensures DistinctIds(b) && IdSet(a) == IdSet(b) && |a| == |b|
  {
    forall e
      ensures e in a <==> e in b
    {
      assert e in a <==> e in multiset(a);
      assert e in b <==> e in multiset(b);
    }
    assert |a| == |multiset(a)| == |multiset(b)| == |b|;
    forall i, j | 0 <= i < j < |b|
      ensures b[i].id != b[j].id
    {
      if b[i].id == b[j].id {
        assert b[i] in a && b[j] in a;
        assert b[i] == b[j];
        TwiceInMultiset(b, i, j);
        OnceInMultiset(a, b[i]);
      }
    }
  }

  lemma TwiceInMultiset(b: seq<NodeEntry>, i: nat, j: nat)
    requires i < j < |b| && b[i] == b[j]
    ensures multiset(b)[b[i]] >= 2
  {
    assert b == b[..j] + [b[j]] + b[j + 1..];
    assert b[i] in b[..j];
    assert multiset(b) == multiset(b[..j]) + multiset([b[j]]) + multiset(b[j + 1..]);
  }

  lemma {:induction false} OnceInMultiset(a: seq<NodeEntry>, e: NodeEntry)
    requires DistinctIds(a)
    ensures multiset(a)[e] <= 1
    decreases |a|
  {
    if a != [] {
      var rest, last := a[..|a| - 1], a[|a| - 1];
      OnceInMultiset(rest, e);
      assert a == rest + [last];
      assert last !in rest;
    }
  }

  /** The first entries of a sorted list with distinct ids are the nearest ones. */
  lemma PrefixIsNearest(sorted: seq<NodeEntry>, count: nat, target: NodeId)
    requires DistinctIds(sorted) && SortedByDistance(sorted, target)
    ensures IsNearest(Ids(sorted[..Min(count, |sorted|)]), IdSet(sorted), count, target)
  {
    hide Closer;
    DistinctCount(sorted);
    forall i, j | 0 <= i < j < |sorted|
      ensures Closer(sorted[i].id, sorted[j].id, target)
    {
      CloserTotal(sorted[i].id, sorted[j].id, target);
    }
    var n := Min(count, |sorted|);
    var r := Ids(sorted[..n]);
    assert forall m | 0 <= m < n :: sorted[m].id == r[m] && r[m] in r;
    forall x, i | x in IdSet(sorted) && x !in r && 0 <= i < |r|
      ensures Closer(r[i], x, target)
    {
      var j :| 0 <= j < |sorted| && sorted[j].id == x;
    }
  }

  class RoutingTable {
    const localId: NodeId
    var buckets: seq<Bucket>

    ghost function Value(): Table
      reads this
    {
      Table(localId, buckets)
    }

    ghost predicate Valid()
      reads this
    {
      TableOk(Value())
    }

    constructor (localId: NodeId, k: nat)
      ensures Valid() && Value() == NewTable(localId, k)
    {
      this.localId := localId;
      buckets := seq(ID_BITS, _ => Bucket([], [], k));
    }

    method Insert(entry: NodeEntry) returns (result: InsertResult)
      requires Valid()
      modifies this
      ensures Valid() && (Value(), result) == TableInsert(old(Value()), entry)
    {
      TableInsertOk(Value(), entry);
      if entry.id == localId {
        return Updated;
      }
      var index := LeadingZerosDistance(localId, entry.id);
      if index.None? {
        return Updated;
      }
      var bucket;
      bucket, result := InsertIntoBucket(buckets[index.value], entry);
      buckets := buckets[index.value := bucket];
    }

    method InsertIntoBucket(b: Bucket, entry: NodeEntry) returns (b': Bucket, result: InsertResult)
      ensures (b', result) == BucketInsert(b, entry)
    {
      b' := b;
      var position := Position(b.entries, entry.id);
      if position.Some? {
        var pos := position.value;
        b' := b'.(entries := b'.entries[..pos] + b'.entries[pos + 1..]);
        b' := b'.(entries := b'.entries + [entry]);
        return b', Updated;
      }
      if |b'.entries| < b'.k {
        b' := b'.(entries := b'.entries + [entry]);
        return b', Inserted;
      }
      if |b'.replacementCache| >= b'.k && b'.replacementCache != [] {
        b' := b'.(replacementCache := b'.replacementCache[1..]);
      }
      b' := b'.(replacementCache := b'.replacementCache + [entry]);
      result := BucketFull(if b'.entries == [] then None else Some(b'.entries[0].id));
    }

    /** The `count` entries nearest to the target, nearest first. */
    method Closest(target: NodeId, count: nat) returns (r: seq<NodeEntry>)
      requires Valid()
      ensures IsNearest(Ids(r), IdSet(Flatten(buckets)), count, target)
      ensures forall e | e in r :: e in Flatten(buckets) && e.id != localId
    {
      var all: seq<NodeEntry> := [];
      for i := 0 to |buckets|
        invariant all == Flatten(buckets[..i])
      {
        assert buckets[..i + 1][..i] == buckets[..i];
        all := all + buckets[i].entries;
      }
      assert buckets[..|buckets|] == buckets;
      FlattenDistinct(localId, buckets);
      var sorted := SortByDistance(all, target);
      PermutationKeepsDistinct(all, sorted);
      PrefixIsNearest(sorted, count, target);
      r := sorted[..Min(count, |sorted|)];
      forall e | e in r
        ensures e in all
      {
        assert e in multiset(sorted);
      }
    }
  }
}
