/** What a routing table holds after inserts, and what its distances mean. */
module RoutingContents {
  import opened Wrappers
  import opened ByteOrder
  import opened BitGroups
  import opened NodeIds
  import LeadingZeros
  import opened Routing

  // Distances -----------------------------------------------------------------------

  lemma XorBits(x: bv8, y: bv8, z: bv8)
    ensures Xor(x, y) == Xor(y, x) && (Xor(x, y) == 0 <==> x == y) && Xor(Xor(x, y), Xor(y, z)) == Xor(x, z)
  {}

  /** The XOR distance is symmetric, zero exactly between equal ids, and composes. */
  lemma XorMetric(a: NodeId, b: NodeId, c: NodeId)
    ensures XorDistance(a, b) == XorDistance(b, a)
    ensures (forall i | 0 <= i < 32 :: XorDistance(a, b)[i] == 0) <==> a == b
    ensures XorDistance(XorDistance(a, b), XorDistance(b, c)) == XorDistance(a, c)
  {
    hide Xor;
    forall i | 0 <= i < 32
      ensures XorDistance(a, b)[i] == XorDistance(b, a)[i] && (XorDistance(a, b)[i] == 0 <==> a[i] == b[i])
      ensures XorDistance(XorDistance(a, b), XorDistance(b, c))[i] == XorDistance(a, c)[i]
    {
      XorBits(a[i], b[i], c[i]);
    }
    assert (forall i | 0 <= i < 32 :: a[i] == b[i]) ==> a == b;
  }

  function AsBytes(d: Bytes): (r: seq<byte>)
    ensures |r| == |d|
  {
    seq(|d|, i requires 0 <= i < |d| => d[i] as nat)
  }

  /** An id's bucket is the number of leading zero bits of its distance; only our own id has none. */
  lemma BucketIsLeadingZeros(a: NodeId, b: NodeId)
    ensures LeadingZerosDistance(a, b).None? <==> a == b
    ensures a != b ==> LeadingZerosDistance(a, b) == Some(LeadingZeros.Zeros(AsBytes(XorDistance(a, b))))
  {
    hide Xor, LeadingZeros.Zeros, LeadingZeros.ByteZeros;
    var d := XorDistance(a, b);
    XorMetric(a, b, a);
    if a != b {
      ZerosFrom(d, 0);
      assert AsBytes(d)[0..] == AsBytes(d);
    }
  }

  lemma {:induction false} ZerosFrom(d: NodeId, i: nat)
    requires i <= 32
    ensures match FirstNonZero(d, i)
      case Some(j) => LeadingZeros.Zeros(AsBytes(d)[i..]) == (j - i) * 8 + LeadingZeros.ByteZeros(d[j] as nat)
      case None => true
    decreases 32 - i
  {
    if i < 32 {
      var rest := AsBytes(d)[i..];
      assert rest[0] == d[i] as nat && rest[1..] == AsBytes(d)[i + 1..];
      ByteIsZero(d[i]);
      ZerosFrom(d, i + 1);
    }
  }

  lemma ByteIsZero(x: bv8)
    ensures x as nat == 0 <==> x == 0
  {}

  lemma ByteOrderIsNumeric(x: bv8, y: bv8)
    ensures x < y <==> (x as nat) < (y as nat)
    ensures x == y <==> x as nat == y as nat
  {}

  lemma HeadsDecide(x: nat, y: nat, p: nat, q: nat, unit: nat)
    requires p < unit && q < unit
    ensures x < y ==> x * unit + p < y * unit + q
    ensures x > y ==> x * unit + p > y * unit + q
  {
    assert x < y ==> (x + 1) * unit <= y * unit;
    assert x > y ==> (y + 1) * unit <= x * unit;
  }

  /** Byte strings of one length are ordered as the numbers they write. */
  lemma {:induction false} LexIsNumeric(a: Bytes, b: Bytes)
    requires |a| == |b|
    ensures LexLess(a, b) <==> LeadingZeros.BigEndian(AsBytes(a)) < LeadingZeros.BigEndian(AsBytes(b))
    decreases |a|
  {
    hide Pow2;
    if a != [] {
      var x, y := AsBytes(a), AsBytes(b);
      assert x[1..] == AsBytes(a[1..]) && y[1..] == AsBytes(b[1..]);
      ByteOrderIsNumeric(a[0], b[0]);
      ByteOrderIsNumeric(b[0], a[0]);
      LexIsNumeric(a[1..], b[1..]);
      HeadsDecide(x[0], y[0], LeadingZeros.BigEndian(x[1..]), LeadingZeros.BigEndian(y[1..]), Pow2(8 * (|a| - 1)));
    }
  }

  /** Closer means a smaller XOR distance, read as a number. */
  lemma CloserIsSmaller(a: NodeId, b: NodeId, target: NodeId)
    ensures Closer(a, b, target) <==>
            LeadingZeros.BigEndian(AsBytes(XorDistance(a, target))) < LeadingZeros.BigEndian(AsBytes(XorDistance(b, target)))
  {
    hide Xor, LexLess, LeadingZeros.BigEndian;
    LexIsNumeric(XorDistance(a, target), XorDistance(b, target));
  }

  // One bucket ------------------------------------------------------------------------

  predicate HasId(entries: seq<NodeEntry>, id: NodeId) { exists i | 0 <= i < |entries| :: entries[i].id == id }

  /** A known id moves to the back, a new one is added while there is room, and otherwise only cached. */
  lemma BucketInsertExactly(b: Bucket, entry: NodeEntry)
    ensures var (b', result) := BucketInsert(b, entry);
            && b'.k == b.k
            && (result == Updated <==> HasId(b.entries, entry.id))
            && (result == Inserted <==> !HasId(b.entries, entry.id) && |b.entries| < b.k)
            && (result.BucketFull? <==> !HasId(b.entries, entry.id) && |b.entries| >= b.k)
            && (result.Updated? ==> |b'.entries| == |b.entries|)
            && (result.Inserted? ==> b'.entries == b.entries + [entry])
            && (!result.BucketFull? ==>
                  && b'.entries != [] && b'.entries[|b'.entries| - 1] == entry
                  && b'.replacementCache == b.replacementCache)
            && (result.BucketFull? ==>
                  && b'.entries == b.entries
                  && b'.replacementCache != [] && b'.replacementCache[|b'.replacementCache| - 1] == entry
                  && result.pingTarget == if b.entries == [] then None else Some(b.entries[0].id))
  {
    hide Position;
    var p := Position(b.entries, entry.id);
    assert p.Some? <==> HasId(b.entries, entry.id);
  }

  /** The cache keeps the newest offers: a full one loses only its oldest. */
  lemma CacheKeepsNewest(b: Bucket, entry: NodeEntry)
    requires BucketInsert(b, entry).1.BucketFull?
    ensures BucketInsert(b, entry).0.replacementCache
            == (if |b.replacementCache| < b.k || b.replacementCache == [] then b.replacementCache else b.replacementCache[1..]) + [entry]
  {
    hide Position;
  }

  /** Eviction drops the oldest entry and puts the newest cached one, if any, at the back. */
  lemma EvictExactly(b: Bucket)
    ensures var b', rest := EvictOldest(b), if b.entries == [] then [] else b.entries[1..];
            if b.replacementCache == [] then b' == b.(entries := rest)
            else
              && b'.replacementCache + [b.replacementCache[|b.replacementCache| - 1]] == b.replacementCache
              && b'.entries == rest + [b.replacementCache[|b.replacementCache| - 1]] && b'.k == b.k
  {}

  /** The other entries of a bucket stay, in their order. */
  lemma UpdateKeepsOthers(b: Bucket, entry: NodeEntry, i: nat, j: nat)
    requires DistinctIds(b.entries) && i < j < |b.entries| && b.entries[i].id != entry.id && b.entries[j].id != entry.id
    ensures var es := BucketInsert(b, entry).0.entries;
            exists x, y | 0 <= x < y < |es| :: es[x] == b.entries[i] && es[y] == b.entries[j]
  {
    hide Position;
    var es := BucketInsert(b, entry).0.entries;
    match Position(b.entries, entry.id)
    case Some(p) =>
      var x, y := if i < p then i else i - 1, if j < p then j else j - 1;
      assert es[x] == b.entries[i] && es[y] == b.entries[j];
    case None =>
      assert es[i] == b.entries[i] && es[j] == b.entries[j];
  }

  lemma BucketIds(b: Bucket, entry: NodeEntry)
    ensures var (b', result) := BucketInsert(b, entry);
            IdSet(b'.entries) == if result.BucketFull? then IdSet(b.entries) else IdSet(b.entries) + {entry.id}
  {
    hide Position;
    var (b', result) := BucketInsert(b, entry);
    match Position(b.entries, entry.id)
    case Some(p) =>
      var es := b.entries[..p] + b.entries[p + 1..] + [entry];
      assert b.entries == b.entries[..p] + [b.entries[p]] + b.entries[p + 1..];
      forall id ensures id in IdSet(es) <==> id in IdSet(b.entries) {
        IdsSplit(b.entries[..p] + b.entries[p + 1..], [entry], id);
        IdsSplit(b.entries[..p], b.entries[p + 1..], id);
        IdsSplit(b.entries[..p] + [b.entries[p]], b.entries[p + 1..], id);
        IdsSplit(b.entries[..p], [b.entries[p]], id);
      }
    case None =>
      forall id ensures id in IdSet(b.entries + [entry]) <==> id in IdSet(b.entries) || id == entry.id {
        IdsSplit(b.entries, [entry], id);
      }
  }

  lemma IdsSplit(a: seq<NodeEntry>, b: seq<NodeEntry>, id: NodeId)
    ensures id in IdSet(a + b) <==> id in IdSet(a) || id in IdSet(b)
    ensures |b| == 1 ==> (id in IdSet(b) <==> id == b[0].id)
  {
    if id in IdSet(a + b) {
      var e :| e in a + b && e.id == id;
      assert e in a || e in b;
    }
    if id in IdSet(a) {
      var e :| e in a && e.id == id;
      assert e in a + b;
    }
    if id in IdSet(b) {
      var e :| e in b && e.id == id;
      assert e in a + b;
    }
    if |b| == 1 {
      assert b[0] in b;
    }
  }

  // The table ----------------------------------------------------------------------------

  lemma {:induction false} FlattenHolds(buckets: seq<Bucket>, e: NodeEntry)
    ensures e in Flatten(buckets) <==> exists i | 0 <= i < |buckets| :: e in buckets[i].entries
    decreases |buckets|
  {
    if buckets != [] {
      FlattenHolds(buckets[..|buckets| - 1], e);
    }
  }

  ghost predicate Holds(t: Table, id: NodeId) { id in IdSet(Flatten(t.buckets)) }

  /** An id can only be in the bucket of its distance. */
  lemma HeldInItsBucket(t: Table, id: NodeId, i: nat)
    requires TableOk(t) && LeadingZerosDistance(t.localId, id) == Some(i)
    ensures i < |t.buckets| && (Holds(t, id) <==> id in IdSet(t.buckets[i].entries))
  {
    hide LeadingZerosDistance, Flatten;
    if Holds(t, id) {
      var e :| e in Flatten(t.buckets) && e.id == id;
      FlattenHolds(t.buckets, e);
      var j :| 0 <= j < |t.buckets| && e in t.buckets[j].entries;
      assert BucketOk(t.localId, t.buckets[j], j);
    }
    if id in IdSet(t.buckets[i].entries) {
      var e :| e in t.buckets[i].entries && e.id == id;
      FlattenHolds(t.buckets, e);
    }
  }

  lemma OwnIdIsIgnored(t: Table, entry: NodeEntry)
    requires |t.buckets| == ID_BITS && entry.id == t.localId
    ensures TableInsert(t, entry) == (t, Updated)
  {}

  /**
    Inserting another node's entry puts that entry into the table beside all ids
    already there, unless its bucket is full without it; then the table's entries
    stay as they are.
   */
  lemma TableInsertExactly(t: Table, entry: NodeEntry, i: nat)
    requires TableOk(t) && LeadingZerosDistance(t.localId, entry.id) == Some(i) && entry.id != t.localId
    ensures var (t', result) := TableInsert(t, entry);
            && (result.BucketFull? <==> !Holds(t, entry.id) && |t.buckets[i].entries| >= t.buckets[i].k)
            && (result == Updated <==> Holds(t, entry.id))
            && (!result.BucketFull? ==> entry in Flatten(t'.buckets))
            && (forall id :: Holds(t', id) <==> Holds(t, id) || (id == entry.id && !result.BucketFull?))
            && (result.BucketFull? ==> forall e :: e in Flatten(t'.buckets) <==> e in Flatten(t.buckets))
  {
    hide LeadingZerosDistance, Flatten, BucketInsert, IdSet;
    var (t', result) := TableInsert(t, entry);
    var b := t.buckets[i];
    BucketInsertExactly(b, entry);
    BucketIds(b, entry);
    HeldInItsBucket(t, entry.id, i);
    TableInsertOk(t, entry);
    HasIdIsIdSet(b.entries, entry.id);
    if !result.BucketFull? {
      var es := t'.buckets[i].entries;
      assert es[|es| - 1] in t'.buckets[i].entries;
      FlattenHolds(t'.buckets, entry);
    }
    forall id ensures Holds(t', id) <==> Holds(t, id) || (id == entry.id && !result.BucketFull?) {
      HeldExactly(t, id);
      HeldExactly(t', id);
      assert forall j | 0 <= j < |t.buckets| && j != i :: t'.buckets[j] == t.buckets[j];
      if j :| 0 <= j < |t'.buckets| && id in IdSet(t'.buckets[j].entries) {
        assert j != i ==> id in IdSet(t.buckets[j].entries);
        assert j == i ==> id in IdSet(t.buckets[i].entries) || id == entry.id;
      }
      if j :| 0 <= j < |t.buckets| && id in IdSet(t.buckets[j].entries) {
        assert id in IdSet(t'.buckets[j].entries);
      }
      assert !result.BucketFull? ==> entry.id in IdSet(t'.buckets[i].entries);
    }
    if result.BucketFull? {
      forall e ensures e in Flatten(t'.buckets) <==> e in Flatten(t.buckets) {
        FlattenHolds(t.buckets, e);
        FlattenHolds(t'.buckets, e);
        assert forall j | 0 <= j < |t.buckets| :: t'.buckets[j].entries == t.buckets[j].entries;
      }
    }
  }

  lemma HasIdIsIdSet(entries: seq<NodeEntry>, id: NodeId)
    ensures HasId(entries, id) <==> id in IdSet(entries)
  {
    if HasId(entries, id) {
      var i :| 0 <= i < |entries| && entries[i].id == id;
      assert entries[i] in entries;
    }
  }

  lemma HeldExactly(t: Table, id: NodeId)
    ensures Holds(t, id) <==> exists j | 0 <= j < |t.buckets| :: id in IdSet(t.buckets[j].entries)
  {
    hide Flatten;
    if Holds(t, id) {
      var e :| e in Flatten(t.buckets) && e.id == id;
      FlattenHolds(t.buckets, e);
      var j :| 0 <= j < |t.buckets| && e in t.buckets[j].entries;
      assert id in IdSet(t.buckets[j].entries);
    }
    if j :| 0 <= j < |t.buckets| && id in IdSet(t.buckets[j].entries) {
      var e :| e in t.buckets[j].entries && e.id == id;
      FlattenHolds(t.buckets, e);
    }
  }

  // Runs -----------------------------------------------------------------------------------

  /** The bucket an id belongs to holds `k` ids. */
  ghost predicate BucketFull(t: Table, id: NodeId, k: nat) {
    match LeadingZerosDistance(t.localId, id)
    case None => false
    case Some(i) => i < |t.buckets| && |t.buckets[i].entries| == k
  }

  ghost predicate AllOf(t: Table, k: nat) { forall i | 0 <= i < |t.buckets| :: t.buckets[i].k == k }

  lemma InsertKeepsSizes(t: Table, entry: NodeEntry, k: nat, i: nat)
    requires TableOk(t) && AllOf(t, k) && i < ID_BITS
    ensures var t' := TableInsert(t, entry).0;
            AllOf(t', k) && t'.localId == t.localId && |t'.buckets| == ID_BITS && |t.buckets[i].entries| <= |t'.buckets[i].entries|
  {
    hide LeadingZerosDistance, BucketInsert;
    if entry.id != t.localId && LeadingZerosDistance(t.localId, entry.id).Some? {
      BucketInsertExactly(t.buckets[LeadingZerosDistance(t.localId, entry.id).value], entry);
    }
  }

  /** Over every run of inserts, each id offered is in the table or its bucket is full. */
  lemma {:induction false} OfferedIdsAreHeld(localId: NodeId, k: nat, entries: seq<NodeEntry>, id: NodeId)
    requires id != localId && HasId(entries, id)
    ensures var t := Inserts(NewTable(localId, k), entries);
            t.localId == localId && AllOf(t, k) && TableOk(t) && (Holds(t, id) || BucketFull(t, id, k))
    decreases |entries|
  {
    hide LeadingZerosDistance, TableInsert, Flatten, TableOk, BucketOk;
    var shorter, e := entries[..|entries| - 1], entries[|entries| - 1];
    var t := Inserts(NewTable(localId, k), shorter);
    TablesAreOk(localId, k, shorter);
    TablesAreOk(localId, k, entries);
    var t' := TableInsert(t, e).0;
    if HasId(shorter, id) {
      OfferedIdsAreHeld(localId, k, shorter, id);
      InsertLosesNothing(t, e, k, id);
    } else {
      OfferedNow(t, e, k);
    }
  }

  lemma {:induction false} TablesAreOk(localId: NodeId, k: nat, entries: seq<NodeEntry>)
    ensures var t := Inserts(NewTable(localId, k), entries); TableOk(t) && AllOf(t, k) && t.localId == localId
    decreases |entries|
  {
    hide LeadingZerosDistance, TableInsert, BucketOk;
    if entries != [] {
      TablesAreOk(localId, k, entries[..|entries| - 1]);
      var t, e := Inserts(NewTable(localId, k), entries[..|entries| - 1]), entries[|entries| - 1];
      TableInsertOk(t, e);
      InsertKeepsSizes(t, e, k, 0);
    } else {
      NewTableIsOk(localId, k);
    }
  }

  lemma NewTableIsOk(localId: NodeId, k: nat)
    ensures |NewTable(localId, k).buckets| == 256 && TableOk(NewTable(localId, k)) && AllOf(NewTable(localId, k), k)
  {}

  lemma InsertLosesNothing(t: Table, e: NodeEntry, k: nat, id: NodeId)
    requires TableOk(t) && AllOf(t, k) && (Holds(t, id) || BucketFull(t, id, k))
    ensures var t' := TableInsert(t, e).0; Holds(t', id) || BucketFull(t', id, k)
  {
    hide LeadingZerosDistance, BucketInsert, IdSet, Flatten;
    if e.id == t.localId {
      OwnIdIsIgnored(t, e);
    } else if LeadingZerosDistance(t.localId, e.id).Some? {
      TableInsertExactly(t, e, LeadingZerosDistance(t.localId, e.id).value);
      if BucketFull(t, id, k) {
        var i := LeadingZerosDistance(t.localId, id).value;
        InsertKeepsSizes(t, e, k, i);
        TableInsertOk(t, e);
        assert BucketOk(t.localId, TableInsert(t, e).0.buckets[i], i);
      }
    }
  }

  lemma OfferedNow(t: Table, e: NodeEntry, k: nat)
    requires TableOk(t) && AllOf(t, k) && e.id != t.localId
    ensures var t' := TableInsert(t, e).0; Holds(t', e.id) || BucketFull(t', e.id, k)
  {
    hide LeadingZerosDistance, BucketInsert, IdSet, Flatten;
    BucketIsLeadingZeros(t.localId, e.id);
    var i := LeadingZerosDistance(t.localId, e.id).value;
    TableInsertExactly(t, e, i);
    InsertKeepsSizes(t, e, k, i);
    TableInsertOk(t, e);
    assert BucketOk(t.localId, t.buckets[i], i) && BucketOk(t.localId, TableInsert(t, e).0.buckets[i], i);
  }
}
