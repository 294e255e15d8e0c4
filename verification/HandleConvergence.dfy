/** Replicas that insert the same network records agree on who owns each name. */
module HandleConvergence {
  import opened Wrappers
  import opened ByteOrder
  import opened HandleRegistry

  /** A record and the time at which a replica inserts it. */
  datatype Arrival = Arrival(handle: Handle, now: nat)

  function Replica(arrivals: seq<Arrival>): Registry {
    if arrivals == [] then EMPTY_REGISTRY
    else
      var last := arrivals[|arrivals| - 1];
      InsertValidated(Replica(arrivals[..|arrivals| - 1]), last.handle, last.now).0
  }

  /** Each record validates when inserted, and none has expired by a later insertion. */
  ghost predicate Timely(arrivals: seq<Arrival>) {
    && (forall i | 0 <= i < |arrivals| :: Validate(arrivals[i].handle, arrivals[i].now).Ok?)
    && (forall i, j | 0 <= i < j < |arrivals| :: !arrivals[i].handle.IsExpiredAt(arrivals[j].now))
  }

  /** Registered earlier, or at the same time by the same owner or one with lower bytes. */
  predicate AtMost(h: Handle, h': Handle) {
    || h.registeredAt < h'.registeredAt
    || (h.registeredAt == h'.registeredAt && (h.owner == h'.owner || LexLess(h.owner, h'.owner)))
  }

  lemma AtMostTotal(h: Handle, h': Handle)
    ensures AtMost(h, h') || Precedes(h'.registeredAt, h'.owner, h.registeredAt, h.owner)
  {
    LexTotal(h.owner, h'.owner);
  }

  lemma AtMostTransitive(a: Handle, b: Handle, c: Handle)
    requires AtMost(a, b) && AtMost(b, c)
    ensures AtMost(a, c)
  {
    if LexLess(a.owner, b.owner) && LexLess(b.owner, c.owner) {
      LexTransitive(a.owner, b.owner, c.owner);
    }
  }

  lemma AtMostAntisymmetric(a: Handle, b: Handle)
    requires AtMost(a, b) && AtMost(b, a)
    ensures a.registeredAt == b.registeredAt && a.owner == b.owner
  {
    if LexLess(a.owner, b.owner) {
      LexAsymmetric(a.owner, b.owner);
    }
  }

  predicate Has(arrivals: seq<Arrival>, h: Handle) {
    exists i | 0 <= i < |arrivals| :: arrivals[i].handle == h
  }

  /** The stored record is one of those that arrived, and comes first among those of its name. */
  ghost predicate HoldsFirst(r: Registry, arrivals: seq<Arrival>) {
    && (forall n | n in r.handles :: Has(arrivals, r.handles[n]) && r.handles[n].name == n)
    && (forall i | 0 <= i < |arrivals| ::
          arrivals[i].handle.name in r.handles && AtMost(r.handles[arrivals[i].handle.name], arrivals[i].handle))
  }

  lemma InsertHoldsFirst(r: Registry, arrivals: seq<Arrival>, a: Arrival)
    requires HoldsFirst(r, arrivals)
    requires forall i | 0 <= i < |arrivals| :: !arrivals[i].handle.IsExpiredAt(a.now)
    ensures HoldsFirst(InsertValidated(r, a.handle, a.now).0, arrivals + [a])
  {
    var r', all := InsertValidated(r, a.handle, a.now).0, arrivals + [a];
    var h := a.handle;
    assert all[|arrivals|] == a;
    if h.name in r.handles {
      AtMostTotal(r.handles[h.name], h);
    }
    forall n | n in r'.handles
      ensures Has(all, r'.handles[n]) && r'.handles[n].name == n
    {
      if r'.handles[n] != h {
        var i :| 0 <= i < |arrivals| && arrivals[i].handle == r.handles[n];
        assert all[i] == arrivals[i];
      }
    }
    forall i | 0 <= i < |all|
      ensures all[i].handle.name in r'.handles && AtMost(r'.handles[all[i].handle.name], all[i].handle)
    {
      if i < |arrivals| && all[i].handle.name == h.name && r'.handles[h.name] == h {
        AtMostTransitive(h, r.handles[h.name], arrivals[i].handle);
      }
    }
  }

  /** The winner of a name is the least record by time, then by owner bytes. */
  lemma {:induction false} WinnerIsFirst(arrivals: seq<Arrival>)
    requires Timely(arrivals)
    ensures HoldsFirst(Replica(arrivals), arrivals)
    decreases |arrivals|
  {
    if arrivals != [] {
      var shorter, last := arrivals[..|arrivals| - 1], arrivals[|arrivals| - 1];
      assert arrivals == shorter + [last];
      WinnerIsFirst(shorter);
      InsertHoldsFirst(Replica(shorter), shorter, last);
    }
  }

  ghost predicate SameRecords(a: seq<Arrival>, b: seq<Arrival>) {
    forall h :: Has(a, h) <==> Has(b, h)
  }

  lemma FirstAmong(a: seq<Arrival>, b: seq<Arrival>, name: string)
    requires HoldsFirst(Replica(a), a) && HoldsFirst(Replica(b), b) && SameRecords(a, b) && name in Replica(a).handles
    ensures name in Replica(b).handles && AtMost(Replica(b).handles[name], Replica(a).handles[name])
  {}

  /**
    Whatever the order, the repetitions and the insertion times, two replicas that
    got the same records agree on every name's owner and registration time.
   */
  lemma ReplicasConverge(a: seq<Arrival>, b: seq<Arrival>, name: string)
    requires Timely(a) && Timely(b) && SameRecords(a, b)
    ensures name in Replica(a).handles <==> name in Replica(b).handles
    ensures name in Replica(a).handles ==>
              && Replica(a).handles[name].owner == Replica(b).handles[name].owner
              && Replica(a).handles[name].registeredAt == Replica(b).handles[name].registeredAt
  {
    WinnerIsFirst(a);
    WinnerIsFirst(b);
    if name in Replica(a).handles {
      FirstAmong(a, b, name);
      FirstAmong(b, a, name);
      AtMostAntisymmetric(Replica(a).handles[name], Replica(b).handles[name]);
    } else if name in Replica(b).handles {
      FirstAmong(b, a, name);
    }
  }
}
