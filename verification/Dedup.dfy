/** Duplicate detection over two rotating epochs (crates/ephemera-gossip/src/plumtree.rs). */
module Dedup {
  const EPOCH_SECS := 300.0

  datatype Seen<H(==)> = Seen(current: set<H>, previous: set<H>, start: real)

  /** `at` is read to measure the epoch, `stamp` to begin the next one. */
  function Rotate<H(==)>(d: Seen<H>, at: real, stamp: real): Seen<H> {
    if at - d.start >= EPOCH_SECS then Seen({}, d.current, stamp) else d
  }

  predicate Known<H(==)>(d: Seen<H>, h: H) { h in d.current || h in d.previous }

  /** A call of `mark_seen` or `is_duplicate` and when it happens. */
  datatype Event<H> = Mark(hash: H, at: real) | Query(hash: H, at: real, stamp: real)

  function Next<H(==)>(d: Seen<H>, e: Event<H>): Seen<H> {
    match e
    case Mark(h, _) => d.(current := d.current + {h})
    case Query(_, at, stamp) => Rotate(d, at, stamp)
  }

  function Run<H(==)>(d: Seen<H>, events: seq<Event<H>>): Seen<H>
    decreases |events|
  {
    if events == [] then d else Run(Next(d, events[0]), events[1..])
  }

  function EndOf<H>(e: Event<H>): real { if e.Mark? then e.at else e.stamp }

  /** The clock never goes back. */
  ghost predicate Ordered<H(!new)>(events: seq<Event<H>>, from: real, to: real)
    decreases |events|
  {
    if events == [] then from <= to
    else from <= events[0].at <= EndOf(events[0]) && Ordered(events[1..], EndOf(events[0]), to)
  }

  // Theorems ---------------------------------------------------------------------

  /** The hash cannot be lost by a query before `t` + 300. */
  ghost predicate Holds<H(!new)>(d: Seen<H>, h: H, t: real) {
    h in d.current || (h in d.previous && d.start >= t)
  }

  lemma {:induction false} HeldThroughout<H(!new)>(d: Seen<H>, h: H, t: real, events: seq<Event<H>>, from: real, to: real)
    requires Holds(d, h, t) && t <= from && Ordered(events, from, to) && to < t + EPOCH_SECS
    ensures Holds(Run(d, events), h, t)
    decreases |events|
  {
    if events != [] {
      EndsLater(events[1..], EndOf(events[0]), to);
      HeldThroughout(Next(d, events[0]), h, t, events[1..], EndOf(events[0]), to);
    }
  }

  lemma {:induction false} EndsLater<H(!new)>(events: seq<Event<H>>, from: real, to: real)
    requires Ordered(events, from, to)
    ensures from <= to
    decreases |events|
  {
    if events != [] { EndsLater(events[1..], EndOf(events[0]), to); }
  }

  /** A hash marked at `t` is a duplicate for every query before `t` + 300 seconds. */
  lemma MarkedIsDuplicate<H(!new)>(d: Seen<H>, h: H, t: real, between: seq<Event<H>>, at: real, stamp: real)
    requires Ordered(between, t, at) && at < t + 300.0 && at <= stamp
    ensures Known(Next(Run(Next(d, Mark(h, t)), between), Query(h, at, stamp)), h)
  {
    HeldThroughout(Next(d, Mark(h, t)), h, t, between, t, at);
  }

  ghost predicate Marks<H>(events: seq<Event<H>>, h: H) {
    exists i | 0 <= i < |events| :: events[i].Mark? && events[i].hash == h
  }

  lemma MarksSplit<H>(events: seq<Event<H>>, h: H)
    requires events != []
    ensures Marks(events, h) <==> (events[0].Mark? && events[0].hash == h) || Marks(events[1..], h)
  {}

  /** Whatever the clock does, a hash that becomes known was marked. */
  lemma {:induction false} KnownWasMarked<H(!new)>(d: Seen<H>, events: seq<Event<H>>, h: H)
    requires Known(Run(d, events), h)
    ensures Known(d, h) || Marks(events, h)
    decreases |events|
  {
    hide Marks;
    if events != [] {
      MarksSplit(events, h);
      KnownWasMarked(Next(d, events[0]), events[1..], h);
    }
  }

  /** So from a new deduplicator no query reports a hash never marked. */
  lemma UnmarkedIsNew<H(!new)>(start: real, events: seq<Event<H>>, h: H, at: real, stamp: real)
    requires !Marks(events, h)
    ensures !Known(Next(Run(Seen({}, {}, start), events), Query(h, at, stamp)), h)
  {
    hide Marks, Run;
    if Known(Run(Seen({}, {}, start), events), h) {
      KnownWasMarked(Seen({}, {}, start), events, h);
    }
  }

  lemma {:induction false} StartIsPast<H(!new)>(d: Seen<H>, events: seq<Event<H>>, from: real, to: real)
    requires d.start <= from && Ordered(events, from, to)
    ensures Run(d, events).start <= to
    decreases |events|
  {
    if events != [] {
      StartIsPast(Next(d, events[0]), events[1..], EndOf(events[0]), to);
    }
  }

  lemma {:induction false} Fades<H(!new)>(d: Seen<H>, events: seq<Event<H>>, h: H)
    requires !Marks(events, h)
    ensures var r := Run(d, events);
      && (h in r.current ==> h in d.current && r.start == d.start)
      && (h !in d.current && h in r.previous ==> h in d.previous && r.start == d.start)
    decreases |events|
  {
    hide Marks;
    if events != [] {
      MarksSplit(events, h);
      Fades(Next(d, events[0]), events[1..], h);
    }
  }

  /**
   * A hash last marked at `t` is forgotten once a query comes at least 300 seconds after `t` and
   * another at least 300 seconds after that one.
   */
  lemma ForgottenAfterTwoEpochs<H(!new)>(
    d: Seen<H>, h: H, t: real, before: seq<Event<H>>, first: Event<H>, between: seq<Event<H>>, last: Event<H>)
    requires d.start <= t && first.Query? && last.Query?
    requires Ordered(before, t, first.at) && first.at <= first.stamp && Ordered(between, first.stamp, last.at)
    requires !Marks(before, h) && !Marks(between, h)
    requires first.at >= t + 300.0 && last.at >= first.stamp + 300.0
    ensures !Known(Next(Run(Next(Run(Next(d, Mark(h, t)), before), first), between), last), h)
  {
    hide Run, Marks;
    var d0 := Next(d, Mark(h, t));
    var d1 := Run(d0, before);
    Fades(d0, before, h);
    StartIsPast(d0, before, t, first.at);
    var d2 := Next(d1, first);
    Fades(d2, between, h);
  }

  // The exact rule -----------------------------------------------------------------

  /** How many of the queries find their epoch over. */
  function Rotations<H(==)>(d: Seen<H>, events: seq<Event<H>>): nat
    decreases |events|
  {
    if events == [] then 0
    else
      var e := events[0];
      (if e.Query? && e.at - d.start >= 300.0 then 1 else 0) + Rotations(Next(d, e), events[1..])
  }

  /** Event `i` marks the hash, and at most one query after it rotates. */
  ghost predicate MarkLasts<H(!new)>(d: Seen<H>, events: seq<Event<H>>, h: H, i: nat)
    requires i < |events|
  {
    events[i].Mark? && events[i].hash == h && Rotations(Run(d, events[..i + 1]), events[i + 1..]) <= 1
  }

  ghost predicate SomeMarkLasts<H(!new)>(d: Seen<H>, events: seq<Event<H>>, h: H) {
    exists i | 0 <= i < |events| :: MarkLasts(d, events, h, i)
  }

  lemma MarkLastsSplit<H(!new)>(d: Seen<H>, events: seq<Event<H>>, h: H)
    requires events != []
    ensures SomeMarkLasts(d, events, h) <==>
            || (events[0].Mark? && events[0].hash == h && Rotations(Next(d, events[0]), events[1..]) <= 1)
            || SomeMarkLasts(Next(d, events[0]), events[1..], h)
  {
    hide Rotations, Next;
    var d', rest := Next(d, events[0]), events[1..];
    assert events[..1][1..] == [];
    assert Run(d, events[..1]) == d' by { assert Run(d', events[..1][1..]) == d'; }
    assert MarkLasts(d, events, h, 0) <==> events[0].Mark? && events[0].hash == h && Rotations(d', rest) <= 1;
    forall i | 0 <= i < |rest| ensures MarkLasts(d, events, h, i + 1) <==> MarkLasts(d', rest, h, i) {
      assert events[..i + 2][1..] == rest[..i + 1] && events[i + 2..] == rest[i + 1..];
    }
    if SomeMarkLasts(d, events, h) {
      var i :| 0 <= i < |events| && MarkLasts(d, events, h, i);
      assert i > 0 ==> MarkLasts(d', rest, h, i - 1);
    }
    if SomeMarkLasts(d', rest, h) {
      var i :| 0 <= i < |rest| && MarkLasts(d', rest, h, i);
      assert MarkLasts(d, events, h, i + 1);
    }
  }

  lemma {:induction false} KnownExactly<H(!new)>(d: Seen<H>, events: seq<Event<H>>, h: H)
    ensures Known(Run(d, events), h) <==>
            || SomeMarkLasts(d, events, h)
            || (h in d.current && Rotations(d, events) <= 1)
            || (h in d.previous && Rotations(d, events) == 0)
    decreases |events|
  {
    hide SomeMarkLasts;
    if events == [] {
      NoMarks(d, h);
    } else {
      MarkLastsSplit(d, events, h);
      KnownExactly(Next(d, events[0]), events[1..], h);
    }
  }

  lemma NoMarks<H(!new)>(d: Seen<H>, h: H)
    ensures !SomeMarkLasts(d, [], h)
  {}

  /**
    In every run from a new deduplicator, whatever the clock does, a query reports
    a hash exactly when it was marked and at most one query since, itself
    included, rotated.
   */
  lemma ReportedExactly<H(!new)>(start: real, events: seq<Event<H>>, query: Event<H>)
    requires query.Query?
    ensures Known(Run(Seen({}, {}, start), events + [query]), query.hash)
            <==> SomeMarkLasts(Seen({}, {}, start), events + [query], query.hash)
  {
    KnownExactly(Seen({}, {}, start), events + [query], query.hash);
  }

  /** After a query that rotates, the next one to rotate is the first at least 300 seconds after its second reading. */
  lemma EpochsLast<H(!new)>(d: Seen<H>, q: Event<H>, q': Event<H>)
    requires q.Query? && q'.Query? && Rotations(d, [q]) == 1
    ensures Rotations(Next(d, q), [q']) == 1 <==> q'.at >= q.stamp + 300.0
    ensures Next(d, q).previous == d.current && Next(d, q).current == {}
  {}

  // The object -------------------------------------------------------------------

  class MessageDedup<H(==)> {
    var current: set<H>
    var previous: set<H>
    var epochStart: real

    ghost function State(): Seen<H> reads this { Seen(current, previous, epochStart) }

    constructor (now: real)
      ensures State() == Seen({}, {}, now)
    {
      current, previous, epochStart := {}, {}, now;
    }

    method IsDuplicate(hash: H, at: real, stamp: real) returns (dup: bool)
      modifies this
      ensures State() == Next(old(State()), Query(hash, at, stamp)) && dup == Known(State(), hash)
    {
      MaybeRotate(at, stamp);
      dup := hash in current || hash in previous;
    }

    method MarkSeen(hash: H, ghost at: real)
      modifies this
      ensures State() == Next(old(State()), Mark(hash, at))
    {
      current := current + {hash};
    }

    method MaybeRotate(at: real, stamp: real)
      modifies this
      ensures State() == Rotate(old(State()), at, stamp)
    {
      if at - epochStart >= EPOCH_SECS {
        previous, current := current, {};
        epochStart := stamp;
      }
    }
  }
}
