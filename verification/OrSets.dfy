/** Observed-remove sets and their replicas (crates/ephemera-crdt/src/orset.rs). */
module OrSets {
  import opened Numbers

  datatype Tag<A(==)> = Tag(actor: A, number: nat)

  datatype OrSet<A(==), V(==)> = OrSet(entries: map<V, set<Tag<A>>>, counters: map<A, nat>)

  function Empty<A(==), V(==)>(): OrSet<A, V> { OrSet(map[], map[]) }

  function TagsOf<A(==), V(==)>(x: OrSet<A, V>, v: V): set<Tag<A>> {
    if v in x.entries then x.entries[v] else {}
  }

  function CountOf<A(==), V(==)>(x: OrSet<A, V>, a: A): nat {
    if a in x.counters then x.counters[a] else 0
  }

  function NewTag<A(==), V(==)>(x: OrSet<A, V>, a: A): Tag<A> { Tag(a, CountOf(x, a) + 1) }

  function Add<A(==), V(==)>(x: OrSet<A, V>, a: A, v: V): OrSet<A, V> {
    var tag := NewTag(x, a);
    OrSet(x.entries[v := TagsOf(x, v) + {tag}], x.counters[a := tag.number])
  }

  function Remove<A(==), V(==)>(x: OrSet<A, V>, v: V): OrSet<A, V> {
    x.(entries := x.entries - {v})
  }

  predicate Contains<A(==), V(==)>(x: OrSet<A, V>, v: V) {
    v in x.entries && x.entries[v] != {}
  }

  function Merge<A(==), V(==)>(x: OrSet<A, V>, y: OrSet<A, V>): OrSet<A, V> {
    OrSet(
      map v | v in x.entries.Keys + y.entries.Keys && TagsOf(x, v) + TagsOf(y, v) != {} :: TagsOf(x, v) + TagsOf(y, v),
      map a | a in x.counters.Keys + y.counters.Keys :: Max(CountOf(x, a), CountOf(y, a)))
  }

  /** Adding puts one tag never counted before to one value and moves one counter. */
  lemma AddExactly<A(!new), V(!new)>(x: OrSet<A, V>, a: A, v: V, b: A, u: V)
    ensures var y, tag := Add(x, a, v), Tag(a, CountOf(x, a) + 1);
            && TagsOf(y, u) == (if u == v then TagsOf(x, v) + {tag} else TagsOf(x, u))
            && CountOf(y, b) == (if b == a then CountOf(x, a) + 1 else CountOf(x, b))
            && Contains(y, v) && NewTag(x, a) == tag
  {
    assert Tag(a, CountOf(x, a) + 1) in TagsOf(Add(x, a, v), v);
  }

  /** Removing takes all tags of one value and touches nothing else. */
  lemma RemoveExactly<A(!new), V(!new)>(x: OrSet<A, V>, v: V, u: V)
    ensures TagsOf(Remove(x, v), u) == (if u == v then {} else TagsOf(x, u))
    ensures Remove(x, v).counters == x.counters && !Contains(Remove(x, v), v)
    ensures u != v ==> (Contains(Remove(x, v), u) <==> Contains(x, u))
  {}

  // Merge laws -------------------------------------------------------------------

  /** No value is filed with an empty set of tags. */
  ghost predicate Tidy<A(!new), V(!new)>(x: OrSet<A, V>) {
    forall v | v in x.entries :: x.entries[v] != {}
  }

  lemma TidyIsExtensional<A(!new), V(!new)>(x: OrSet<A, V>, y: OrSet<A, V>)
    requires Tidy(x) && Tidy(y) && x.counters.Keys == y.counters.Keys
    requires forall v :: TagsOf(x, v) == TagsOf(y, v)
    requires forall a :: CountOf(x, a) == CountOf(y, a)
    ensures x == y
  {
    forall v ensures v in x.entries <==> v in y.entries {
      assert TagsOf(x, v) == TagsOf(y, v);
    }
    forall v | v in x.entries ensures x.entries[v] == y.entries[v] {
      assert TagsOf(x, v) == TagsOf(y, v);
    }
    forall a | a in x.counters ensures x.counters[a] == y.counters[a] {
      assert CountOf(x, a) == CountOf(y, a);
    }
    assert x.entries == y.entries && x.counters == y.counters;
  }

  /** What a merge holds, value by value and actor by actor. */
  lemma MergeHolds<A(!new), V(!new)>(x: OrSet<A, V>, y: OrSet<A, V>)
    ensures Tidy(Merge(x, y))
    ensures forall v :: TagsOf(Merge(x, y), v) == TagsOf(x, v) + TagsOf(y, v)
    ensures forall a :: CountOf(Merge(x, y), a) == Max(CountOf(x, a), CountOf(y, a))
    ensures Merge(x, y).counters.Keys == x.counters.Keys + y.counters.Keys
  {}

  lemma MergeCommutes<A(!new), V(!new)>(x: OrSet<A, V>, y: OrSet<A, V>)
    ensures Merge(x, y) == Merge(y, x)
  {
    hide Merge;
    MergeHolds(x, y);
    MergeHolds(y, x);
    TidyIsExtensional(Merge(x, y), Merge(y, x));
  }

  lemma MergeAssociates<A(!new), V(!new)>(x: OrSet<A, V>, y: OrSet<A, V>, z: OrSet<A, V>)
    ensures Merge(Merge(x, y), z) == Merge(x, Merge(y, z))
  {
    hide Merge;
    MergeHolds(x, y);
    MergeHolds(y, z);
    MergeHolds(Merge(x, y), z);
    MergeHolds(x, Merge(y, z));
    TidyIsExtensional(Merge(Merge(x, y), z), Merge(x, Merge(y, z)));
  }

  /** Merging a state with itself changes nothing exactly when no value has lost all its tags. */
  lemma MergeIdempotent<A(!new), V(!new)>(x: OrSet<A, V>)
    ensures Merge(x, x) == x <==> Tidy(x)
  {
    MergeHolds(x, x);
    hide Merge;
    if Tidy(x) {
      TidyIsExtensional(Merge(x, x), x);
    }
  }

  /**
   * A merge contains what either side contains. So a removal does not last: merging any state that
   * missed it brings back all tags that state holds.
   */
  lemma MergeContainsEither<A(!new), V(!new)>(x: OrSet<A, V>, y: OrSet<A, V>, v: V)
    ensures Contains(Merge(x, y), v) <==> Contains(x, v) || Contains(y, v)
    ensures TagsOf(Merge(Remove(x, v), y), v) == TagsOf(y, v)
    ensures Contains(Merge(Remove(x, v), y), v) <==> Contains(y, v)
  {}

  // Merging many states ----------------------------------------------------------

  function MergeAll<A(==), V(==)>(xs: seq<OrSet<A, V>>): OrSet<A, V> {
    if xs == [] then Empty() else Merge(MergeAll(xs[..|xs| - 1]), xs[|xs| - 1])
  }

  ghost predicate Counted<A(!new), V(!new)>(x: OrSet<A, V>, a: A, n: nat) {
    a in x.counters && x.counters[a] >= n
  }

  lemma {:induction false} MergeAllHolds<A(!new), V(!new)>(xs: seq<OrSet<A, V>>)
    ensures Tidy(MergeAll(xs))
    ensures forall v, t :: t in TagsOf(MergeAll(xs), v) <==> exists x | x in xs :: t in TagsOf(x, v)
    ensures forall a, n :: Counted(MergeAll(xs), a, n) <==> exists x | x in xs :: Counted(x, a, n)
    decreases |xs|
  {
    if xs != [] {
      var init, last := xs[..|xs| - 1], xs[|xs| - 1];
      MergeAllHolds(init);
      MergeHolds(MergeAll(init), last);
      assert xs == init + [last];
      forall a, n ensures Counted(MergeAll(xs), a, n) <==> Counted(MergeAll(init), a, n) || Counted(last, a, n) {
      }
    }
  }

  /** Two replicas that merged the same states, in any order and any number of times, are equal. */
  lemma MergesConverge<A(!new), V(!new)>(xs: seq<OrSet<A, V>>, ys: seq<OrSet<A, V>>)
    requires forall x :: x in xs <==> x in ys
    ensures MergeAll(xs) == MergeAll(ys)
  {
    hide MergeAll;
    MergeAllHolds(xs);
    MergeAllHolds(ys);
    var p, q := MergeAll(xs), MergeAll(ys);
    forall v ensures TagsOf(p, v) == TagsOf(q, v) {
      assert forall t :: t in TagsOf(p, v) <==> t in TagsOf(q, v);
    }
    forall a, n ensures Counted(p, a, n) <==> Counted(q, a, n) {
    }
    CountersAgree(p, q);
    TidyIsExtensional(p, q);
  }

  lemma CountersAgree<A(!new), V(!new)>(p: OrSet<A, V>, q: OrSet<A, V>)
    requires forall a, n :: Counted(p, a, n) <==> Counted(q, a, n)
    ensures p.counters == q.counters
  {
    forall a ensures a in p.counters <==> a in q.counters {
      assert Counted(p, a, 0) <==> Counted(q, a, 0);
    }
    forall a | a in p.counters ensures p.counters[a] == q.counters[a] {
      assert Counted(p, a, p.counters[a]) && Counted(q, a, q.counters[a]);
    }
  }

  // Runs of many replicas --------------------------------------------------------

  /** Replicas, states on their way to others, and every tag issued with its value. */
  datatype World<A(==), V(==)> = World(
    replicas: seq<OrSet<A, V>>, sent: seq<OrSet<A, V>>, issued: seq<(Tag<A>, V)>)

  /** An actor adds only at its home replica; a state sent may be merged late, twice or never. */
  datatype Event<A, V> = AddAt(actor: A, value: V) | RemoveAt(at: nat, value: V) | Send(at: nat) | Receive(at: nat, which: nat)

  ghost function Next<A, V>(home: A -> nat, w: World<A, V>, e: Event<A, V>): World<A, V> {
    match e
    case AddAt(a, v) =>
      var at := home(a);
      if at >= |w.replicas| then w
      else
        var x := w.replicas[at];
        w.(replicas := w.replicas[at := Add(x, a, v)], issued := w.issued + [(NewTag(x, a), v)])
    case RemoveAt(at, v) =>
      if at >= |w.replicas| then w else w.(replicas := w.replicas[at := Remove(w.replicas[at], v)])
    case Send(at) =>
      if at >= |w.replicas| then w else w.(sent := w.sent + [w.replicas[at]])
    case Receive(at, i) =>
      if at >= |w.replicas| || i >= |w.sent| then w
      else w.(replicas := w.replicas[at := Merge(w.replicas[at], w.sent[i])])
  }

  ghost function Run<A, V>(home: A -> nat, size: nat, events: seq<Event<A, V>>): (w: World<A, V>)
    ensures |w.replicas| == size
  {
    if events == [] then World(seq(size, _ => Empty()), [], [])
    else Next(home, Run(home, size, events[..|events| - 1]), events[|events| - 1])
  }

  ghost function HomeCount<A, V>(home: A -> nat, w: World<A, V>, a: A): nat {
    if home(a) < |w.replicas| then CountOf(w.replicas[home(a)], a) else 0
  }

  /** A state holds only issued tags, each under its own value, and counts no further than home. */
  ghost predicate Good<A(!new), V(!new)>(home: A -> nat, w: World<A, V>, x: OrSet<A, V>) {
    && Tidy(x)
    && (forall v, t | t in TagsOf(x, v) :: (t, v) in w.issued)
    && (forall a :: CountOf(x, a) <= HomeCount(home, w, a))
  }

  ghost predicate Inv<A(!new), V(!new)>(home: A -> nat, w: World<A, V>) {
    && (forall i | 0 <= i < |w.replicas| :: Good(home, w, w.replicas[i]))
    && (forall i | 0 <= i < |w.sent| :: Good(home, w, w.sent[i]))
    && (forall p | p in w.issued :: p.0.number <= HomeCount(home, w, p.0.actor))
    && (forall i, j | 0 <= i < j < |w.issued| :: w.issued[i].0 != w.issued[j].0)
  }

  /** Issuing more and counting further at home keeps a state good. */
  lemma GoodStays<A(!new), V(!new)>(home: A -> nat, w: World<A, V>, w2: World<A, V>, x: OrSet<A, V>)
    requires Good(home, w, x)
    requires forall p | p in w.issued :: p in w2.issued
    requires forall a :: HomeCount(home, w, a) <= HomeCount(home, w2, a)
    ensures Good(home, w2, x)
  {}

  lemma MergeIsGood<A(!new), V(!new)>(home: A -> nat, w: World<A, V>, x: OrSet<A, V>, y: OrSet<A, V>)
    requires Good(home, w, x) && Good(home, w, y)
    ensures Good(home, w, Merge(x, y))
  {}

  /** Replacing one replica by a good state that counts no less. */
  lemma ReplaceKeepsInv<A(!new), V(!new)>(home: A -> nat, w: World<A, V>, at: nat, x: OrSet<A, V>, w2: World<A, V>)
    requires Inv(home, w) && at < |w.replicas|
    requires w2.replicas == w.replicas[at := x] && w2.sent == w.sent
    requires forall p | p in w.issued :: p in w2.issued
    requires forall a | home(a) == at :: CountOf(w.replicas[at], a) <= CountOf(x, a)
    requires Good(home, w2, x)
    ensures forall a :: HomeCount(home, w, a) <= HomeCount(home, w2, a)
    ensures forall i | 0 <= i < |w2.replicas| :: Good(home, w2, w2.replicas[i])
    ensures forall i | 0 <= i < |w2.sent| :: Good(home, w2, w2.sent[i])
  {}

  lemma AddKeepsInv<A(!new), V(!new)>(home: A -> nat, w: World<A, V>, a: A, v: V)
    requires Inv(home, w) && home(a) < |w.replicas|
    ensures Inv(home, Next(home, w, AddAt(a, v)))
  {
    var at := home(a);
    var x := w.replicas[at];
    var y, t := Add(x, a, v), NewTag(x, a);
    var w2 := Next(home, w, AddAt(a, v));
    AddedIsGood(home, w, a, v);
    ReplaceKeepsInv(home, w, at, y, w2);
    forall p | p in w2.issued ensures p.0.number <= HomeCount(home, w2, p.0.actor) {
      assert p in w.issued || p == (t, v);
    }
    forall i | 0 <= i < |w.issued| ensures w.issued[i].0 != t {
      assert w.issued[i] in w.issued;
    }
  }

  lemma AddedIsGood<A(!new), V(!new)>(home: A -> nat, w: World<A, V>, a: A, v: V)
    requires Inv(home, w) && home(a) < |w.replicas|
    ensures Good(home, Next(home, w, AddAt(a, v)), Add(w.replicas[home(a)], a, v))
  {
    var x := w.replicas[home(a)];
    var y := Add(x, a, v);
    var w2 := Next(home, w, AddAt(a, v));
    assert Good(home, w, x);
    forall u, s | s in TagsOf(y, u) ensures (s, u) in w2.issued {
      assert s in TagsOf(x, u) || (s == NewTag(x, a) && u == v);
      assert w2.issued[|w.issued|] == (NewTag(x, a), v);
    }
    forall b ensures CountOf(y, b) <= HomeCount(home, w2, b) {
      assert b != a ==> CountOf(y, b) == CountOf(x, b) <= HomeCount(home, w, b);
    }
  }

  lemma NextKeepsInv<A(!new), V(!new)>(home: A -> nat, w: World<A, V>, e: Event<A, V>)
    requires Inv(home, w)
    ensures Inv(home, Next(home, w, e))
  {
    hide Merge, Good, HomeCount, CountOf, TagsOf;
    var w2 := Next(home, w, e);
    match e
    case AddAt(a, v) =>
      if home(a) < |w.replicas| { AddKeepsInv(home, w, a, v); }
    case RemoveAt(at, v) =>
      if at < |w.replicas| { RemoveKeepsInv(home, w, at, v); }
    case Send(at) =>
      if at < |w.replicas| { SendKeepsInv(home, w, at); }
    case Receive(at, i) =>
      if at < |w.replicas| && i < |w.sent| { ReceiveKeepsInv(home, w, at, i); }
  }

  lemma RemoveKeepsInv<A(!new), V(!new)>(home: A -> nat, w: World<A, V>, at: nat, v: V)
    requires Inv(home, w) && at < |w.replicas|
    ensures Inv(home, Next(home, w, RemoveAt(at, v)))
  {
    var x := w.replicas[at];
    var y := Remove(x, v);
    var w2 := Next(home, w, RemoveAt(at, v));
    assert Good(home, w, x);
    assert forall a :: CountOf(y, a) == CountOf(x, a);
    assert forall a :: HomeCount(home, w2, a) == HomeCount(home, w, a);
    assert forall u :: TagsOf(y, u) <= TagsOf(x, u);
    ReplaceKeepsInv(home, w, at, y, w2);
  }

  lemma SendKeepsInv<A(!new), V(!new)>(home: A -> nat, w: World<A, V>, at: nat)
    requires Inv(home, w) && at < |w.replicas|
    ensures Inv(home, Next(home, w, Send(at)))
  {}

  lemma ReceiveKeepsInv<A(!new), V(!new)>(home: A -> nat, w: World<A, V>, at: nat, i: nat)
    requires Inv(home, w) && at < |w.replicas| && i < |w.sent|
    ensures Inv(home, Next(home, w, Receive(at, i)))
  {
    hide Merge;
    var x, y := w.replicas[at], w.sent[i];
    var w2 := Next(home, w, Receive(at, i));
    MergeHolds(x, y);
    assert Good(home, w, x) && Good(home, w, y);
    MergeIsGood(home, w, x, y);
    forall a ensures HomeCount(home, w, a) <= HomeCount(home, w2, a) {
    }
    GoodStays(home, w, w2, Merge(x, y));
    ReplaceKeepsInv(home, w, at, Merge(x, y), w2);
  }

  lemma {:induction false} RunsKeepInv<A(!new), V(!new)>(home: A -> nat, size: nat, events: seq<Event<A, V>>)
    ensures Inv(home, Run(home, size, events))
    decreases |events|
  {
    hide Next, Good;
    if events == [] {
      StartIsGood<A, V>(home, size);
    } else {
      RunsKeepInv(home, size, events[..|events| - 1]);
      NextKeepsInv(home, Run(home, size, events[..|events| - 1]), events[|events| - 1]);
    }
  }

  lemma StartIsGood<A(!new), V(!new)>(home: A -> nat, size: nat)
    ensures Inv<A, V>(home, World(seq(size, _ => Empty()), [], []))
  {}

  /** In every run no tag is issued twice, and a tag found anywhere was issued for that value. */
  lemma TagsAreUnique<A(!new), V(!new)>(home: A -> nat, size: nat, events: seq<Event<A, V>>)
    ensures var w := Run(home, size, events);
      && (forall i, j | 0 <= i < j < |w.issued| :: w.issued[i].0 != w.issued[j].0)
      && (forall x, v, t | x in w.replicas + w.sent && t in TagsOf(x, v) :: (t, v) in w.issued)
  {
    hide Run;
    RunsKeepInv(home, size, events);
  }

  /** In every run merging is commutative, associative and idempotent on the states that occur. */
  lemma ReachableMergeLaws<A(!new), V(!new)>(
    home: A -> nat, size: nat, events: seq<Event<A, V>>, x: OrSet<A, V>, y: OrSet<A, V>, z: OrSet<A, V>)
    requires var w := Run(home, size, events); x in w.replicas + w.sent
    ensures Merge(x, x) == x && Merge(x, y) == Merge(y, x) && Merge(Merge(x, y), z) == Merge(x, Merge(y, z))
  {
    hide Run, Merge;
    RunsKeepInv(home, size, events);
    MergeIdempotent(x);
    MergeCommutes(x, y);
    MergeAssociates(x, y, z);
  }

  /** A removal does not last: merging a state sent before it brings the value back. */
  lemma RemovalIsUndone<A(!new), V(!new)>(a: A, v: V, home: A -> nat)
    requires home(a) == 0
    ensures var events := [AddAt(a, v), Send(0), RemoveAt(0, v)];
            && !Contains(Run(home, 1, events).replicas[0], v)
            && Contains(Run(home, 1, events + [Receive(0, 0)]).replicas[0], v)
  {
    hide Merge;
    var events := [AddAt(a, v), Send(0), RemoveAt(0, v)];
    var one, two := events[..1], events[..2];
    assert two[..1] == one && one[..0] == [];
    var added := Add(Empty(), a, v);
    var w1 := Run(home, 1, one);
    assert Run(home, 1, one[..0]).replicas == [Empty()];
    assert w1 == Next(home, Run(home, 1, one[..0]), AddAt(a, v));
    assert w1.replicas == [added] && w1.sent == [];
    var w2 := Run(home, 1, two);
    assert w2 == Next(home, w1, Send(0));
    var w3 := Run(home, 1, events);
    assert w3 == Next(home, w2, RemoveAt(0, v));
    assert w3.replicas == [Remove(added, v)] && w3.sent == [added];
    assert (events + [Receive(0, 0)])[..3] == events;
    assert Run(home, 1, events + [Receive(0, 0)]) == Next(home, w3, Receive(0, 0));
    MergeContainsEither(added, added, v);
  }

  // The object -------------------------------------------------------------------

  class OrSetReplica<A(==), V(==)> {
    var entries: map<V, set<Tag<A>>>
    var counters: map<A, nat>

    ghost function State(): OrSet<A, V> reads this { OrSet(entries, counters) }

    constructor ()
      ensures State() == Empty()
    {
      entries, counters := map[], map[];
    }

    method AddValue(actor: A, value: V) returns (tag: Tag<A>)
      modifies this
      ensures State() == Add(old(State()), actor, value) && tag == NewTag(old(State()), actor)
    {
      var number := if actor in counters then counters[actor] else 0;
      number := number + 1;
      counters := counters[actor := number];
      tag := Tag(actor, number);
      var tags := if value in entries then entries[value] else {};
      entries := entries[value := tags + {tag}];
    }

    method RemoveValue(value: V) returns (present: bool)
      modifies this
      ensures State() == Remove(old(State()), value) && present == (value in old(entries))
    {
      present := value in entries;
      entries := entries - {value};
    }

    method MergeFrom(other: OrSet<A, V>)
      modifies this
      ensures State() == Merge(old(State()), other)
    {
      MergeEntries(other);
      MergeCounters(other);
    }

    method MergeEntries(other: OrSet<A, V>)
      modifies this`entries
      ensures entries == Merge(old(State()), other).entries
    {
      hide Merge, Entries;
      ghost var was, done := State(), {};
      var values := entries.Keys + other.entries.Keys;
      var todo := values;
      EntriesDone(was, other, values);
      while todo != {}
        invariant done + todo == values && done !! todo
        invariant entries == Entries(was, other, done)
        decreases todo
      {
        var v :| v in todo;
        EntriesNext(was, other, done, v);
        var tags := if v in entries then entries[v] else {};
        var merged := tags + TagsOf(other, v);
        if merged == {} {
          entries := entries - {v};
        } else {
          entries := entries[v := merged];
        }
        todo, done := todo - {v}, done + {v};
      }
    }

    method MergeCounters(other: OrSet<A, V>)
      modifies this`counters
      ensures counters == Merge(old(State()), other).counters
    {
      hide Merge, Counters;
      ghost var was, done := State(), {};
      var todo := other.counters.Keys;
      CountersDone(was, other);
      while todo != {}
        invariant done + todo == other.counters.Keys && done !! todo
        invariant counters == Counters(was, other, done)
        decreases todo
      {
        var a :| a in todo;
        CountersNext(was, other, done, a);
        var count := if a in counters then counters[a] else 0;
        counters := counters[a := Max(count, other.counters[a])];
        todo, done := todo - {a}, done + {a};
      }
    }
  }

  /** Counters when the actors in `done` are merged. */
  ghost function Counters<A, V>(x: OrSet<A, V>, y: OrSet<A, V>, done: set<A>): map<A, nat> {
    map a | a in x.counters.Keys + done :: if a in done then Max(CountOf(x, a), CountOf(y, a)) else CountOf(x, a)
  }

  lemma CountersDone<A, V>(x: OrSet<A, V>, y: OrSet<A, V>)
    ensures Counters(x, y, {}) == x.counters && Counters(x, y, y.counters.Keys) == Merge(x, y).counters
  {}

  lemma CountersNext<A, V>(x: OrSet<A, V>, y: OrSet<A, V>, done: set<A>, a: A)
    requires a in y.counters && a !in done
    ensures a in Counters(x, y, done) <==> a in x.counters
    ensures a in x.counters ==> Counters(x, y, done)[a] == x.counters[a]
    ensures Counters(x, y, done + {a}) == Counters(x, y, done)[a := Max(CountOf(x, a), y.counters[a])]
  {}

  /** Entries when the values in `done` are merged. */
  ghost function Entries<A, V>(x: OrSet<A, V>, y: OrSet<A, V>, done: set<V>): map<V, set<Tag<A>>> {
    map v | v in x.entries.Keys + y.entries.Keys && (if v in done then TagsOf(x, v) + TagsOf(y, v) != {} else v in x.entries) ::
      if v in done then TagsOf(x, v) + TagsOf(y, v) else x.entries[v]
  }

  lemma EntriesDone<A, V>(x: OrSet<A, V>, y: OrSet<A, V>, all: set<V>)
    requires all == x.entries.Keys + y.entries.Keys
    ensures Entries(x, y, {}) == x.entries && Entries(x, y, all) == Merge(x, y).entries
  {}

  lemma EntriesNext<A, V>(x: OrSet<A, V>, y: OrSet<A, V>, done: set<V>, v: V)
    requires v in x.entries.Keys + y.entries.Keys && v !in done
    ensures v in Entries(x, y, done) <==> v in x.entries
    ensures v in x.entries ==> Entries(x, y, done)[v] == x.entries[v]
    ensures var tags := TagsOf(x, v) + TagsOf(y, v);
      Entries(x, y, done + {v}) == if tags == {} then Entries(x, y, done) - {v} else Entries(x, y, done)[v := tags]
  {}
}
