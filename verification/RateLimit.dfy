/** Token buckets per identity and action (crates/ephemera-abuse/src/rate_limit.rs). */
module RateLimit {
  import opened Wrappers

  datatype Action =
    | Post | Reply | Reaction | DirectMessageFriend | DirectMessageMutual | MessageRequest
    | Follow | ConnectionRequest | GroupCreate | GroupInvite | GroupChatMessage

  datatype Config = Config(capacity: nat, rate: real)

  function ForAction(a: Action): (c: Config)
    ensures c.capacity >= 1 && c.rate > 0.0
  {
    match a
    case Post => Config(10, 10.0 / 3600.0)
    case Reply => Config(5, 20.0 / 3600.0)
    case Reaction => Config(20, 100.0 / 3600.0)
    case DirectMessageFriend => Config(10, 60.0 / 3600.0)
    case DirectMessageMutual => Config(5, 30.0 / 3600.0)
    case MessageRequest => Config(1, 5.0 / 3600.0)
    case Follow => Config(10, 50.0 / 3600.0)
    case ConnectionRequest => Config(5, 20.0 / 3600.0)
    case GroupCreate => Config(3, 5.0 / 3600.0)
    case GroupInvite => Config(10, 20.0 / 3600.0)
    case GroupChatMessage => Config(15, 60.0 / 3600.0)
  }

  datatype Key<Id(==)> = Key(id: Id, action: Action)

  /** A bucket; its capacity and rate are those of the action it is filed under. */
  datatype Bucket = Bucket(tokens: real, last: real)

  /**
   * The clock readings of one call, in order: at the creation of a bucket, then twice for each
   * refill, once to measure the time passed and once for the new `last`.
   */
  datatype Clock = Clock(birth: real, measure: real, stamp: real, measure2: real, stamp2: real)

  ghost predicate Ticks(k: Clock) {
    k.birth <= k.measure <= k.stamp <= k.measure2 <= k.stamp2
  }

  function Min(a: real, b: real): real { if a <= b then a else b }

  function Max(a: real, b: real): real { if a <= b then b else a }

  function Ceil(x: real): int { -(-x).Floor }

  /** Tokens restored from one time to a later one. */
  function Gain(c: Config, from: real, to: real): real { (to - from) * c.rate }

  lemma Gains(c: Config, x: real, y: real, z: real)
    requires c.rate > 0.0 && x <= y <= z
    ensures Gain(c, x, z) == Gain(c, x, y) + Gain(c, y, z)
    ensures Gain(c, x, y) >= 0.0 && Gain(c, y, z) >= 0.0 && Gain(c, x, x) == 0.0 && Gain(c, z, z) == 0.0
  {}

  // One bucket -------------------------------------------------------------------

  function Refill(c: Config, b: Bucket, measure: real, stamp: real): Bucket {
    Bucket(Min(b.tokens + Gain(c, b.last, Max(b.last, measure)), c.capacity as real), stamp)
  }

  function Take(b: Bucket): Bucket {
    if b.tokens >= 1.0 then b.(tokens := b.tokens - 1.0) else b
  }

  /** Seconds until the next token. */
  function Wait(c: Config, b: Bucket): (w: nat)
    requires c.rate > 0.0
  {
    if b.tokens >= 1.0 then 0
    else
      var x := (1.0 - b.tokens) / c.rate;
      assert x >= 0.0;
      Ceil(x)
  }

  /** `check` on a bucket: the bucket afterwards and, when refused, the seconds to wait. */
  function Check(c: Config, b: Bucket, k: Clock): (r: (Bucket, Option<nat>))
    requires c.rate > 0.0
  {
    var full := Refill(c, b, k.measure, k.stamp);
    if full.tokens >= 1.0 then (Take(full), None)
    else
      var again := Refill(c, full, k.measure2, k.stamp2);
      (again, Some(Wait(c, again)))
  }

  // The limiter ------------------------------------------------------------------

  datatype Op = Ask | Peek

  /** A call of `check` (Ask) or `would_allow` (Peek). */
  datatype Event<Id(==)> = Event(key: Key<Id>, op: Op, clock: Clock)

  type Buckets<Id(==)> = map<Key<Id>, Bucket>

  function Get<Id>(m: Buckets<Id>, key: Key<Id>, k: Clock): Bucket {
    if key in m then m[key] else Bucket(ForAction(key.action).capacity as real, k.birth)
  }

  function AfterCheck<Id>(m: Buckets<Id>, key: Key<Id>, k: Clock): (r: (Buckets<Id>, Option<nat>)) {
    var (b, refused) := Check(ForAction(key.action), Get(m, key, k), k);
    (m[key := b], refused)
  }

  function AfterPeek<Id>(m: Buckets<Id>, key: Key<Id>, k: Clock): (r: (Buckets<Id>, bool)) {
    var b := Refill(ForAction(key.action), Get(m, key, k), k.measure, k.stamp);
    (m[key := b], b.tokens >= 1.0)
  }

  function After<Id>(m: Buckets<Id>, e: Event<Id>): Buckets<Id> {
    if e.op.Ask? then AfterCheck(m, e.key, e.clock).0 else AfterPeek(m, e.key, e.clock).0
  }

  predicate Allows<Id>(m: Buckets<Id>, e: Event<Id>) {
    e.op.Ask? && AfterCheck(m, e.key, e.clock).1.None?
  }

  function Run<Id>(m: Buckets<Id>, events: seq<Event<Id>>): Buckets<Id>
    decreases |events|
  {
    if events == [] then m else Run(After(m, events[0]), events[1..])
  }

  /** How many calls of `check` for `key` are allowed. */
  function Allowed<Id(==)>(m: Buckets<Id>, events: seq<Event<Id>>, key: Key<Id>): nat
    decreases |events|
  {
    if events == [] then 0
    else (if events[0].key == key && Allows(m, events[0]) then 1 else 0) + Allowed(After(m, events[0]), events[1..], key)
  }

  /** All readings lie between `from` and `to` and never go back. */
  ghost predicate Within<Id(!new)>(events: seq<Event<Id>>, from: real, to: real)
    decreases |events|
  {
    if events == [] then from <= to
    else
      var k := events[0].clock;
      from <= k.birth && Ticks(k) && Within(events[1..], k.stamp2, to)
  }

  ghost predicate Sound<Id(!new)>(m: Buckets<Id>, now: real) {
    forall key | key in m :: SoundBucket(ForAction(key.action), m[key], now)
  }

  ghost predicate SoundBucket(c: Config, b: Bucket, now: real) {
    0.0 <= b.tokens <= c.capacity as real && b.last <= now
  }

  /** What the bucket would hold if refilled at time `t`. */
  function Level(c: Config, b: Bucket, t: real): real {
    Min(b.tokens + Gain(c, b.last, t), c.capacity as real)
  }

  function LevelOf<Id>(m: Buckets<Id>, key: Key<Id>, t: real): real {
    if key in m then Level(ForAction(key.action), m[key], t) else ForAction(key.action).capacity as real
  }

  // Bound ------------------------------------------------------------------------

  lemma LevelGrows(c: Config, b: Bucket, from: real, to: real)
    requires c.rate > 0.0 && SoundBucket(c, b, from) && from <= to
    ensures Level(c, b, to) <= Level(c, b, from) + Gain(c, from, to)
  {
    hide Gain;
    Gains(c, b.last, from, to);
  }

  lemma RefillIsLevel(c: Config, b: Bucket, from: real, measure: real, stamp: real)
    requires c.rate > 0.0 && SoundBucket(c, b, from) && from <= measure <= stamp
    ensures var f := Refill(c, b, measure, stamp);
      SoundBucket(c, f, stamp) && Level(c, f, stamp) == f.tokens <= Level(c, b, from) + Gain(c, from, stamp)
  {
    hide Gain;
    LevelGrows(c, b, from, measure);
    Gains(c, b.last, from, measure);
    Gains(c, from, measure, stamp);
  }

  /** A call of `check` pays for itself: tokens gained cover tokens left and the token taken. */
  lemma CheckPays(c: Config, b: Bucket, from: real, k: Clock)
    requires c.rate > 0.0 && SoundBucket(c, b, from) && from <= k.measure && Ticks(k)
    ensures var (after, refused) := Check(c, b, k);
      && SoundBucket(c, after, k.stamp2)
      && Level(c, after, k.stamp2) + (if refused.None? then 1.0 else 0.0) <= Level(c, b, from) + Gain(c, from, k.stamp2)
  {
    hide Gain;
    var full := Refill(c, b, k.measure, k.stamp);
    RefillIsLevel(c, b, from, k.measure, k.stamp);
    Gains(c, from, k.stamp, k.stamp2);
    if full.tokens >= 1.0 {
      LevelGrows(c, Take(full), k.stamp, k.stamp2);
    } else {
      RefillIsLevel(c, full, k.stamp, k.measure2, k.stamp2);
    }
  }

  lemma PeekPays(c: Config, b: Bucket, from: real, k: Clock)
    requires c.rate > 0.0 && SoundBucket(c, b, from) && from <= k.measure && Ticks(k)
    ensures var after := Refill(c, b, k.measure, k.stamp);
      SoundBucket(c, after, k.stamp2) && Level(c, after, k.stamp2) <= Level(c, b, from) + Gain(c, from, k.stamp2)
  {
    hide Gain;
    RefillIsLevel(c, b, from, k.measure, k.stamp);
    LevelGrows(c, Refill(c, b, k.measure, k.stamp), k.stamp, k.stamp2);
    Gains(c, from, k.stamp, k.stamp2);
  }

  lemma FirstLevel(c: Config, t: real)
    ensures Level(c, Bucket(c.capacity as real, t), t) == c.capacity as real
    ensures SoundBucket(c, Bucket(c.capacity as real, t), t)
  {}

  lemma StepPays<Id(!new)>(m: Buckets<Id>, e: Event<Id>, from: real, key: Key<Id>)
    requires Sound(m, from) && from <= e.clock.birth && Ticks(e.clock)
    ensures Sound(After(m, e), e.clock.stamp2)
    ensures LevelOf(After(m, e), key, e.clock.stamp2) + (if e.key == key && Allows(m, e) then 1.0 else 0.0)
         <= LevelOf(m, key, from) + Gain(ForAction(key.action), from, e.clock.stamp2)
  {
    hide ForAction, Level, Check, Refill, Gain;
    var k := e.clock;
    var c := ForAction(e.key.action);
    var b := Get(m, e.key, k);
    var start := if e.key in m then from else k.birth;
    FirstLevel(c, k.birth);
    CheckPays(c, b, start, k);
    PeekPays(c, b, start, k);
    Gains(c, from, start, k.stamp2);
    if key != e.key {
      Idle(m, from, k.stamp2, key);
    }
  }

  lemma Idle<Id(!new)>(m: Buckets<Id>, from: real, to: real, key: Key<Id>)
    requires Sound(m, from) && from <= to
    ensures Sound(m, to)
    ensures LevelOf(m, key, to) <= LevelOf(m, key, from) + Gain(ForAction(key.action), from, to)
  {
    hide ForAction, Level, Gain;
    Gains(ForAction(key.action), from, from, to);
    if key in m {
      LevelGrows(ForAction(key.action), m[key], from, to);
    }
  }

  lemma {:induction false} RunPays<Id(!new)>(m: Buckets<Id>, events: seq<Event<Id>>, from: real, to: real, key: Key<Id>)
    requires Sound(m, from) && Within(events, from, to)
    ensures Sound(Run(m, events), to) && from <= to
    ensures LevelOf(Run(m, events), key, to) + Allowed(m, events, key) as real
         <= LevelOf(m, key, from) + Gain(ForAction(key.action), from, to)
    decreases |events|
  {
    hide ForAction, LevelOf, After, Allows, SoundBucket, Gain;
    if events == [] {
      Idle(m, from, to, key);
    } else {
      var t := events[0].clock.stamp2;
      StepPays(m, events[0], from, key);
      RunPays(After(m, events[0]), events[1..], t, to, key);
      Gains(ForAction(key.action), from, t, to);
    }
  }

  lemma LevelsInRange<Id(!new)>(m: Buckets<Id>, key: Key<Id>, now: real)
    requires Sound(m, now)
    ensures 0.0 <= LevelOf(m, key, now) <= ForAction(key.action).capacity as real
  {
    hide ForAction, Gain;
    if key in m {
      Gains(ForAction(key.action), m[key].last, now, now);
    }
  }

  /**
   * After any calls from an empty limiter, whatever is called between `from` and `to` allows at
   * most a full burst plus what refills in that time.
   */
  lemma AllowedInWindow<Id(!new)>(
    before: seq<Event<Id>>, window: seq<Event<Id>>, start: real, from: real, to: real, key: Key<Id>)
    requires Within(before, start, from) && Within(window, from, to)
    ensures Allowed(Run(map[], before), window, key) as real
         <= ForAction(key.action).capacity as real + (to - from) * ForAction(key.action).rate
  {
    hide ForAction, LevelOf, Run, Allowed;
    RunPays(map[], before, start, from, key);
    var m := Run(map[], before);
    RunPays(m, window, from, to, key);
    LevelsInRange(m, key, from);
    LevelsInRange(Run(m, window), key, to);
  }

  // Waiting ----------------------------------------------------------------------

  /** Time between the two readings of a refill restores nothing: what the calls for `key` lose. */
  function Lost<Id(==)>(events: seq<Event<Id>>, key: Key<Id>): real
    decreases |events|
  {
    if events == [] then 0.0
    else
      var k := events[0].clock;
      var gap := k.stamp - k.measure + if events[0].op.Ask? then k.stamp2 - k.measure2 else 0.0;
      (if events[0].key == key then gap else 0.0) + Lost(events[1..], key)
  }

  lemma RefillLosesGap(c: Config, b: Bucket, measure: real, stamp: real, t: real)
    requires c.rate > 0.0 && b.last <= measure <= stamp <= t
    ensures Level(c, Refill(c, b, measure, stamp), t) == Level(c, b, t - (stamp - measure))
  {
    var u := t - (stamp - measure);
    assert Gain(c, stamp, t) == Gain(c, measure, u) by { assert t - stamp == u - measure; }
    hide Gain;
    Gains(c, b.last, measure, u);
  }

  lemma CheckLosesGaps(c: Config, b: Bucket, k: Clock, t: real)
    requires c.rate > 0.0 && b.last <= k.measure && Ticks(k) && k.stamp2 <= t && Check(c, b, k).1.Some?
    ensures Level(c, Check(c, b, k).0, t) == Level(c, b, t - (k.stamp - k.measure + (k.stamp2 - k.measure2)))
  {
    hide Level, Gain;
    RefillLosesGap(c, Refill(c, b, k.measure, k.stamp), k.measure2, k.stamp2, t);
    RefillLosesGap(c, b, k.measure, k.stamp, t - (k.stamp2 - k.measure2));
  }

  lemma {:induction false} RunLosesGaps<Id(!new)>(
    m: Buckets<Id>, events: seq<Event<Id>>, from: real, to: real, key: Key<Id>, t: real)
    requires Sound(m, from) && Within(events, from, to) && to <= t && key in m && Allowed(m, events, key) == 0
    ensures key in Run(m, events) && Lost(events, key) >= 0.0 && from <= t - Lost(events, key)
    ensures LevelOf(Run(m, events), key, t) == LevelOf(m, key, t - Lost(events, key))
    decreases |events|
  {
    hide ForAction, Level, Check, Refill, Gain;
    if events != [] {
      var e := events[0];
      var k := e.clock;
      StepPays(m, e, from, key);
      RunLosesGaps(After(m, e), events[1..], k.stamp2, to, key, t);
      if e.key == key {
        var u := t - Lost(events[1..], key);
        if e.op.Ask? {
          CheckLosesGaps(ForAction(key.action), m[key], k, u);
        } else {
          RefillLosesGap(ForAction(key.action), m[key], k.measure, k.stamp, u);
        }
      }
    }
  }

  /** The reported wait is the least whole number of seconds that refills one token. */
  lemma WaitRefillsOne(c: Config, b: Bucket, t: real)
    requires c.rate > 0.0 && c.capacity >= 1 && b.last <= t
    ensures t >= b.last + Wait(c, b) as real ==> Level(c, b, t) >= 1.0
    ensures t <= b.last + Wait(c, b) as real - 1.0 ==> Level(c, b, t) < 1.0
  {
    var x := (1.0 - b.tokens) / c.rate;
    GainAgainst(c, b.last, t, x);
    assert x * c.rate == 1.0 - b.tokens;
    assert Ceil(x) as real - 1.0 < x <= Ceil(x) as real;
    hide Gain, Ceil;
    Gains(c, b.last, b.last, t);
  }

  lemma GainAgainst(c: Config, from: real, to: real, x: real)
    requires c.rate > 0.0
    ensures to - from >= x <==> Gain(c, from, to) >= x * c.rate
  {
    var d := to - from;
    assert d > x ==> (d - x) * c.rate > 0.0;
    assert d < x ==> (x - d) * c.rate > 0.0;
  }

  /**
   * After a refusal, and if no call for the key is allowed meanwhile, asking again succeeds
   * exactly when the time waited, less the time lost between readings, refills the missing part
   * of a token.
   */
  lemma RetryRule<Id(!new)>(
    m: Buckets<Id>, key: Key<Id>, from: real, refusal: Clock, between: seq<Event<Id>>, to: real, retry: Clock)
    requires Sound(m, from) && from <= refusal.birth && Ticks(refusal)
    requires AfterCheck(m, key, refusal).1.Some?
    requires var after := AfterCheck(m, key, refusal).0;
      Within(between, refusal.stamp2, to) && Allowed(after, between, key) == 0
    requires to <= retry.birth && Ticks(retry)
    ensures var after := AfterCheck(m, key, refusal).0;
      AfterCheck(Run(after, between), key, retry).1.None? <==>
      after[key].tokens + Gain(ForAction(key.action), refusal.stamp2, retry.measure - Lost(between, key)) >= 1.0
  {
    hide ForAction, Run, Allowed, Lost, Wait, Gain;
    var e := Event(key, Ask, refusal);
    var c := ForAction(key.action);
    var (after, w) := AfterCheck(m, key, refusal);
    assert after == After(m, e);
    StepPays(m, e, from, key);
    RunLosesGaps(after, between, refusal.stamp2, to, key, retry.measure);
    RunPays(after, between, refusal.stamp2, to, key);
    RefillReachesLevel(c, Run(after, between)[key], retry.measure, retry.stamp);
  }

  /** Waiting the reported seconds, plus the time lost between readings, is enough. */
  lemma WaitingIsEnough<Id(!new)>(
    m: Buckets<Id>, key: Key<Id>, from: real, refusal: Clock, between: seq<Event<Id>>, to: real, retry: Clock)
    requires Sound(m, from) && from <= refusal.birth && Ticks(refusal)
    requires AfterCheck(m, key, refusal).1.Some?
    requires var after := AfterCheck(m, key, refusal).0;
      Within(between, refusal.stamp2, to) && Allowed(after, between, key) == 0
    requires to <= retry.birth && Ticks(retry)
    requires retry.measure >= refusal.stamp2 + AfterCheck(m, key, refusal).1.value as real + Lost(between, key)
    ensures AfterCheck(Run(AfterCheck(m, key, refusal).0, between), key, retry).1.None?
  {
    hide ForAction, Run, Allowed, Lost, Wait, Gain;
    RetryRule(m, key, from, refusal, between, to, retry);
    WaitRefillsOne(ForAction(key.action), AfterCheck(m, key, refusal).0[key], retry.measure - Lost(between, key));
  }

  /** Without that allowance it need not be: a peek that loses a second delays the retry. */
  lemma PeekCanDelayRetry<Id(!new)>(id: Id)
    ensures
      var key := Key(id, MessageRequest);
      var start := Clock(0.0, 0.0, 0.0, 0.0, 0.0);
      var m := Run(map[], [Event(key, Ask, start)]);
      var (after, refused) := AfterCheck(m, key, start);
      var peek := Event(key, Peek, Clock(0.0, 0.0, 1.0, 1.0, 1.0));
      && refused == Some(720)
      && AfterCheck(After(after, peek), key, Clock(720.0, 720.0, 720.0, 720.0, 720.0)).1 == Some(1)
  {
    hide ForAction, Check, Refill;
    StrangerLimits();
    DelayOfOneSecond(ForAction(MessageRequest));
    var key := Key(id, MessageRequest);
    var first := Event(key, Ask, Clock(0.0, 0.0, 0.0, 0.0, 0.0));
    assert Run(map[], [first]) == After(map[], first) == map[key := Bucket(0.0, 0.0)];
  }

  lemma StrangerLimits()
    ensures ForAction(MessageRequest) == Config(1, 5.0 / 3600.0)
  {}

  lemma DelayOfOneSecond(c: Config)
    requires c == Config(1, 5.0 / 3600.0)
    ensures Check(c, Bucket(1.0, 0.0), Clock(0.0, 0.0, 0.0, 0.0, 0.0)) == (Bucket(0.0, 0.0), None)
    ensures Check(c, Bucket(0.0, 0.0), Clock(0.0, 0.0, 0.0, 0.0, 0.0)) == (Bucket(0.0, 0.0), Some(720))
    ensures Refill(c, Bucket(0.0, 0.0), 0.0, 1.0) == Bucket(0.0, 1.0)
    ensures Check(c, Bucket(0.0, 1.0), Clock(720.0, 720.0, 720.0, 720.0, 720.0)).1 == Some(1)
  {}

  lemma RefillReachesLevel(c: Config, b: Bucket, measure: real, stamp: real)
    requires b.last <= measure
    ensures Refill(c, b, measure, stamp).tokens == Level(c, b, measure)
  {}

  /** Asking a second or more too early is refused, whatever happens meanwhile. */
  lemma EarlierIsTooSoon<Id(!new)>(
    m: Buckets<Id>, key: Key<Id>, from: real, refusal: Clock, between: seq<Event<Id>>, to: real, retry: Clock)
    requires Sound(m, from) && from <= refusal.birth && Ticks(refusal)
    requires AfterCheck(m, key, refusal).1.Some?
    requires Within(between, refusal.stamp2, to)
    requires to <= retry.birth && Ticks(retry)
    requires retry.measure <= refusal.stamp2 + AfterCheck(m, key, refusal).1.value as real - 1.0
    ensures AfterCheck(Run(AfterCheck(m, key, refusal).0, between), key, retry).1.Some?
  {
    hide ForAction, Gain, Run, Allowed, Wait;
    var e := Event(key, Ask, refusal);
    var c := ForAction(key.action);
    var (after, w) := AfterCheck(m, key, refusal);
    assert after == After(m, e);
    StepPays(m, e, from, key);
    RunPays(after, between, refusal.stamp2, to, key);
    KeyStays(after, between, key);
    var b := Run(after, between)[key];
    LevelGrows(c, b, to, retry.measure);
    Gains(c, refusal.stamp2, to, retry.measure);
    WaitRefillsOne(c, after[key], retry.measure);
    RefillReachesLevel(c, b, retry.measure, retry.stamp);
  }

  lemma {:induction false} KeyStays<Id>(m: Buckets<Id>, events: seq<Event<Id>>, key: Key<Id>)
    requires key in m
    ensures key in Run(m, events)
    decreases |events|
  {
    if events != [] { KeyStays(After(m, events[0]), events[1..], key); }
  }

  // The limits -------------------------------------------------------------------------

  /** How many actions of a kind can be done at once, and how many in an hour. */
  function Burst(a: Action): nat {
    match a
    case Post => 10 case Reply => 5 case Reaction => 20 case DirectMessageFriend => 10 case DirectMessageMutual => 5
    case MessageRequest => 1 case Follow => 10 case ConnectionRequest => 5 case GroupCreate => 3 case GroupInvite => 10
    case GroupChatMessage => 15
  }

  function Hourly(a: Action): nat {
    match a
    case Post => 20 case Reply => 25 case Reaction => 120 case DirectMessageFriend => 70 case DirectMessageMutual => 35
    case MessageRequest => 6 case Follow => 60 case ConnectionRequest => 25 case GroupCreate => 8 case GroupInvite => 30
    case GroupChatMessage => 75
  }

  lemma LimitsPerHour(a: Action)
    ensures ForAction(a).capacity == Burst(a)
    ensures ForAction(a).capacity as real + 3600.0 * ForAction(a).rate == Hourly(a) as real
  {}

  /** In any hour, after whatever happened before, no more than the hourly limit is allowed. */
  lemma AllowedInHour<Id(!new)>(before: seq<Event<Id>>, hour: seq<Event<Id>>, start: real, from: real, key: Key<Id>)
    requires Within(before, start, from) && Within(hour, from, from + 3600.0)
    ensures Allowed(Run(map[], before), hour, key) <= Hourly(key.action)
  {
    hide ForAction, Run, Allowed, Hourly, Burst;
    AllowedInWindow(before, hour, start, from, from + 3600.0, key);
    LimitsPerHour(key.action);
  }

  /** `n` calls of `check` at one moment. */
  function AtOnce<Id>(key: Key<Id>, t: real, n: nat): seq<Event<Id>> {
    seq(n, _ => Event(key, Ask, Clock(t, t, t, t, t)))
  }

  lemma CheckAtOnce(c: Config, b: Bucket, t: real)
    requires c.rate > 0.0 && b.last == t && 0.0 <= b.tokens <= c.capacity as real
    ensures var (after, refused) := Check(c, b, Clock(t, t, t, t, t));
            && after.last == t && (refused.None? <==> b.tokens >= 1.0)
            && after.tokens == if b.tokens >= 1.0 then b.tokens - 1.0 else b.tokens
  {
    hide Gain;
    Gains(c, t, t, t);
  }

  lemma {:induction false} TokensAreAllowed<Id(!new)>(m: Buckets<Id>, key: Key<Id>, t: real, tokens: nat, n: nat)
    requires tokens <= ForAction(key.action).capacity
    requires if key in m then m[key] == Bucket(tokens as real, t) else tokens == ForAction(key.action).capacity
    ensures Allowed(m, AtOnce(key, t, n), key) == if n < tokens then n else tokens
    decreases n
  {
    hide ForAction, Check;
    if n > 0 {
      var events := AtOnce(key, t, n);
      assert events[1..] == AtOnce(key, t, n - 1);
      CheckAtOnce(ForAction(key.action), Bucket(tokens as real, t), t);
      TokensAreAllowed(After(m, events[0]), key, t, if tokens > 0 then tokens - 1 else 0, n - 1);
    }
  }

  /** A key not used before can do its burst at once, and no more. */
  lemma NewKeyAllowsBurst<Id(!new)>(m: Buckets<Id>, key: Key<Id>, t: real, n: nat)
    requires key !in m
    ensures Allowed(m, AtOnce(key, t, n), key) == if n < Burst(key.action) then n else Burst(key.action)
  {
    hide ForAction, Allowed, Burst;
    LimitsPerHour(key.action);
    TokensAreAllowed(m, key, t, ForAction(key.action).capacity, n);
  }

  /** `would_allow` says what `check` would answer, and neither touches another key. */
  lemma PeekTellsCheck<Id(!new)>(m: Buckets<Id>, key: Key<Id>, k: Clock, other: Key<Id>)
    ensures AfterPeek(m, key, k).1 <==> AfterCheck(m, key, k).1.None?
    ensures other != key ==> (other in AfterCheck(m, key, k).0 <==> other in m) && (other in AfterPeek(m, key, k).0 <==> other in m)
    ensures other != key && other in m ==> AfterCheck(m, key, k).0[other] == m[other] && AfterPeek(m, key, k).0[other] == m[other]
  {}

  // The object -------------------------------------------------------------------

  class RateLimiter<Id(==)> {
    var buckets: Buckets<Id>

    constructor ()
      ensures buckets == map[]
    {
      buckets := map[];
    }

    /** Err carries the seconds to wait. */
    method Check(id: Id, action: Action, clock: Clock) returns (r: Result<(), nat>)
      modifies this
      ensures (buckets, match r case Ok(_) => None case Err(w) => Some(w)) == AfterCheck(old(buckets), Key(id, action), clock)
    {
      var key, c := Key(id, action), ForAction(action);
      if key !in buckets {
        buckets := buckets[key := Bucket(c.capacity as real, clock.birth)];
      }
      buckets := buckets[key := Refill(c, buckets[key], clock.measure, clock.stamp)];
      if buckets[key].tokens >= 1.0 {
        buckets := buckets[key := Take(buckets[key])];
        r := Ok(());
      } else {
        buckets := buckets[key := Refill(c, buckets[key], clock.measure2, clock.stamp2)];
        r := Err(Wait(c, buckets[key]));
      }
      assert buckets == old(buckets)[key := buckets[key]];
    }

    method WouldAllow(id: Id, action: Action, clock: Clock) returns (ok: bool)
      modifies this
      ensures (buckets, ok) == AfterPeek(old(buckets), Key(id, action), clock)
    {
      var key, c := Key(id, action), ForAction(action);
      if key !in buckets {
        buckets := buckets[key := Bucket(c.capacity as real, clock.birth)];
      }
      buckets := buckets[key := Refill(c, buckets[key], clock.measure, clock.stamp)];
      ok := buckets[key].tokens >= 1.0;
      assert buckets == old(buckets)[key := buckets[key]];
    }
  }
}
