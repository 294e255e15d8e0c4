/**
  Every box that is sealed, also by sends whose write fails afterwards.

  `encrypt_for_peer` seals before it stores. When the write fails nothing is
  handed out and the stored chain stays where it was, so the next send of that
  side seals under the same key again.
 */
module Attempts {
  import opened Wrappers
  import opened SymbolicCrypto
  import opened Ratchet
  import opened X3dh
  import opened Session
  import opened Conversation

  datatype Side = Alice | Bob

  function RowOf(s: System, side: Side): Option<Row> { if side.Alice? then s.alice else s.bob }

  predicate IsSend(e: Event) { e.AliceSends? || e.BobSends? }

  function Sender(e: Event): Side
    requires IsSend(e)
  {
    if e.AliceSends? then Alice else Bob
  }

  /** The call gets as far as sealing: its read works and a session is there or can be started. */
  predicate Seals(c: Config, s: System, e: Event) {
    IsSend(e) && e.storage.canRead && Attempt(c, s, e).Ok?
  }

  function KeyOf(c: Config, s: System, e: Event): Term
    requires Seals(c, s, e)
  {
    Attempt(c, s, e).value.1.ciphertext.key
  }

  /** A send of the side is stored. */
  predicate StoresSend(c: Config, s: System, e: Event, side: Side) {
    Seals(c, s, e) && Sender(e) == side && e.storage.canWrite
  }

  /** The side accepts a message under a ratchet key it did not know. */
  predicate AcceptsNewChain(s: System, e: Event, side: Side) {
    && (if side.Alice? then e.ToAlice? && e.index < |s.fromBob| else e.ToBob? && e.index < |s.fromAlice|)
    && Delivered(s, e).Ok?
    && var header := (if side.Alice? then s.fromBob[e.index] else s.fromAlice[e.index]).message.header;
       RowOf(s, side).Some? && RowOf(s, side).value.recvPublic != Some(header.ratchetKey)
  }

  predicate MovesOn(c: Config, s: System, e: Event, side: Side) {
    StoresSend(c, s, e, side) || AcceptsNewChain(s, e, side)
  }

  /** Between two events the side stores no send and accepts nothing on a new chain. */
  ghost predicate Quiet(c: Config, events: seq<Event>, i: nat, j: nat, side: Side)
    requires i <= j <= |events|
  {
    forall k | i <= k < j :: !MovesOn(c, Run(c, events[..k]), events[k], side)
  }

  // The sending chain of one side ------------------------------------------------------

  predicate SameChain(r: Row, r': Row) {
    r'.sendSecret == r.sendSecret && r'.sendCount == r.sendCount && r'.sendChainKey == r.sendChainKey
  }

  /** A newer ratchet key, or the same and more messages. */
  predicate Later(r: Row, r': Row) {
    r.sendSecret < r'.sendSecret || (r.sendSecret == r'.sendSecret && r.sendCount < r'.sendCount)
  }

  lemma StepMovesChain(c: Config, s: System, e: Event, side: Side)
    requires RowOf(s, side).Some? && RowOf(s, side).value.sendSecret < s.unused
    ensures var s' := Step(c, s, e);
            && RowOf(s', side).Some?
            && (if MovesOn(c, s, e, side) then Later(RowOf(s, side).value, RowOf(s', side).value)
                else SameChain(RowOf(s, side).value, RowOf(s', side).value))
  {}

  lemma SecretIsUsed(c: Config, s: System, h: History, side: Side)
    requires Inv(c, s, h) && RowOf(s, side).Some?
    ensures Started(c, s, h) && RowOf(s, side).value.sendSecret < s.unused
  {
    hide LogOk, AcceptedOk, RespondedSecret;
  }

  lemma {:induction false} RunMovesChain(c: Config, events: seq<Event>, i: nat, j: nat, side: Side)
    requires i <= j <= |events| && RowOf(Run(c, events[..i]), side).Some?
    ensures RowOf(Run(c, events[..j]), side).Some?
    ensures var r, r' := RowOf(Run(c, events[..i]), side).value, RowOf(Run(c, events[..j]), side).value;
            if Quiet(c, events, i, j, side) then SameChain(r, r') else Later(r, r')
    decreases j
  {
    hide Run, Step, MovesOn, Inv, Started, RowOf, Quiet;
    QuietStep(c, events, i, j, side);
    if i < j {
      var before, e := Run(c, events[..j - 1]), events[j - 1];
      RunMovesChain(c, events, i, j - 1, side);
      RunStep(c, events, j);
      var h := RunsKeepInv(c, events[..j - 1]);
      SecretIsUsed(c, before, h, side);
      StepMovesChain(c, before, e, side);
    }
  }

  lemma QuietStep(c: Config, events: seq<Event>, i: nat, j: nat, side: Side)
    requires i <= j <= |events|
    ensures i == j ==> Quiet(c, events, i, j, side)
    ensures i < j ==> (Quiet(c, events, i, j, side) <==>
                       Quiet(c, events, i, j - 1, side) && !MovesOn(c, Run(c, events[..j - 1]), events[j - 1], side))
  {
    hide Run, MovesOn;
  }

  lemma RunStep(c: Config, events: seq<Event>, j: nat)
    requires 1 <= j <= |events|
    ensures Run(c, events[..j]) == Step(c, Run(c, events[..j - 1]), events[j - 1])
  {
    assert events[..j][..j - 1] == events[..j - 1];
  }

  // The key schedule over a run ------------------------------------------------------------

  lemma StepGrows(c: Config, s: System, e: Event)
    ensures s.unused <= Step(c, s, e).unused
    ensures s.alice.Some? ==> Step(c, s, e).alice.Some?
  {}

  lemma ExtendsOn(s: System, s1: System, h: History, h1: History, h2: History)
    requires Extends(s, h, h1) && Extends(s1, h1, h2)
    requires s.unused <= s1.unused && (s.alice.Some? ==> s1.alice.Some?)
    ensures Extends(s, h, h2)
  {}

  lemma {:induction false} HistoryGrows(c: Config, events: seq<Event>, i: nat, j: nat) returns (h: History, h': History)
    requires i <= j <= |events|
    ensures Inv(c, Run(c, events[..i]), h) && Inv(c, Run(c, events[..j]), h')
    ensures Extends(Run(c, events[..i]), h, h')
    ensures Run(c, events[..i]).unused <= Run(c, events[..j]).unused
    ensures Run(c, events[..i]).alice.Some? ==> Run(c, events[..j]).alice.Some?
    decreases j
  {
    hide Step, Started;
    if i == j {
      h := RunsKeepInv(c, events[..i]);
      if Run(c, events[..i]).alice.None? {
        NotStarted(c, Run(c, events[..i]), h);
        h := History(ZeroKey, [], 0, 0, [], []);
      }
      h' := h;
    } else {
      var h1;
      h, h1 := HistoryGrows(c, events, i, j - 1);
      var before := events[..j - 1];
      RunStep(c, events, j);
      h' := StepKeepsInv(c, Run(c, before), h1, events[j - 1]);
      StepGrows(c, Run(c, before), events[j - 1]);
      ExtendsOn(Run(c, events[..i]), Run(c, before), h, h1, h');
    }
  }

  lemma NotStarted(c: Config, s: System, h: History)
    requires Inv(c, s, h) && s.alice.None?
    ensures s == Initial(c).(unused := s.unused)
  {}

  function Position(h: History, side: Side): nat { if side.Alice? then h.alicePosition else h.bobPosition }

  ghost predicate OnSchedule(key: Term, h: History, unused: Secret, side: Side, position: nat, number: nat) {
    && KeysOk(h.keys, unused) && 1 <= position < |h.keys|
    && position % 2 == (if side.Alice? then 1 else 0)
    && key == MessageKey(Advance(Chain(h.sharedSecret, h.keys, position), number))
  }

  /** With a session, the next box is sealed at the side's place in the schedule. */
  lemma SealedOnSchedule(c: Config, s: System, h: History, e: Event)
    requires Inv(c, s, h) && Seals(c, s, e) && RowOf(s, Sender(e)).Some?
    ensures var row := RowOf(s, Sender(e)).value;
            var position := Position(h, Sender(e));
            && OnSchedule(KeyOf(c, s, e), h, s.unused, Sender(e), position, row.sendCount)
            && row.sendSecret == h.keys[position] && KeyOf(c, s, e) == MessageKey(row.sendChainKey)
  {
    hide LogOk, KeysOk, AcceptedOk, RespondedSecret;
  }

  /** Only Alice seals without a session, with two unused secrets. */
  lemma SealedWithoutSession(c: Config, s: System, h: History, e: Event)
    requires Inv(c, s, h) && Seals(c, s, e) && RowOf(s, Sender(e)).None?
    ensures e.AliceSends? && s == Initial(c).(unused := s.unused) && c.bobPrekey < s.unused
    ensures KeyOf(c, s, e)
            == MessageKey(NewChain(SharedSecret(c.alice, s.unused, c.Bundle()), DhOutput(c.bobPrekey, s.unused + 1)))
  {
    hide SideOk, LogOk, KeysOk, AcceptedOk, RespondedSecret, SharedSecret;
  }

  // When two boxes share a key -------------------------------------------------------------

  lemma StaysOnSchedule(key: Term, s: System, h: History, h': History, unused: Secret, side: Side, position: nat, number: nat)
    requires OnSchedule(key, h, s.unused, side, position, number) && Extends(s, h, h') && s.alice.Some?
    requires KeysOk(h'.keys, unused)
    ensures OnSchedule(key, h', unused, side, position, number) && h'.keys[position] == h.keys[position]
  {
    var more := h'.keys[|h.keys|..];
    assert h'.keys == h.keys + more;
    ScheduleGrows(h.sharedSecret, h.keys, more, position);
  }

  lemma SamePlace(key: Term, h: History, unused: Secret, side: Side, position: nat, number: nat, side': Side, position': nat, number': nat)
    requires OnSchedule(key, h, unused, side, position, number) && OnSchedule(key, h, unused, side', position', number')
    ensures position == position' && number == number' && side == side'
  {
    KeyIdentifiesMessage(h.sharedSecret, h.keys, unused, position, number, position', number');
  }

  /** Two boxes of which the first was sealed in a stored session. */
  lemma RepeatsInSession(c: Config, events: seq<Event>, i: nat, j: nat)
    requires i < j < |events|
    requires Seals(c, Run(c, events[..i]), events[i]) && Seals(c, Run(c, events[..j]), events[j])
    requires RowOf(Run(c, events[..i]), Sender(events[i])).Some?
    ensures KeyOf(c, Run(c, events[..i]), events[i]) == KeyOf(c, Run(c, events[..j]), events[j])
            <==> Sender(events[i]) == Sender(events[j]) && Quiet(c, events, i, j, Sender(events[i]))
  {
    hide Run, Inv, Attempt, OnSchedule, Quiet;
    var s, s', side, side' := Run(c, events[..i]), Run(c, events[..j]), Sender(events[i]), Sender(events[j]);
    var h, h' := HistoryGrows(c, events, i, j);
    var row := RowOf(s, side).value;
    SecretIsUsed(c, s, h, side);
    RunMovesChain(c, events, i, j, side);
    SealedOnSchedule(c, s, h, events[i]);
    SealingNeedsSession(c, s', events[j]);
    SealedOnSchedule(c, s', h', events[j]);
    KeysAreOk(c, s', h');
    StaysOnSchedule(KeyOf(c, s, events[i]), s, h, h', s'.unused, side, Position(h, side), row.sendCount);
    if KeyOf(c, s, events[i]) == KeyOf(c, s', events[j]) {
      SamePlace(KeyOf(c, s, events[i]), h', s'.unused, side, Position(h, side), row.sendCount,
                side', Position(h', side'), RowOf(s', side').value.sendCount);
    }
  }

  lemma KeysAreOk(c: Config, s: System, h: History)
    requires Inv(c, s, h) && s.alice.Some?
    ensures KeysOk(h.keys, s.unused) && |h.keys| >= 2 && h.keys[0] == c.bobPrekey
  {}

  /** Bob never starts a session by sending, and Alice only while she has none. */
  lemma SealingNeedsSession(c: Config, s: System, e: Event)
    requires Seals(c, s, e)
    ensures e.BobSends? || s.alice.Some? ==> RowOf(s, Sender(e)).Some?
  {}

  /** A box that starts a session. */
  lemma StartsFresh(c: Config, s: System, e: Event)
    requires Seals(c, s, e) && e.AliceSends? && s.alice.None?
    ensures var s' := Step(c, s, e);
            && s'.unused == s.unused + 2
            && (s'.alice.Some? ==> s'.alice.value.sendSecret == s.unused + 1 && s'.alice.value.sendCount == 1)
  {}

  /** A box sealed in a session has the key of a box that started one only as the first on chain 1 of that session. */
  lemma FreshKeyOnSchedule(shared: Term, prekey: Secret, first: Secret, key: Term, h: History, unused: Secret,
                           side: Side, position: nat, number: nat)
    requires prekey < first && h.keys != [] && h.keys[0] == prekey && OnSchedule(key, h, unused, side, position, number)
    ensures key == MessageKey(NewChain(shared, DhOutput(prekey, first))) ==>
              side == Alice && position == 1 && number == 0 && h.keys[1] == first
  {
    var start, chain := NewChain(shared, DhOutput(prekey, first)), Chain(h.sharedSecret, h.keys, position);
    if key == MessageKey(start) {
      assert Advance(start, 0) == start;
      assert MessageKey(start).ikm[0] == MessageKey(Advance(chain, number)).ikm[0];
      AdvanceIsInjective(start, chain, 0, number);
      assert start.ikm[1] == chain.ikm[1];
    }
  }

  /** A box that starts a session shares its key with no later one. */
  lemma FreshNeverRepeats(c: Config, events: seq<Event>, i: nat, j: nat)
    requires i < j < |events|
    requires Seals(c, Run(c, events[..i]), events[i]) && Seals(c, Run(c, events[..j]), events[j])
    requires RowOf(Run(c, events[..i]), Sender(events[i])).None?
    ensures KeyOf(c, Run(c, events[..i]), events[i]) != KeyOf(c, Run(c, events[..j]), events[j])
  {
    hide Inv, Attempt, OnSchedule, Step, SharedSecret;
    var s, s1, s' := Run(c, events[..i]), Run(c, events[..i + 1]), Run(c, events[..j]);
    RunStep(c, events, i + 1);
    var h0 := RunsKeepInv(c, events[..i]);
    SealedWithoutSession(c, s, h0, events[i]);
    StartsFresh(c, s, events[i]);
    var h, h' := HistoryGrows(c, events, i + 1, j);
    var key, key' := KeyOf(c, s, events[i]), KeyOf(c, s', events[j]);
    var side := Sender(events[j]);
    if RowOf(s', side).None? {
      SealedWithoutSession(c, s', h', events[j]);
      var shared := SharedSecret(c.alice, s.unused, c.Bundle());
      var shared' := SharedSecret(c.alice, s'.unused, c.Bundle());
      FreshKeysDiffer(shared, shared', c.bobPrekey, s.unused + 1, s'.unused + 1);
    } else {
      SecretIsUsed(c, s', h', side);
      KeysAreOk(c, s', h');
      SealedOnSchedule(c, s', h', events[j]);
      FreshKeyOnSchedule(SharedSecret(c.alice, s.unused, c.Bundle()), c.bobPrekey, s.unused + 1, key', h', s'.unused,
                         side, Position(h', side), RowOf(s', side).value.sendCount);
      if s1.alice.Some? {
        RunMovesChain(c, events, i + 1, j, Alice);
      }
    }
  }

  lemma FreshKeysDiffer(shared: Term, shared': Term, prekey: Secret, x: Secret, y: Secret)
    requires x != y
    ensures MessageKey(NewChain(shared, DhOutput(prekey, x))) != MessageKey(NewChain(shared', DhOutput(prekey, y)))
  {
    var a, b := NewChain(shared, DhOutput(prekey, x)), NewChain(shared', DhOutput(prekey, y));
    assert a.ikm[1] != b.ikm[1];
    assert MessageKey(a).ikm[0] != MessageKey(b).ikm[0];
  }

  // Main results ---------------------------------------------------------------------------------

  /**
    Over every run, whatever the network and the databases do, two boxes are
    sealed under one key exactly when the same side sealed them, it had a stored
    session before the first, and from then up to the second it stored no send
    and accepted nothing on a new chain.
   */
  lemma SameKeyExactly(c: Config, events: seq<Event>, i: nat, j: nat)
    requires i < j < |events|
    requires Seals(c, Run(c, events[..i]), events[i]) && Seals(c, Run(c, events[..j]), events[j])
    ensures KeyOf(c, Run(c, events[..i]), events[i]) == KeyOf(c, Run(c, events[..j]), events[j]) <==>
            && Sender(events[i]) == Sender(events[j])
            && RowOf(Run(c, events[..i]), Sender(events[i])).Some?
            && Quiet(c, events, i, j, Sender(events[i]))
  {
    hide Run, Attempt, Quiet;
    if RowOf(Run(c, events[..i]), Sender(events[i])).Some? {
      RepeatsInSession(c, events, i, j);
    } else {
      FreshNeverRepeats(c, events, i, j);
    }
  }

  /** It does happen: after a write that fails, the next send seals another plaintext under the same key. */
  lemma FailedWriteRepeatsKey(c: Config, s: System, p: Plaintext, q: Plaintext, b: bool, b': bool)
    requires s.alice.Some?
    ensures var e, e' := AliceSends(p, b, Storage(true, false)), AliceSends(q, b', Storage(true, true));
            var s' := Step(c, s, e);
            && Seals(c, s, e) && Seals(c, s', e') && KeyOf(c, s, e) == KeyOf(c, s', e')
            && s'.fromAlice == s.fromAlice && |Step(c, s', e').fromAlice| == |s.fromAlice| + 1
  {}

  /** For example in the second and third send of any conversation. */
  lemma RunWithRepeatedKey(c: Config, x: Plaintext, p: Plaintext, q: Plaintext)
    ensures var ok := Storage(true, true);
            var events := [AliceSends(x, true, ok), AliceSends(p, true, Storage(true, false)), AliceSends(q, true, ok)];
            && Seals(c, Run(c, events[..1]), events[1]) && Seals(c, Run(c, events[..2]), events[2])
            && KeyOf(c, Run(c, events[..1]), events[1]) == KeyOf(c, Run(c, events[..2]), events[2])
  {
    hide Run, Attempt;
    var ok := Storage(true, true);
    var events := [AliceSends(x, true, ok), AliceSends(p, true, Storage(true, false)), AliceSends(q, true, ok)];
    RunStep(c, events, 1);
    RunStep(c, events, 2);
    FirstSendStarts(c, Run(c, events[..0]), events[0]);
    FailedWriteRepeatsKey(c, Run(c, events[..1]), p, q, true, true);
  }

  lemma FirstSendStarts(c: Config, s: System, e: Event)
    requires e.AliceSends? && e.withBundle && e.storage.Works()
    ensures Step(c, s, e).alice.Some?
  {}

  /** The same send with a database that works. */
  function Reliable(e: Event): Event
    requires IsSend(e)
  {
    var storage := Storage(true, true);
    if e.AliceSends? then AliceSends(e.plaintext, e.withBundle, storage) else BobSends(e.plaintext, storage)
  }

  /** Where the box of a send appears among the ciphertexts once it is stored. */
  lemma StoredBoxIsLogged(c: Config, s: System, e: Event)
    requires Seals(c, s, e) && e.storage.Works()
    ensures var at := if e.AliceSends? then |s.fromAlice| else |s.fromAlice| + |s.fromBob|;
            var s' := Step(c, s, e);
            && |Ciphertexts(s')| == |Ciphertexts(s)| + 1 && Ciphertexts(s')[at].key == KeyOf(c, s, e)
            && forall i | 0 <= i < |Ciphertexts(s)| :: Ciphertexts(s')[if i < at then i else i + 1] == Ciphertexts(s)[i]
  {}

  /** The key of a message that was handed out is never used again, whatever becomes of the later send. */
  lemma HandedOutIsNeverUsedAgain(c: Config, events: seq<Event>, e: Event, i: nat)
    requires Seals(c, Run(c, events), e) && i < |Ciphertexts(Run(c, events))|
    ensures KeyOf(c, Run(c, events), e) != Ciphertexts(Run(c, events))[i].key
  {
    hide Ciphertexts, Step;
    var s, e' := Run(c, events), Reliable(e);
    var all := events + [e'];
    assert all[..|events|] == events;
    assert Run(c, all) == Step(c, s, e');
    StoredBoxIsLogged(c, s, e');
    var at := if e.AliceSends? then |s.fromAlice| else |s.fromAlice| + |s.fromBob|;
    if i < at {
      MessageKeysNeverRepeat(c, all, i, at);
    } else {
      MessageKeysNeverRepeat(c, all, at, i + 1);
    }
  }

  /** No box, handed out or not, is sealed on the all-zero chain. */
  lemma SealedOffZeroChain(c: Config, events: seq<Event>, e: Event, n: nat)
    requires Seals(c, Run(c, events), e)
    ensures KeyOf(c, Run(c, events), e) != MessageKey(Advance(ZeroKey, n))
  {
    hide Ciphertexts, Step;
    var s, e' := Run(c, events), Reliable(e);
    var all := events + [e'];
    assert all[..|events|] == events;
    assert Run(c, all) == Step(c, s, e');
    StoredBoxIsLogged(c, s, e');
    NeverOnZeroChain(c, all, if e.AliceSends? then |s.fromAlice| else |s.fromAlice| + |s.fromBob|, n);
  }
}
