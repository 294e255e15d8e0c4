/**
  Whole conversations between two session managers.

  Alice initiates with X3DH; Bob answers. The network may drop, duplicate and
  reorder the messages either side sent. The proofs rest on one observation:
  all ratchet keys of both sides form a single schedule

      keys[0] = Bob's signed prekey, keys[1] = Alice's first key, keys[2] = Bob's, ...

  in which chain `i` is sent under `keys[i]` and derived from root `i - 1` and
  the Diffie-Hellman output of `keys[i - 1]` and `keys[i]`. Each side stands at
  one position of the schedule, and the two positions differ by exactly one.
 */
module Conversation {
  import opened Wrappers
  import opened SymbolicCrypto
  import opened Ratchet
  import opened X3dh
  import opened Session

  // The system -------------------------------------------------------------

  /** Long-term secrets; all are drawn before the conversation starts. */
  datatype Config = Config(alice: Secret, bob: Secret, bobPrekey: Secret, bobOneTime: Option<Secret>) {
    function Bundle(): PrekeyBundle { BundleOf(bob, bobPrekey, bobOneTime) }
  }

  datatype Sent = Sent(message: EncryptedMessage, plaintext: Plaintext)

  /**
    Stored sessions, everything ever sent by each side in send order, the
    indices each side accepted, and a generator of unused secrets.
   */
  datatype System = System(
    alice: Option<Row>, bob: Option<Row>,
    fromAlice: seq<Sent>, fromBob: seq<Sent>,
    acceptedByBob: seq<nat>, acceptedByAlice: seq<nat>,
    unused: Secret)

  datatype Event =
    | AliceSends(plaintext: Plaintext, withBundle: bool, storage: Storage)
    | BobSends(plaintext: Plaintext, storage: Storage)
    | ToBob(index: nat, ratchetKey: Option<Secret>, sharedSecret: Option<Term>, storage: Storage)
    | ToAlice(index: nat, ratchetKey: Option<Secret>, sharedSecret: Option<Term>, storage: Storage)

  function Initial(c: Config): System {
    System(None, None, [], [], [], [],
           1 + c.alice + c.bob + c.bobPrekey + (if c.bobOneTime.Some? then c.bobOneTime.value else 0))
  }

  function Delivered(s: System, e: Event): Result<(Row, Plaintext), SessionError>
    requires e.ToBob? ==> e.index < |s.fromAlice|
    requires e.ToAlice? ==> e.index < |s.fromBob|
    requires e.ToBob? || e.ToAlice?
  {
    var m := if e.ToBob? then s.fromAlice[e.index].message else s.fromBob[e.index].message;
    Stored(e.storage, Decrypted(if e.ToBob? then s.bob else s.alice, e.ratchetKey, e.sharedSecret, m.header, m.ciphertext, s.unused))
  }

  /** What a send seals and is about to store, whether or not its write then succeeds. */
  function Attempt(c: Config, s: System, e: Event): Result<(Row, EncryptedMessage), SessionError>
    requires e.AliceSends? || e.BobSends?
  {
    var generated := Generated(s.unused, s.unused + 1);
    if e.AliceSends? then Encrypted(s.alice, c.alice, if e.withBundle then Some(c.Bundle()) else None, e.plaintext, generated)
    else Encrypted(s.bob, c.bob, None, e.plaintext, generated)
  }

  /** Secrets drawn by a call that fails are never drawn again. */
  function Step(c: Config, s: System, e: Event): System {
    match e
    case AliceSends(plaintext, _, storage) =>
      (match Stored<(Row, EncryptedMessage)>(storage, Attempt(c, s, e))
       case Ok((row, m)) => s.(alice := Some(row), fromAlice := s.fromAlice + [Sent(m, plaintext)], unused := s.unused + 2)
       case Err(_) => s.(unused := s.unused + 2))
    case BobSends(plaintext, storage) =>
      (match Stored<(Row, EncryptedMessage)>(storage, Attempt(c, s, e))
       case Ok((row, m)) => s.(bob := Some(row), fromBob := s.fromBob + [Sent(m, plaintext)], unused := s.unused + 2)
       case Err(_) => s.(unused := s.unused + 2))
    case ToBob(i, _, _, _) =>
      if i >= |s.fromAlice| then s else
      (match Delivered(s, e)
       case Ok((row, _)) => s.(bob := Some(row), acceptedByBob := s.acceptedByBob + [i], unused := s.unused + 1)
       case Err(_) => s.(unused := s.unused + 1))
    case ToAlice(i, _, _, _) =>
      if i >= |s.fromBob| then s else
      (match Delivered(s, e)
       case Ok((row, _)) => s.(alice := Some(row), acceptedByAlice := s.acceptedByAlice + [i], unused := s.unused + 1)
       case Err(_) => s.(unused := s.unused + 1))
  }

  function Run(c: Config, events: seq<Event>): System {
    if events == [] then Initial(c) else Step(c, Run(c, events[..|events| - 1]), events[|events| - 1])
  }

  // The key schedule ---------------------------------------------------------

  function Root(ss: Term, keys: seq<Secret>, i: nat): Term
    requires i < |keys|
    decreases i
  {
    if i == 0 then ss
    else NextRoot(Root(ss, keys, i - 1), DiffieHellman(keys[i - 1], PublicKey(keys[i])))
  }

  function Chain(ss: Term, keys: seq<Secret>, i: nat): Term
    requires 1 <= i < |keys|
  {
    NewChain(Root(ss, keys, i - 1), DiffieHellman(keys[i - 1], PublicKey(keys[i])))
  }

  lemma DiffieHellmanCommutes(a: Secret, b: Secret)
    ensures DiffieHellman(a, PublicKey(b)) == DiffieHellman(b, PublicKey(a))
  {}

  lemma {:induction false} ScheduleGrows(ss: Term, keys: seq<Secret>, more: seq<Secret>, i: nat)
    requires i < |keys|
    ensures Root(ss, keys + more, i) == Root(ss, keys, i)
    ensures i >= 1 ==> Chain(ss, keys + more, i) == Chain(ss, keys, i)
    decreases i
  {
    if i > 0 {
      ScheduleGrows(ss, keys, more, i - 1);
    }
  }

  /** A chain that starts at a root and a DH output never comes back to a start. */
  lemma {:induction false} AdvanceIsInjective(start: Term, start': Term, m: nat, n: nat)
    requires start.Derived? && |start.ikm| == 2
    requires start'.Derived? && |start'.ikm| == 2
    requires Advance(start, m) == Advance(start', n)
    ensures m == n && start == start'
    decreases m
  {
    if m > 0 && n > 0 {
      assert Advance(start, m).ikm[0] == Advance(start', n).ikm[0];
      AdvanceIsInjective(start, start', m - 1, n - 1);
    }
  }

  lemma {:induction false} AdvanceNeverZero(start: Term, m: nat, n: nat)
    requires start.Derived? && |start.ikm| == 2
    ensures Advance(start, m) != Advance(ZeroKey, n)
    decreases m
  {
    if m > 0 && n > 0 {
      AdvanceNeverZero(start, m - 1, n - 1);
      assert Advance(start, m).ikm[0] != Advance(ZeroKey, n).ikm[0];
    }
  }

  lemma {:induction false} AdvanceAdds(start: Term, m: nat, n: nat)
    ensures Advance(Advance(start, m), n) == Advance(start, m + n)
    decreases n
  {
    if n > 0 {
      AdvanceAdds(start, m, n - 1);
    }
  }

  // The invariant ------------------------------------------------------------

  /** Where the two sides stand, and on which chain each message was sent. */
  datatype History = History(
    sharedSecret: Term,
    keys: seq<Secret>,
    alicePosition: nat, bobPosition: nat,
    aliceChains: seq<nat>, bobChains: seq<nat>)

  ghost predicate KeysOk(keys: seq<Secret>, unused: Secret) {
    && (forall i | 0 <= i < |keys| :: keys[i] < unused)
    && (forall i, j | 0 <= i < j < |keys| :: keys[i] != keys[j])
  }

  /** A side with a session stands at `position`. */
  ghost predicate SideOk(row: Row, ss: Term, keys: seq<Secret>, position: nat) {
    && 1 <= position < |keys|
    && row.rootKey == Root(ss, keys, position)
    && row.sendSecret == keys[position]
    && row.sendChainKey == Advance(Chain(ss, keys, position), row.sendCount)
    && row.recvPublic == Some(PublicKey(keys[position - 1]))
    && (position >= 2 ==> row.recvChainKey == Advance(Chain(ss, keys, position - 1), row.recvCount))
    && (position == 1 ==> row.recvCount == 0)
  }

  /** One sent message lies on chain `chain` of the schedule. */
  ghost predicate SentOn(sent: Sent, ss: Term, keys: seq<Secret>, chain: nat) {
    && 1 <= chain < |keys|
    && sent.message.header.ratchetKey == PublicKey(keys[chain])
    && sent.message.ciphertext
       == Sealed(MessageKey(Advance(Chain(ss, keys, chain), sent.message.header.messageNumber)), sent.plaintext)
  }

  predicate Before(chain: nat, number: nat, chain': nat, number': nat) {
    chain < chain' || (chain == chain' && number < number')
  }

  /** The log of a sender at `position` with `sendCount` messages on its current chain. */
  ghost predicate LogOk(log: seq<Sent>, chains: seq<nat>, ss: Term, keys: seq<Secret>, position: nat, sendCount: nat) {
    && |chains| == |log|
    && (forall i | 0 <= i < |log| ::
          && SentOn(log[i], ss, keys, chains[i])
          && chains[i] % 2 == position % 2
          && Before(chains[i], log[i].message.header.messageNumber, position, sendCount))
    && (forall i, j | 0 <= i < j < |log| ::
          Before(chains[i], log[i].message.header.messageNumber, chains[j], log[j].message.header.messageNumber))
  }

  /** The receiver's position and counter are exactly those left by its last acceptance. */
  ghost predicate AcceptedOk(accepted: seq<nat>, log: seq<Sent>, chains: seq<nat>, position: nat, recvCount: nat) {
    && |chains| == |log|
    && (forall a | a in accepted ::
          && a < |log|
          && position >= 1
          && Before(chains[a], log[a].message.header.messageNumber, position - 1, recvCount))
    && (position >= 2 ==>
          && accepted != []
          && var last := accepted[|accepted| - 1];
             last < |log| && chains[last] == position - 1 && log[last].message.header.messageNumber + 1 == recvCount)
  }

  ghost predicate Started(c: Config, s: System, h: History) {
    && s.alice.Some?
    && |h.aliceChains| == |s.fromAlice| && |h.bobChains| == |s.fromBob|
    && |h.keys| >= 2 && h.keys[0] == c.bobPrekey
    && KeysOk(h.keys, s.unused)
    && |s.fromAlice| >= 1 && s.fromAlice[0].message.x3dhHeader.Some?
    && RespondedSecret(c.bob, c.bobPrekey, c.bobOneTime, s.fromAlice[0].message.x3dhHeader.value) == Ok(h.sharedSecret)
    && h.alicePosition % 2 == 1 && h.bobPosition % 2 == 0
    && (h.bobPosition == h.alicePosition + 1 || h.alicePosition == h.bobPosition + 1)
    && |h.keys| == 1 + (if h.alicePosition < h.bobPosition then h.bobPosition else h.alicePosition)
    && SideOk(s.alice.value, h.sharedSecret, h.keys, h.alicePosition)
    && (if s.bob.None? then h.bobPosition == 0 && s.fromBob == [] && s.acceptedByBob == []
        else SideOk(s.bob.value, h.sharedSecret, h.keys, h.bobPosition))
    && LogOk(s.fromAlice, h.aliceChains, h.sharedSecret, h.keys, h.alicePosition, s.alice.value.sendCount)
    && LogOk(s.fromBob, h.bobChains, h.sharedSecret, h.keys, h.bobPosition, if s.bob.Some? then s.bob.value.sendCount else 0)
    && AcceptedOk(s.acceptedByBob, s.fromAlice, h.aliceChains, h.bobPosition, if s.bob.Some? then s.bob.value.recvCount else 0)
    && AcceptedOk(s.acceptedByAlice, s.fromBob, h.bobChains, h.alicePosition, s.alice.value.recvCount)
  }

  ghost predicate Inv(c: Config, s: System, h: History) {
    && s.unused >= Initial(c).unused
    && (Started(c, s, h) || s == Initial(c).(unused := s.unused))
  }

  /** A later history keeps what an earlier one fixed; ratchet keys added since were unused before. */
  ghost predicate Extends(s: System, h: History, h': History) {
    && (s.alice.Some? ==> h'.sharedSecret == h.sharedSecret && h.keys <= h'.keys)
    && forall m | (if s.alice.Some? then |h.keys| else 1) <= m < |h'.keys| :: h'.keys[m] >= s.unused
  }

  // One delivery, from the receiver's point of view ---------------------------

  /** A receiver without a session behaves like one standing at position 0. */
  ghost predicate ReceiverOk(row: Row, ss: Term, keys: seq<Secret>, position: nat) {
    if position == 0 then |keys| >= 1 && row == ReceiverRow(ss, keys[0]) else SideOk(row, ss, keys, position)
  }

  /** Only a side with a session stands past position 0, and only past position 1 has it received anything. */
  lemma Positions(row: Row, ss: Term, keys: seq<Secret>, position: nat)
    ensures SideOk(row, ss, keys, position) ==> position >= 1
    ensures ReceiverOk(row, ss, keys, position) && position < 2 ==> row.recvCount == 0
  {}

  /** A message on the next chain always opens, and moves the receiver two positions on. */
  lemma NextChainOpens(row: Row, sent: Sent, ss: Term, keys: seq<Secret>, position: nat, generated: Secret)
    requires ReceiverOk(row, ss, keys, position) && KeysOk(keys, generated)
    requires |keys| == position + 2 && SentOn(sent, ss, keys, position + 1)
    ensures Open(DecryptionKey(row, sent.message.header, generated), sent.message.ciphertext) == Some(sent.plaintext)
    ensures var row' := AfterDecrypt(row, sent.message.header, generated);
            && KeysOk(keys + [generated], generated + 1)
            && SideOk(row', ss, keys + [generated], position + 2)
            && row'.sendCount == 0
            && row'.recvCount == sent.message.header.messageNumber + 1
  {
    var header := sent.message.header;
    var n := header.messageNumber;
    DiffieHellmanCommutes(generated, keys[position + 1]);
    assert row.recvPublic != Some(header.ratchetKey);
    var on := AfterDhStep(row, header.ratchetKey, generated);
    assert on.recvChainKey == Chain(ss, keys, position + 1);
    var keys' := keys + [generated];
    ScheduleGrows(ss, keys, [generated], position + 1);
    assert keys'[position + 1] == keys[position + 1] && keys'[position + 2] == generated;
    assert on.rootKey == Root(ss, keys', position + 2);
  }

  /** On the current chain a message opens exactly when its number was not passed. */
  lemma CurrentChainOpens(row: Row, sent: Sent, ss: Term, keys: seq<Secret>, position: nat, generated: Secret)
    requires position >= 2 && SideOk(row, ss, keys, position) && KeysOk(keys, generated)
    requires SentOn(sent, ss, keys, position - 1)
    ensures var answer := Open(DecryptionKey(row, sent.message.header, generated), sent.message.ciphertext);
            && (answer.Some? <==> row.recvCount <= sent.message.header.messageNumber)
            && (answer.Some? ==>
                  var row' := AfterDecrypt(row, sent.message.header, generated);
                  && answer == Some(sent.plaintext)
                  && SideOk(row', ss, keys, position)
                  && row'.sendCount == row.sendCount
                  && row'.recvCount == sent.message.header.messageNumber + 1)
  {
    var n := sent.message.header.messageNumber;
    var start := Chain(ss, keys, position - 1);
    var skip := Skipped(row, sent.message.header);
    AdvanceAdds(start, row.recvCount, skip);
    var derived := Advance(start, row.recvCount + skip);
    assert DecryptionKey(row, sent.message.header, generated) == MessageKey(derived);
    if row.recvCount > n {
      if MessageKey(derived) == MessageKey(Advance(start, n)) {
        assert [derived][0] == [Advance(start, n)][0];
        AdvanceIsInjective(start, start, row.recvCount, n);
        assert false;
      }
    }
  }

  /** A message on an abandoned chain never opens. */
  lemma OldChainStaysShut(row: Row, sent: Sent, ss: Term, keys: seq<Secret>, position: nat, chain: nat, generated: Secret)
    requires SideOk(row, ss, keys, position) && KeysOk(keys, generated)
    requires SentOn(sent, ss, keys, chain) && chain + 1 < position
    ensures Open(DecryptionKey(row, sent.message.header, generated), sent.message.ciphertext) == None
  {
    var header := sent.message.header;
    var n := header.messageNumber;
    assert keys[chain] != keys[position - 1];
    var dh := DiffieHellman(row.sendSecret, header.ratchetKey);
    var wrong := NewChain(row.rootKey, dh);
    var right := Chain(ss, keys, chain);
    assert DecryptionKey(row, header, generated) == MessageKey(Advance(wrong, n));
    if MessageKey(Advance(wrong, n)) == MessageKey(Advance(right, n)) {
      assert [Advance(wrong, n)][0] == [Advance(right, n)][0];
      AdvanceIsInjective(wrong, right, n, n);
      assert false;
    }
  }

  // One step -------------------------------------------------------------------

  lemma KeysStay(keys: seq<Secret>, unused: Secret)
    requires KeysOk(keys, unused)
    ensures KeysOk(keys, unused + 1) && KeysOk(keys, unused + 2)
  {}

  lemma LogGrows(log: seq<Sent>, chains: seq<nat>, ss: Term, keys: seq<Secret>, position: nat, sendCount: nat, more: seq<Secret>)
    requires LogOk(log, chains, ss, keys, position, sendCount)
    ensures LogOk(log, chains, ss, keys + more, position, sendCount)
  {
    forall i | 0 <= i < |log|
      ensures SentOn(log[i], ss, keys + more, chains[i])
    {
      ScheduleGrows(ss, keys, more, chains[i]);
    }
  }

  /** A sender's own DH step closes its chain; the log lies before the new position. */
  lemma LogMoves(log: seq<Sent>, chains: seq<nat>, ss: Term, keys: seq<Secret>, position: nat, sendCount: nat)
    requires LogOk(log, chains, ss, keys, position, sendCount)
    ensures LogOk(log, chains, ss, keys, position + 2, 0)
  {}

  lemma SideGrows(row: Row, ss: Term, keys: seq<Secret>, position: nat, more: seq<Secret>)
    requires SideOk(row, ss, keys, position)
    ensures SideOk(row, ss, keys + more, position)
  {
    ScheduleGrows(ss, keys, more, position);
    ScheduleGrows(ss, keys, more, position - 1);
  }

  /** Sending puts the message last on the sender's current chain. */
  lemma Sends(row: Row, log: seq<Sent>, chains: seq<nat>, ss: Term, keys: seq<Secret>, position: nat, sent: Sent)
    requires SideOk(row, ss, keys, position) && LogOk(log, chains, ss, keys, position, row.sendCount)
    requires sent.message.header == EncryptedHeader(row)
    requires sent.message.ciphertext == Sealed(MessageKey(row.sendChainKey), sent.plaintext)
    ensures SideOk(AfterEncrypt(row), ss, keys, position)
    ensures LogOk(log + [sent], chains + [position], ss, keys, position, row.sendCount + 1)
  {}

  lemma AcceptedStays(accepted: seq<nat>, log: seq<Sent>, chains: seq<nat>, position: nat, recvCount: nat, sent: Sent, chain: nat)
    requires AcceptedOk(accepted, log, chains, position, recvCount)
    ensures AcceptedOk(accepted, log + [sent], chains + [chain], position, recvCount)
  {}

  /** Where accepting message `i` takes a receiver: onto a new chain, or along its current one. */
  ghost predicate SideMoved(row': Row, accepted: seq<nat>, log: seq<Sent>, chains: seq<nat>, ss: Term, keys: seq<Secret>,
                            position: nat, peer: nat, sendCount: nat, i: nat, generated: Secret)
    requires i < |chains|
  {
    if chains[i] == position + 1 then
      && KeysOk(keys + [generated], generated + 1)
      && SideOk(row', ss, keys + [generated], position + 2) && row'.sendCount == 0
      && AcceptedOk(accepted + [i], log, chains, position + 2, row'.recvCount)
      && peer == position + 1
    else
      && position >= 2
      && SideOk(row', ss, keys, position) && row'.sendCount == sendCount
      && AcceptedOk(accepted + [i], log, chains, position, row'.recvCount)
  }

  /** What a receiver does with message `i` of its peer's log. */
  lemma Receives(row: Row, accepted: seq<nat>, log: seq<Sent>, chains: seq<nat>, ss: Term, keys: seq<Secret>,
                 position: nat, peer: nat, sendCount: nat, i: nat, generated: Secret)
    requires ReceiverOk(row, ss, keys, position) && KeysOk(keys, generated)
    requires LogOk(log, chains, ss, keys, peer, sendCount) && i < |log|
    requires AcceptedOk(accepted, log, chains, position, row.recvCount)
    requires peer == position + 1 || position == peer + 1
    requires |keys| == 1 + (if peer < position then position else peer)
    ensures var answer := Open(DecryptionKey(row, log[i].message.header, generated), log[i].message.ciphertext);
            && (answer.Some? <==> forall a | a in accepted :: a < i)
            && (answer.Some? ==>
                  && answer == Some(log[i].plaintext)
                  && SideMoved(AfterDecrypt(row, log[i].message.header, generated), accepted, log, chains, ss, keys,
                               position, peer, row.sendCount, i, generated))
  {
    hide DecryptionKey, AfterDecrypt, SideOk, KeysOk;
    Positions(row, ss, keys, position);
    assert SentOn(log[i], ss, keys, chains[i]) && chains[i] % 2 == peer % 2;
    if chains[i] == position + 1 {
      NextChainOpens(row, log[i], ss, keys, position, generated);
      AcceptsLater(accepted, log, chains, ss, keys, peer, sendCount, position, row.recvCount, i);
    } else if chains[i] + 1 == position {
      CurrentChainOpens(row, log[i], ss, keys, position, generated);
      AcceptsLater(accepted, log, chains, ss, keys, peer, sendCount, position, row.recvCount, i);
    } else {
      OldChainStaysShut(row, log[i], ss, keys, position, chains[i], generated);
      AcceptsLater(accepted, log, chains, ss, keys, peer, sendCount, position, row.recvCount, i);
    }
  }

  /** Later than every accepted message means past the receiver's chain and counter. */
  lemma AcceptsLater(accepted: seq<nat>, log: seq<Sent>, chains: seq<nat>, ss: Term, keys: seq<Secret>,
                     peer: nat, sendCount: nat, position: nat, recvCount: nat, i: nat)
    requires LogOk(log, chains, ss, keys, peer, sendCount) && i < |log|
    requires AcceptedOk(accepted, log, chains, position, recvCount)
    requires position < 2 ==> recvCount == 0
    ensures (forall a | a in accepted :: a < i)
            <==> position < 2 || !Before(chains[i], log[i].message.header.messageNumber, position - 1, recvCount)
  {
    if position >= 2 {
      var last := accepted[|accepted| - 1];
      assert last in accepted;
    }
  }

  lemma AliceStarts(c: Config, s: System, plaintext: Plaintext, storage: Storage) returns (h': History)
    requires s == Initial(c).(unused := s.unused) && s.unused >= Initial(c).unused && storage.Works()
    ensures Inv(c, Step(c, s, AliceSends(plaintext, true, storage)), h')
    ensures |h'.keys| == 2 && h'.keys[1] == s.unused + 1
  {
    var ss := SharedSecret(c.alice, s.unused, c.Bundle());
    AgreementHolds(c.alice, s.unused, c.bob, c.bobPrekey, c.bobOneTime);
    var keys := [c.bobPrekey, s.unused + 1];
    var row := SenderRow(ss, c.Bundle().signedPrekey, s.unused + 1);
    DiffieHellmanCommutes(s.unused + 1, c.bobPrekey);
    assert Root(ss, keys, 0) == ss;
    assert SideOk(row, ss, keys, 1);
    var s' := Step(c, s, AliceSends(plaintext, true, storage));
    Sends(row, [], [], ss, keys, 1, s'.fromAlice[0]);
    h' := History(ss, keys, 1, 0, [1], []);
    assert [] + [s'.fromAlice[0]] == s'.fromAlice;
  }

  lemma AliceSending(c: Config, s: System, h: History, plaintext: Plaintext, withBundle: bool, storage: Storage) returns (h': History)
    requires Inv(c, s, h) && Started(c, s, h)
    ensures Inv(c, Step(c, s, AliceSends(plaintext, withBundle, storage)), h')
    ensures Extends(s, h, h')
  {
    hide LogOk, SideOk, KeysOk, AcceptedOk, RespondedSecret;
    KeysStay(h.keys, s.unused);
    h' := h;
    if storage.Works() {
      var s' := Step(c, s, AliceSends(plaintext, withBundle, storage));
      var sent := s'.fromAlice[|s.fromAlice|];
      Sends(s.alice.value, s.fromAlice, h.aliceChains, h.sharedSecret, h.keys, h.alicePosition, sent);
      AcceptedStays(s.acceptedByBob, s.fromAlice, h.aliceChains, h.bobPosition,
                    if s.bob.Some? then s.bob.value.recvCount else 0, sent, h.alicePosition);
      h' := h.(aliceChains := h.aliceChains + [h.alicePosition]);
    }
  }

  lemma BobSending(c: Config, s: System, h: History, plaintext: Plaintext, storage: Storage) returns (h': History)
    requires Inv(c, s, h) && Started(c, s, h)
    ensures Inv(c, Step(c, s, BobSends(plaintext, storage)), h')
    ensures Extends(s, h, h')
  {
    hide LogOk, SideOk, KeysOk, AcceptedOk, RespondedSecret;
    KeysStay(h.keys, s.unused);
    h' := h;
    if s.bob.Some? && storage.Works() {
      var s' := Step(c, s, BobSends(plaintext, storage));
      var sent := s'.fromBob[|s.fromBob|];
      Sends(s.bob.value, s.fromBob, h.bobChains, h.sharedSecret, h.keys, h.bobPosition, sent);
      AcceptedStays(s.acceptedByAlice, s.fromBob, h.bobChains, h.alicePosition, s.alice.value.recvCount, sent, h.bobPosition);
      h' := h.(bobChains := h.bobChains + [h.bobPosition]);
    }
  }

  /** Bob has a session, or is given the responder's half of this X3DH exchange. */
  predicate BobCanOpen(c: Config, s: System, ratchetKey: Option<Secret>, sharedSecret: Option<Term>) {
    || s.bob.Some?
    || (&& ratchetKey == Some(c.bobPrekey)
        && sharedSecret.Some?
        && s.fromAlice != [] && s.fromAlice[0].message.x3dhHeader.Some?
        && RespondedSecret(c.bob, c.bobPrekey, c.bobOneTime, s.fromAlice[0].message.x3dhHeader.value) == Ok(sharedSecret.value))
  }

  /** Without a session, only the true prekey and the true secret open anything. */
  lemma FirstMessageNeedsSecret(c: Config, s: System, h: History, i: nat, ratchetKey: Secret, sharedSecret: Term, generated: Secret)
    requires Started(c, s, h) && s.bob.None? && i < |s.fromAlice|
    requires Open(DecryptionKey(ReceiverRow(sharedSecret, ratchetKey), s.fromAlice[i].message.header, generated),
                  s.fromAlice[i].message.ciphertext).Some?
    ensures ratchetKey == c.bobPrekey && sharedSecret == h.sharedSecret
  {
    var header := s.fromAlice[i].message.header;
    assert SentOn(s.fromAlice[i], h.sharedSecret, h.keys, h.aliceChains[i]) && h.aliceChains[i] == 1;
    var tried := NewChain(sharedSecret, DiffieHellman(ratchetKey, header.ratchetKey));
    var right := Chain(h.sharedSecret, h.keys, 1);
    var key := Advance(tried, header.messageNumber);
    assert MessageKey(key).ikm[0] == MessageKey(Advance(right, header.messageNumber)).ikm[0];
    AdvanceIsInjective(tried, right, header.messageNumber, header.messageNumber);
    assert tried.ikm[0] == right.ikm[0] && tried.ikm[1] == right.ikm[1];
  }

  /** Later in send order than everything accepted so far. */
  predicate LaterThanAll(accepted: seq<nat>, i: nat) {
    forall a | a in accepted :: a < i
  }

  lemma BobOpens(c: Config, s: System, h: History, e: Event)
    requires Started(c, s, h) && e.ToBob? && e.index < |s.fromAlice|
    ensures Delivered(s, e).Ok?
            <==> e.storage.Works() && BobCanOpen(c, s, e.ratchetKey, e.sharedSecret) && LaterThanAll(s.acceptedByBob, e.index)
    ensures Delivered(s, e).Ok? ==>
              && Delivered(s, e).value.1 == s.fromAlice[e.index].plaintext
              && SideMoved(Delivered(s, e).value.0, s.acceptedByBob, s.fromAlice, h.aliceChains, h.sharedSecret, h.keys,
                           h.bobPosition, h.alicePosition, if s.bob.Some? then s.bob.value.sendCount else 0, e.index, s.unused)
  {
    hide LogOk, AcceptedOk, KeysOk, SideOk, SideMoved, RespondedSecret, DecryptionKey, AfterDecrypt;
    var loaded := LoadOrRespond(s.bob, e.ratchetKey, e.sharedSecret);
    if loaded.Ok? {
      Positions(loaded.value, h.sharedSecret, h.keys, h.bobPosition);
      if !BobCanOpen(c, s, e.ratchetKey, e.sharedSecret) {
        if Delivered(s, e).Ok? {
          FirstMessageNeedsSecret(c, s, h, e.index, e.ratchetKey.value, e.sharedSecret.value, s.unused);
          assert false;
        }
      } else {
        Receives(loaded.value, s.acceptedByBob, s.fromAlice, h.aliceChains, h.sharedSecret, h.keys,
                 h.bobPosition, h.alicePosition, s.alice.value.sendCount, e.index, s.unused);
      }
    }
  }

  lemma BobReceiving(c: Config, s: System, h: History, e: Event) returns (h': History)
    requires Started(c, s, h) && e.ToBob? && e.index < |s.fromAlice|
    ensures Started(c, Step(c, s, e), h')
    ensures Extends(s, h, h')
  {
    hide LogOk, SideOk, KeysOk, AcceptedOk, Decrypted, RespondedSecret;
    BobOpens(c, s, h, e);
    KeysStay(h.keys, s.unused);
    h' := h;
    if Delivered(s, e).Ok? && h.aliceChains[e.index] == h.bobPosition + 1 {
      var sendCount := if s.bob.Some? then s.bob.value.sendCount else 0;
      LogGrows(s.fromAlice, h.aliceChains, h.sharedSecret, h.keys, h.alicePosition, s.alice.value.sendCount, [s.unused]);
      LogGrows(s.fromBob, h.bobChains, h.sharedSecret, h.keys, h.bobPosition, sendCount, [s.unused]);
      LogMoves(s.fromBob, h.bobChains, h.sharedSecret, h.keys + [s.unused], h.bobPosition, sendCount);
      SideGrows(s.alice.value, h.sharedSecret, h.keys, h.alicePosition, [s.unused]);
      h' := h.(keys := h.keys + [s.unused], bobPosition := h.bobPosition + 2);
    }
  }

  lemma BobHasSession(c: Config, s: System, h: History)
    requires Started(c, s, h) && s.fromBob != []
    ensures s.bob.Some? && h.alicePosition >= 1
  {}

  lemma AliceOpens(c: Config, s: System, h: History, e: Event)
    requires Started(c, s, h) && e.ToAlice? && e.index < |s.fromBob|
    ensures Delivered(s, e).Ok? <==> e.storage.Works() && LaterThanAll(s.acceptedByAlice, e.index)
    ensures Delivered(s, e).Ok? ==>
              && Delivered(s, e).value.1 == s.fromBob[e.index].plaintext
              && SideMoved(Delivered(s, e).value.0, s.acceptedByAlice, s.fromBob, h.bobChains, h.sharedSecret, h.keys,
                           h.alicePosition, h.bobPosition, s.alice.value.sendCount, e.index, s.unused)
  {
    hide LogOk, AcceptedOk, KeysOk, SideOk, SideMoved, RespondedSecret, DecryptionKey, AfterDecrypt;
    BobHasSession(c, s, h);
    Receives(s.alice.value, s.acceptedByAlice, s.fromBob, h.bobChains, h.sharedSecret, h.keys,
             h.alicePosition, h.bobPosition, s.bob.value.sendCount, e.index, s.unused);
  }

  lemma AliceReceiving(c: Config, s: System, h: History, e: Event) returns (h': History)
    requires Started(c, s, h) && e.ToAlice? && e.index < |s.fromBob|
    ensures Started(c, Step(c, s, e), h')
    ensures Extends(s, h, h')
  {
    hide LogOk, SideOk, KeysOk, AcceptedOk, Decrypted, RespondedSecret;
    AliceOpens(c, s, h, e);
    KeysStay(h.keys, s.unused);
    h' := h;
    if Delivered(s, e).Ok? && h.bobChains[e.index] == h.alicePosition + 1 {
      var sendCount := s.alice.value.sendCount;
      LogGrows(s.fromBob, h.bobChains, h.sharedSecret, h.keys, h.bobPosition, s.bob.value.sendCount, [s.unused]);
      LogGrows(s.fromAlice, h.aliceChains, h.sharedSecret, h.keys, h.alicePosition, sendCount, [s.unused]);
      LogMoves(s.fromAlice, h.aliceChains, h.sharedSecret, h.keys + [s.unused], h.alicePosition, sendCount);
      SideGrows(s.bob.value, h.sharedSecret, h.keys, h.bobPosition, [s.unused]);
      h' := h.(keys := h.keys + [s.unused], alicePosition := h.alicePosition + 2);
    }
  }

  lemma StepKeepsInv(c: Config, s: System, h: History, e: Event) returns (h': History)
    requires Inv(c, s, h)
    ensures Inv(c, Step(c, s, e), h')
    ensures Extends(s, h, h')
  {
    hide LogOk, SideOk, KeysOk, AcceptedOk, Decrypted, RespondedSecret;
    h' := h;
    if Started(c, s, h) {
      match e {
        case AliceSends(plaintext, withBundle, storage) => h' := AliceSending(c, s, h, plaintext, withBundle, storage);
        case BobSends(plaintext, storage) => h' := BobSending(c, s, h, plaintext, storage);
        case ToBob(i, _, _, _) => if i < |s.fromAlice| { h' := BobReceiving(c, s, h, e); }
        case ToAlice(i, _, _, _) => if i < |s.fromBob| { h' := AliceReceiving(c, s, h, e); }
      }
    } else if e.AliceSends? && e.withBundle && e.storage.Works() {
      h' := AliceStarts(c, s, e.plaintext, e.storage);
    } else {
      h' := History(ZeroKey, [], 0, 0, [], []);
    }
  }

  /** Every reachable state satisfies the invariant. */
  lemma {:induction false} RunsKeepInv(c: Config, events: seq<Event>) returns (h: History)
    ensures Inv(c, Run(c, events), h)
  {
    if events == [] {
      h := History(ZeroKey, [], 0, 0, [], []);
    } else {
      var h0 := RunsKeepInv(c, events[..|events| - 1]);
      h := StepKeepsInv(c, Run(c, events[..|events| - 1]), h0, events[|events| - 1]);
    }
  }

  // Main results ------------------------------------------------------------------

  /** `e` succeeds exactly when `expected`, yields `plaintext`, and touches no stored session on failure. */
  predicate Behaves(c: Config, s: System, e: Event, expected: bool, plaintext: Plaintext)
    requires (e.ToBob? && e.index < |s.fromAlice|) || (e.ToAlice? && e.index < |s.fromBob|)
  {
    && (Delivered(s, e).Ok? <==> expected)
    && (Delivered(s, e).Ok? ==> Delivered(s, e).value.1 == plaintext)
    && (Delivered(s, e).Err? ==> Step(c, s, e).bob == s.bob && Step(c, s, e).alice == s.alice)
  }

  /**
    In every run, in which the database may fail at any call, a message from
    Alice decrypts at Bob exactly when his database works and it was sent after
    every message he already accepted (and, for the first one, exactly when he
    holds the X3DH secret); it then yields what Alice sealed. On failure the
    stored sessions stay as they are.
   */
  lemma BobAcceptanceRule(c: Config, events: seq<Event>, e: Event)
    requires e.ToBob? && e.index < |Run(c, events).fromAlice|
    ensures var s := Run(c, events);
            Behaves(c, s, e,
                    e.storage.Works() && BobCanOpen(c, s, e.ratchetKey, e.sharedSecret) && LaterThanAll(s.acceptedByBob, e.index),
                    s.fromAlice[e.index].plaintext)
  {
    hide LogOk, SideOk, KeysOk, AcceptedOk, Encrypted, Decrypted, RespondedSecret;
    var h := RunsKeepInv(c, events);
    BobOpens(c, Run(c, events), h, e);
  }

  /** The same rule for messages from Bob to Alice, who always has a session by then. */
  lemma AliceAcceptanceRule(c: Config, events: seq<Event>, e: Event)
    requires e.ToAlice? && e.index < |Run(c, events).fromBob|
    ensures var s := Run(c, events);
            Behaves(c, s, e, e.storage.Works() && LaterThanAll(s.acceptedByAlice, e.index), s.fromBob[e.index].plaintext)
  {
    hide LogOk, SideOk, KeysOk, AcceptedOk, Encrypted, Decrypted, RespondedSecret;
    var h := RunsKeepInv(c, events);
    AliceOpens(c, Run(c, events), h, e);
  }

  /** All ciphertexts of a conversation, Alice's first. */
  function Ciphertexts(s: System): (r: seq<Sealed>)
    ensures |r| == |s.fromAlice| + |s.fromBob|
  {
    seq(|s.fromAlice| + |s.fromBob|, i requires 0 <= i < |s.fromAlice| + |s.fromBob| =>
      if i < |s.fromAlice| then s.fromAlice[i].message.ciphertext
      else s.fromBob[i - |s.fromAlice|].message.ciphertext)
  }

  lemma KeyIdentifiesMessage(ss: Term, keys: seq<Secret>, unused: Secret, chain: nat, number: nat, chain': nat, number': nat)
    requires KeysOk(keys, unused) && 1 <= chain < |keys| && 1 <= chain' < |keys|
    requires MessageKey(Advance(Chain(ss, keys, chain), number)) == MessageKey(Advance(Chain(ss, keys, chain'), number'))
    ensures chain == chain' && number == number'
  {}

  lemma DistinctKeys(ss: Term, keys: seq<Secret>, unused: Secret, a: Sent, chain: nat, b: Sent, chain': nat)
    requires KeysOk(keys, unused) && SentOn(a, ss, keys, chain) && SentOn(b, ss, keys, chain')
    requires chain != chain' || a.message.header.messageNumber != b.message.header.messageNumber
    ensures a.message.ciphertext.key != b.message.ciphertext.key
  {
    if a.message.ciphertext.key == b.message.ciphertext.key {
      KeyIdentifiesMessage(ss, keys, unused, chain, a.message.header.messageNumber, chain', b.message.header.messageNumber);
    }
  }

  lemma OneLogDistinct(log: seq<Sent>, chains: seq<nat>, h: History, unused: Secret, position: nat, sendCount: nat, i: nat, j: nat)
    requires KeysOk(h.keys, unused) && LogOk(log, chains, h.sharedSecret, h.keys, position, sendCount) && i < j < |log|
    ensures log[i].message.ciphertext.key != log[j].message.ciphertext.key
  {
    DistinctKeys(h.sharedSecret, h.keys, unused, log[i], chains[i], log[j], chains[j]);
  }

  lemma TwoLogsDistinct(log: seq<Sent>, chains: seq<nat>, position: nat, sendCount: nat, i: nat,
                        log': seq<Sent>, chains': seq<nat>, position': nat, sendCount': nat, j: nat, h: History, unused: Secret)
    requires KeysOk(h.keys, unused) && position % 2 != position' % 2
    requires LogOk(log, chains, h.sharedSecret, h.keys, position, sendCount) && i < |log|
    requires LogOk(log', chains', h.sharedSecret, h.keys, position', sendCount') && j < |log'|
    ensures log[i].message.ciphertext.key != log'[j].message.ciphertext.key
  {
    assert chains[i] % 2 == position % 2 && chains'[j] % 2 == position' % 2;
    DistinctKeys(h.sharedSecret, h.keys, unused, log[i], chains[i], log'[j], chains'[j]);
  }

  lemma LogKeysDistinct(c: Config, s: System, h: History, i: nat, j: nat)
    requires Started(c, s, h) && i < j < |Ciphertexts(s)|
    ensures Ciphertexts(s)[i].key != Ciphertexts(s)[j].key
  {
    hide LogOk, SideOk, KeysOk, AcceptedOk;
    var n := |s.fromAlice|;
    var sendCount := if s.bob.Some? then s.bob.value.sendCount else 0;
    if j < n {
      OneLogDistinct(s.fromAlice, h.aliceChains, h, s.unused, h.alicePosition, s.alice.value.sendCount, i, j);
    } else if i < n {
      TwoLogsDistinct(s.fromAlice, h.aliceChains, h.alicePosition, s.alice.value.sendCount, i,
                      s.fromBob, h.bobChains, h.bobPosition, sendCount, j - n, h, s.unused);
    } else {
      OneLogDistinct(s.fromBob, h.bobChains, h, s.unused, h.bobPosition, sendCount, i - n, j - n);
    }
  }

  /** Over both directions, all reloads and all database failures, no two messages handed out share a message key. */
  lemma MessageKeysNeverRepeat(c: Config, events: seq<Event>, i: nat, j: nat)
    requires i < j < |Ciphertexts(Run(c, events))|
    ensures Ciphertexts(Run(c, events))[i].key != Ciphertexts(Run(c, events))[j].key
  {
    var h := RunsKeepInv(c, events);
    LogKeysDistinct(c, Run(c, events), h, i, j);
  }

  lemma SentOffZeroChain(sent: Sent, ss: Term, keys: seq<Secret>, chain: nat, n: nat)
    requires SentOn(sent, ss, keys, chain)
    ensures sent.message.ciphertext.key != MessageKey(Advance(ZeroKey, n))
  {
    var key := Advance(Chain(ss, keys, chain), sent.message.header.messageNumber);
    AdvanceNeverZero(Chain(ss, keys, chain), sent.message.header.messageNumber, n);
    assert [key][0] != [Advance(ZeroKey, n)][0];
  }

  lemma LogOffZeroChain(log: seq<Sent>, chains: seq<nat>, h: History, position: nat, sendCount: nat, n: nat)
    requires LogOk(log, chains, h.sharedSecret, h.keys, position, sendCount)
    ensures forall i | 0 <= i < |log| :: log[i].message.ciphertext.key != MessageKey(Advance(ZeroKey, n))
  {
    forall i | 0 <= i < |log|
      ensures log[i].message.ciphertext.key != MessageKey(Advance(ZeroKey, n))
    {
      SentOffZeroChain(log[i], h.sharedSecret, h.keys, chains[i], n);
    }
  }

  /** No message handed out is sealed on the all-zero chain a fresh state starts with. */
  lemma NeverOnZeroChain(c: Config, events: seq<Event>, i: nat, n: nat)
    requires i < |Ciphertexts(Run(c, events))|
    ensures Ciphertexts(Run(c, events))[i].key != MessageKey(Advance(ZeroKey, n))
  {
    hide LogOk, SideOk, KeysOk, AcceptedOk, RespondedSecret;
    var s := Run(c, events);
    var h := RunsKeepInv(c, events);
    LogOffZeroChain(s.fromAlice, h.aliceChains, h, h.alicePosition, s.alice.value.sendCount, n);
    LogOffZeroChain(s.fromBob, h.bobChains, h, h.bobPosition, if s.bob.Some? then s.bob.value.sendCount else 0, n);
  }

  lemma RootsAdjacent(a: Row, b: Row, ss: Term, keys: seq<Secret>, position: nat)
    requires SideOk(a, ss, keys, position) && SideOk(b, ss, keys, position + 1)
    ensures b.rootKey == NextRoot(a.rootKey, DiffieHellman(a.sendSecret, PublicKey(b.sendSecret)))
  {}

  /** Once both sides have a session, their root keys are exactly one DH step apart. */
  lemma RootsOneStepApart(c: Config, events: seq<Event>)
    requires Run(c, events).alice.Some? && Run(c, events).bob.Some?
    ensures var a, b := Run(c, events).alice.value, Run(c, events).bob.value;
            var dh := DiffieHellman(a.sendSecret, PublicKey(b.sendSecret));
            a.rootKey == NextRoot(b.rootKey, dh) || b.rootKey == NextRoot(a.rootKey, dh)
  {
    hide LogOk, SideOk, KeysOk, AcceptedOk, RespondedSecret, Run;
    var h := RunsKeepInv(c, events);
    var a, b := Run(c, events).alice.value, Run(c, events).bob.value;
    DiffieHellmanCommutes(a.sendSecret, b.sendSecret);
    if h.alicePosition < h.bobPosition {
      RootsAdjacent(a, b, h.sharedSecret, h.keys, h.alicePosition);
    } else {
      RootsAdjacent(b, a, h.sharedSecret, h.keys, h.bobPosition);
    }
  }
}
