/** How the messages of a conversation are numbered. */
module MessageNumbers {
  import opened Wrappers
  import opened SymbolicCrypto
  import opened Ratchet
  import opened Session
  import opened Conversation
  import opened Attempts

  function LogOf(s: System, side: Side): seq<Sent> { if side.Alice? then s.fromAlice else s.fromBob }

  /** How many messages of a log were sent under a ratchet key. */
  function CountUnder(log: seq<Sent>, key: PublicKey): nat {
    if log == [] then 0
    else
      var last := log[|log| - 1].message.header.ratchetKey;
      CountUnder(log[..|log| - 1], key) + if last == key then 1 else 0
  }

  /** The ratchet secrets a side has sent under, or could have, in order. */
  function Secrets(c: Config, events: seq<Event>, side: Side): seq<Secret> {
    if events == [] then []
    else
      var shorter := events[..|events| - 1];
      Newest(Secrets(c, shorter, side), RowOf(Run(c, shorter), side), RowOf(Run(c, events), side))
  }

  function Newest(secrets: seq<Secret>, before: Option<Row>, after: Option<Row>): seq<Secret> {
    if after.Some? && (before.None? || before.value.sendSecret != after.value.sendSecret)
    then secrets + [after.value.sendSecret]
    else secrets
  }

  /** Length of the chain before chain `m`; the first chain has none before it. */
  function LengthBefore(log: seq<Sent>, secrets: seq<Secret>, m: nat): nat
    requires m < |secrets|
  {
    if m == 0 then 0 else CountUnder(log, PublicKey(secrets[m - 1]))
  }

  /** Message `i` is the next one under its key, and names the length of the sender's chain before. */
  ghost predicate NumberedAt(log: seq<Sent>, secrets: seq<Secret>, i: nat, m: nat)
    requires i < |log| && m < |secrets|
  {
    var header := log[i].message.header;
    && header.ratchetKey == PublicKey(secrets[m])
    && header.messageNumber == CountUnder(log[..i], header.ratchetKey)
    && header.previousChainLength == LengthBefore(log, secrets, m)
  }

  ghost predicate Numbered(log: seq<Sent>, secrets: seq<Secret>, i: nat)
    requires i < |log|
  {
    exists m | 0 <= m < |secrets| :: NumberedAt(log, secrets, i, m)
  }

  ghost predicate AllNumbered(log: seq<Sent>, secrets: seq<Secret>) {
    forall i | 0 <= i < |log| :: Numbered(log, secrets, i)
  }

  ghost predicate Increasing(secrets: seq<Secret>, unused: Secret) {
    && (forall i, j | 0 <= i < j < |secrets| :: secrets[i] < secrets[j])
    && forall i | 0 <= i < |secrets| :: secrets[i] < unused
  }

  /** A session counts the messages of its chain and remembers the length of the one before. */
  ghost predicate Counted(row: Option<Row>, log: seq<Sent>, secrets: seq<Secret>) {
    if row.None? then secrets == [] && log == []
    else
      && secrets != [] && secrets[|secrets| - 1] == row.value.sendSecret
      && row.value.sendCount == CountUnder(log, PublicKey(row.value.sendSecret))
      && row.value.previousSendCount == LengthBefore(log, secrets, |secrets| - 1)
  }

  // What one event does to a side --------------------------------------------------------

  ghost predicate Idle(row: Option<Row>, row': Option<Row>, log: seq<Sent>, log': seq<Sent>) {
    && log' == log && row.Some? == row'.Some?
    && (row.Some? ==> row'.value.sendSecret == row.value.sendSecret && row'.value.sendCount == row.value.sendCount
                      && row'.value.previousSendCount == row.value.previousSendCount)
  }

  /** A message is sent under the current key, after a session was started if there was none. */
  ghost predicate SendsOne(row: Option<Row>, row': Option<Row>, log: seq<Sent>, log': seq<Sent>, unused: Secret) {
    && |log'| == |log| + 1 && log'[..|log|] == log && row'.Some?
    && var header := log'[|log|].message.header;
       && header.ratchetKey == PublicKey(row'.value.sendSecret)
       && header.messageNumber + 1 == row'.value.sendCount && header.previousChainLength == row'.value.previousSendCount
       && (if row.Some? then row'.value.sendSecret == row.value.sendSecret && header.messageNumber == row.value.sendCount
                             && row'.value.previousSendCount == row.value.previousSendCount
           else row'.value.sendSecret >= unused && header.messageNumber == 0 && row'.value.previousSendCount == 0)
  }

  /** A new chain is started, which closes the one before. */
  ghost predicate OpensChain(row: Option<Row>, row': Option<Row>, log: seq<Sent>, log': seq<Sent>, unused: Secret) {
    && log' == log && row'.Some? && row'.value.sendSecret >= unused && row'.value.sendCount == 0
    && row'.value.previousSendCount == if row.Some? then row.value.sendCount else 0
  }

  lemma StepKinds(c: Config, s: System, e: Event, side: Side)
    ensures var s' := Step(c, s, e);
            var row, row', log, log' := RowOf(s, side), RowOf(s', side), LogOf(s, side), LogOf(s', side);
            Idle(row, row', log, log') || SendsOne(row, row', log, log', s.unused) || OpensChain(row, row', log, log', s.unused)
  {}

  // Counting ------------------------------------------------------------------------------

  lemma CountOne(log: seq<Sent>, sent: Sent, key: PublicKey)
    ensures CountUnder(log + [sent], key) == CountUnder(log, key) + if sent.message.header.ratchetKey == key then 1 else 0
  {
    assert (log + [sent])[..|log|] == log;
  }

  lemma {:induction false} UnusedIsUncounted(log: seq<Sent>, secrets: seq<Secret>, secret: Secret)
    requires AllNumbered(log, secrets) && secret !in secrets
    ensures CountUnder(log, PublicKey(secret)) == 0
  {
    UncountedPrefix(log, secrets, secret, |log|);
    assert log[..|log|] == log;
  }

  lemma {:induction false} UncountedPrefix(log: seq<Sent>, secrets: seq<Secret>, secret: Secret, n: nat)
    requires AllNumbered(log, secrets) && secret !in secrets && n <= |log|
    ensures CountUnder(log[..n], PublicKey(secret)) == 0
    decreases n
  {
    if n > 0 {
      UncountedPrefix(log, secrets, secret, n - 1);
      assert log[..n] == log[..n - 1] + [log[n - 1]];
      CountOne(log[..n - 1], log[n - 1], PublicKey(secret));
      assert Numbered(log, secrets, n - 1);
    }
  }

  /** Another secret leaves the numbers as they are. */
  lemma SecretKeepsNumbers(log: seq<Sent>, secrets: seq<Secret>, secret: Secret)
    requires AllNumbered(log, secrets)
    ensures AllNumbered(log, secrets + [secret])
  {
    var more := secrets + [secret];
    forall i | 0 <= i < |log|
      ensures Numbered(log, more, i)
    {
      assert Numbered(log, secrets, i);
      var m :| 0 <= m < |secrets| && NumberedAt(log, secrets, i, m);
      assert NumberedAt(log, more, i, m);
    }
  }

  /** A message under the last secret is numbered and changes no earlier number. */
  lemma SendKeepsNumbers(log: seq<Sent>, secrets: seq<Secret>, unused: Secret, sent: Sent)
    requires AllNumbered(log, secrets) && Increasing(secrets, unused) && secrets != []
    requires var header := sent.message.header;
             && header.ratchetKey == PublicKey(secrets[|secrets| - 1])
             && header.messageNumber == CountUnder(log, header.ratchetKey)
             && header.previousChainLength == LengthBefore(log, secrets, |secrets| - 1)
    ensures AllNumbered(log + [sent], secrets)
    ensures LengthBefore(log + [sent], secrets, |secrets| - 1) == LengthBefore(log, secrets, |secrets| - 1)
  {
    var all, last := log + [sent], |secrets| - 1;
    forall m | 0 <= m < |secrets| ensures LengthBefore(all, secrets, m) == LengthBefore(log, secrets, m) {
      if m > 0 { CountOne(log, sent, PublicKey(secrets[m - 1])); }
    }
    forall i | 0 <= i < |all|
      ensures Numbered(all, secrets, i)
    {
      if i < |log| {
        assert Numbered(log, secrets, i);
        var m :| 0 <= m < |secrets| && NumberedAt(log, secrets, i, m);
        assert all[..i] == log[..i];
        assert NumberedAt(all, secrets, i, m);
      } else {
        assert all[..i] == log;
        assert NumberedAt(all, secrets, i, last);
      }
    }
  }

  // Runs ------------------------------------------------------------------------------------

  ghost predicate Good(row: Option<Row>, log: seq<Sent>, secrets: seq<Secret>, unused: Secret) {
    AllNumbered(log, secrets) && Increasing(secrets, unused) && Counted(row, log, secrets)
  }

  lemma SendStaysGood(row: Option<Row>, row': Option<Row>, log: seq<Sent>, log': seq<Sent>,
                      secrets: seq<Secret>, unused: Secret, unused': Secret)
    requires Good(row, log, secrets, unused) && SendsOne(row, row', log, log', unused)
    requires unused <= unused' && row'.value.sendSecret < unused'
    ensures Good(row', log', Newest(secrets, row, row'), unused')
  {
    var secrets' := Newest(secrets, row, row');
    var sent := log'[|log|];
    assert log' == log + [sent];
    assert Increasing(secrets', unused');
    if row.None? {
      assert secrets' == [row'.value.sendSecret];
    }
    assert AllNumbered(log, secrets');
    SendKeepsNumbers(log, secrets', unused', sent);
    CountOne(log, sent, PublicKey(row'.value.sendSecret));
  }

  lemma ChainStaysGood(row: Option<Row>, row': Option<Row>, log: seq<Sent>, secrets: seq<Secret>, unused: Secret, unused': Secret)
    requires Good(row, log, secrets, unused) && OpensChain(row, row', log, log, unused)
    requires unused <= unused' && row'.value.sendSecret < unused'
    ensures Good(row', log, Newest(secrets, row, row'), unused')
  {
    var secret := row'.value.sendSecret;
    assert row.Some? ==> row.value.sendSecret < unused;
    assert Newest(secrets, row, row') == secrets + [secret];
    SecretKeepsNumbers(log, secrets, secret);
    UnusedIsUncounted(log, secrets, secret);
  }

  lemma SecretsAreFresh(c: Config, s: System, e: Event, side: Side)
    requires RowOf(s, side).Some? ==> RowOf(s, side).value.sendSecret < s.unused
    ensures RowOf(Step(c, s, e), side).Some? ==> RowOf(Step(c, s, e), side).value.sendSecret < Step(c, s, e).unused
    ensures s.unused <= Step(c, s, e).unused
  {}

  lemma {:induction false} RunsStayGood(c: Config, events: seq<Event>, side: Side)
    ensures var s := Run(c, events);
            Good(RowOf(s, side), LogOf(s, side), Secrets(c, events, side), s.unused)
    decreases |events|
  {
    hide Step, Good, Newest;
    if events == [] {
      NothingIsGood(Run(c, events).unused);
    } else {
      var shorter, e := events[..|events| - 1], events[|events| - 1];
      RunsStayGood(c, shorter, side);
      StepStaysGood(c, Run(c, shorter), e, side, Secrets(c, shorter, side));
    }
  }

  lemma NothingIsGood(unused: Secret)
    ensures Good(None, [], [], unused)
  {}

  lemma StepStaysGood(c: Config, s: System, e: Event, side: Side, secrets: seq<Secret>)
    requires Good(RowOf(s, side), LogOf(s, side), secrets, s.unused)
    ensures var s' := Step(c, s, e);
            Good(RowOf(s', side), LogOf(s', side), Newest(secrets, RowOf(s, side), RowOf(s', side)), s'.unused)
  {
    hide Step, AllNumbered;
    var s' := Step(c, s, e);
    var row, row', log, log' := RowOf(s, side), RowOf(s', side), LogOf(s, side), LogOf(s', side);
    StepKinds(c, s, e, side);
    SecretsAreFresh(c, s, e, side);
    if SendsOne(row, row', log, log', s.unused) {
      SendStaysGood(row, row', log, log', secrets, s.unused, s'.unused);
    } else if OpensChain(row, row', log, log', s.unused) {
      ChainStaysGood(row, row', log, secrets, s.unused, s'.unused);
    }
  }

  /**
    In every run each side's messages are numbered one by one under each of its
    ratchet keys, and each names how many it sent under the key before.
   */
  lemma MessagesAreNumbered(c: Config, events: seq<Event>, side: Side)
    ensures AllNumbered(LogOf(Run(c, events), side), Secrets(c, events, side))
    ensures Increasing(Secrets(c, events, side), Run(c, events).unused)
  {
    RunsStayGood(c, events, side);
  }
}
