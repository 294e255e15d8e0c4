/** What the key derivations keep apart, and when a stored root key moves. */
module RatchetKeys {
  import opened Wrappers
  import opened SymbolicCrypto
  import opened X3dh
  import opened Ratchet
  import opened Session
  import opened Conversation
  import opened Attempts

  // Key derivation -------------------------------------------------------------------

  /** Each derivation depends on all of its inputs, and no two of them ever give the same key. */
  lemma DerivationsBind(root: Term, dh: Term, root': Term, dh': Term, chain: Term, chain': Term)
    ensures NextRoot(root, dh) == NextRoot(root', dh') <==> root == root' && dh == dh'
    ensures NewChain(root, dh) == NewChain(root', dh') <==> root == root' && dh == dh'
    ensures NextChain(chain) == NextChain(chain') <==> chain == chain'
    ensures MessageKey(chain) == MessageKey(chain') <==> chain == chain'
    ensures NextRoot(root, dh) != NewChain(root', dh') && NextChain(chain) != MessageKey(chain')
    ensures NextRoot(root, dh) != NextChain(chain) && NextRoot(root, dh) != MessageKey(chain)
    ensures NewChain(root, dh) != NextChain(chain) && NewChain(root, dh) != MessageKey(chain)
    ensures ZeroKey !in {NextRoot(root, dh), NewChain(root, dh), NextChain(chain), MessageKey(chain)}
  {
    var a, b := [root, dh], [root', dh'];
    assert a == b <==> a[0] == b[0] && a[1] == b[1];
    assert [chain] == [chain'] <==> [chain][0] == [chain'][0];
    assert |[root, dh]| == 2 && |[chain]| == 1;
  }

  /** An X3DH secret depends on every key pair that goes into it. */
  lemma SecretBindsKeys(i: Secret, e: Secret, b: PrekeyBundle, i': Secret, e': Secret, b': PrekeyBundle)
    requires SharedSecret(i, e, b) == SharedSecret(i', e', b')
    ensures DiffieHellman(i, b.signedPrekey) == DiffieHellman(i', b'.signedPrekey)
    ensures DiffieHellman(e, b.identityX25519) == DiffieHellman(e', b'.identityX25519)
    ensures DiffieHellman(e, b.signedPrekey) == DiffieHellman(e', b'.signedPrekey)
    ensures b.oneTimePrekey.Some? == b'.oneTimePrekey.Some?
    ensures b.oneTimePrekey.Some? ==> DiffieHellman(e, b.oneTimePrekey.value) == DiffieHellman(e', b'.oneTimePrekey.value)
  {
    var s, s' := SharedSecret(i, e, b).ikm, SharedSecret(i', e', b').ikm;
    assert s[0] == s'[0] && s[1] == s'[1] && s[2] == s'[2] && |s| == |s'|;
    assert |s| == 4 ==> s[3] == s'[3];
  }

  /** The initial message names the sender's identity and ephemeral keys and the prekeys it used. */
  lemma HeaderNamesKeys(identity: Secret, ephemeral: Secret, b: PrekeyBundle)
    ensures HeaderFor(identity, ephemeral, b)
            == InitialMessage(PublicKey(identity), PublicKey(ephemeral), b.signedPrekey, b.oneTimePrekey)
  {}

  // Roots -----------------------------------------------------------------------------

  /** How many root steps a key has behind it. */
  function Steps(t: Term): nat {
    if t.Derived? && t.info == RatchetInfo && |t.ikm| == 2 then 1 + Steps(t.ikm[0]) else 0
  }

  lemma {:induction false} RootSteps(ss: Term, keys: seq<Secret>, i: nat)
    requires i < |keys|
    ensures Steps(Root(ss, keys, i)) == Steps(ss) + i
    decreases i
  {
    if i > 0 { RootSteps(ss, keys, i - 1); }
  }

  /** Equal roots of one X3DH secret are equally far on and took the same Diffie-Hellman outputs on the way. */
  lemma {:induction false} RootsRemember(ss: Term, keys: seq<Secret>, keys': seq<Secret>, i: nat, j: nat)
    requires i < |keys| && j < |keys'| && Root(ss, keys, i) == Root(ss, keys', j)
    ensures i == j
    ensures forall m | 1 <= m <= i ::
              DiffieHellman(keys[m - 1], PublicKey(keys[m])) == DiffieHellman(keys'[m - 1], PublicKey(keys'[m]))
    decreases i
  {
    hide Steps, DiffieHellman;
    RootSteps(ss, keys, i);
    RootSteps(ss, keys', j);
    if i > 0 {
      var r, r' := Root(ss, keys, i).ikm, Root(ss, keys', j).ikm;
      assert r[0] == r'[0] && r[1] == r'[1];
      RootsRemember(ss, keys, keys', i - 1, j - 1);
    }
  }

  // Stored roots over runs --------------------------------------------------------------

  /** Once both sides have a session their roots differ. */
  lemma RootsDiffer(c: Config, events: seq<Event>)
    requires Run(c, events).alice.Some? && Run(c, events).bob.Some?
    ensures Run(c, events).alice.value.rootKey != Run(c, events).bob.value.rootKey
  {
    hide LogOk, KeysOk, AcceptedOk, RespondedSecret, Run;
    var h := RunsKeepInv(c, events);
    RootSteps(h.sharedSecret, h.keys, h.alicePosition);
    RootSteps(h.sharedSecret, h.keys, h.bobPosition);
  }

  lemma StepMovesRoot(c: Config, s: System, e: Event, side: Side)
    requires RowOf(s, side).Some? && RowOf(s, side).value.sendSecret < s.unused
    ensures RowOf(Step(c, s, e), side).Some?
    ensures var row, row' := RowOf(s, side).value, RowOf(Step(c, s, e), side).value;
            if AcceptsNewChain(s, e, side) then row.sendSecret < row'.sendSecret
            else row.sendSecret == row'.sendSecret && row.rootKey == row'.rootKey
  {}

  ghost predicate NoNewChain(c: Config, events: seq<Event>, i: nat, j: nat, side: Side)
    requires i <= j <= |events|
  {
    forall k | i <= k < j :: !AcceptsNewChain(Run(c, events[..k]), events[k], side)
  }

  lemma NoNewChainStep(c: Config, events: seq<Event>, i: nat, j: nat, side: Side)
    requires i <= j <= |events|
    ensures i == j ==> NoNewChain(c, events, i, j, side)
    ensures i < j ==> (NoNewChain(c, events, i, j, side) <==>
                       NoNewChain(c, events, i, j - 1, side) && !AcceptsNewChain(Run(c, events[..j - 1]), events[j - 1], side))
  {
    hide Run, AcceptsNewChain;
  }

  lemma {:induction false} RunMovesRoot(c: Config, events: seq<Event>, i: nat, j: nat, side: Side)
    requires i <= j <= |events| && RowOf(Run(c, events[..i]), side).Some?
    ensures RowOf(Run(c, events[..j]), side).Some?
    ensures var row, row' := RowOf(Run(c, events[..i]), side).value, RowOf(Run(c, events[..j]), side).value;
            if NoNewChain(c, events, i, j, side) then row.sendSecret == row'.sendSecret && row.rootKey == row'.rootKey
            else row.sendSecret < row'.sendSecret
    decreases j
  {
    hide Run, Step, AcceptsNewChain, Inv, Started, RowOf, NoNewChain;
    NoNewChainStep(c, events, i, j, side);
    if i < j {
      RunMovesRoot(c, events, i, j - 1, side);
      RunStep(c, events, j);
      var h := RunsKeepInv(c, events[..j - 1]);
      SecretIsUsed(c, Run(c, events[..j - 1]), h, side);
      StepMovesRoot(c, Run(c, events[..j - 1]), events[j - 1], side);
    }
  }

  lemma RootOnSchedule(c: Config, s: System, h: History, side: Side)
    requires Inv(c, s, h) && RowOf(s, side).Some?
    ensures s.alice.Some? && 1 <= Position(h, side) < |h.keys|
    ensures RowOf(s, side).value.rootKey == Root(h.sharedSecret, h.keys, Position(h, side))
    ensures RowOf(s, side).value.sendSecret == h.keys[Position(h, side)]
  {
    hide LogOk, KeysOk, AcceptedOk, RespondedSecret;
  }

  /**
    Over every run a side's stored root stays the same exactly while it accepts
    nothing on a new chain; no root ever comes back.
   */
  lemma RootMovesExactly(c: Config, events: seq<Event>, i: nat, j: nat, side: Side)
    requires i <= j <= |events| && RowOf(Run(c, events[..i]), side).Some?
    ensures RowOf(Run(c, events[..j]), side).Some?
    ensures RowOf(Run(c, events[..i]), side).value.rootKey == RowOf(Run(c, events[..j]), side).value.rootKey
            <==> NoNewChain(c, events, i, j, side)
  {
    hide Run, Inv, NoNewChain, RowOf;
    RunMovesRoot(c, events, i, j, side);
    var h, h' := HistoryGrows(c, events, i, j);
    RootOnSchedule(c, Run(c, events[..i]), h, side);
    RootOnSchedule(c, Run(c, events[..j]), h', side);
    var p, p' := Position(h, side), Position(h', side);
    RootSteps(h.sharedSecret, h.keys, p);
    RootSteps(h'.sharedSecret, h'.keys, p');
  }

  /** No stored root is the X3DH secret the conversation started from. */
  lemma RootsLeaveSecret(c: Config, events: seq<Event>, side: Side)
    requires RowOf(Run(c, events), side).Some?
    ensures var s := Run(c, events);
            && s.fromAlice != [] && s.fromAlice[0].message.x3dhHeader.Some?
            && RespondedSecret(c.bob, c.bobPrekey, c.bobOneTime, s.fromAlice[0].message.x3dhHeader.value)
               != Ok(RowOf(s, side).value.rootKey)
  {
    hide LogOk, KeysOk, AcceptedOk, RespondedSecret, Run, SideOk;
    var h := RunsKeepInv(c, events);
    RootOnSchedule(c, Run(c, events), h, side);
    RootSteps(h.sharedSecret, h.keys, Position(h, side));
  }
}
