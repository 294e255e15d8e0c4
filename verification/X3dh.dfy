/** X3DH key agreement (crates/ephemera-message/src/x3dh.rs). */
module X3dh {
  import opened Wrappers
  import opened SymbolicCrypto

  datatype PrekeyBundle = PrekeyBundle(
    identityX25519: PublicKey,
    signedPrekey: PublicKey,
    oneTimePrekey: Option<PublicKey>)

  datatype InitialMessage = InitialMessage(
    identityX25519: PublicKey,
    ephemeralKey: PublicKey,
    signedPrekeyUsed: PublicKey,
    oneTimePrekeyUsed: Option<PublicKey>)

  datatype X3dhError = MissingOneTimeSecret

  /** The HKDF input of the exchange: three or four Diffie-Hellman outputs. */
  function SharedSecret(identity: Secret, ephemeral: Secret, bundle: PrekeyBundle): Term {
    Derived(
      [DiffieHellman(identity, bundle.signedPrekey),
       DiffieHellman(ephemeral, bundle.identityX25519),
       DiffieHellman(ephemeral, bundle.signedPrekey)]
      + (match bundle.oneTimePrekey
         case Some(otpk) => [DiffieHellman(ephemeral, otpk)]
         case None => []),
      X3dhInfo)
  }

  function HeaderFor(identity: Secret, ephemeral: Secret, bundle: PrekeyBundle): InitialMessage {
    InitialMessage(PublicKey(identity), PublicKey(ephemeral), bundle.signedPrekey, bundle.oneTimePrekey)
  }

  /** The secret the responder derives; no matching one-time secret is an error. */
  function RespondedSecret(identity: Secret, signedPrekey: Secret, oneTime: Option<Secret>, msg: InitialMessage)
    : Result<Term, X3dhError>
  {
    var three := [DiffieHellman(signedPrekey, msg.identityX25519),
                  DiffieHellman(identity, msg.ephemeralKey),
                  DiffieHellman(signedPrekey, msg.ephemeralKey)];
    if msg.oneTimePrekeyUsed.None? then
      Ok(Derived(three, X3dhInfo))
    else if oneTime.None? then
      Err(MissingOneTimeSecret)
    else
      Ok(Derived(three + [DiffieHellman(oneTime.value, msg.ephemeralKey)], X3dhInfo))
  }

  /** The bundle a responder publishes for its three secrets. */
  function BundleOf(identity: Secret, signedPrekey: Secret, oneTime: Option<Secret>): PrekeyBundle {
    PrekeyBundle(PublicKey(identity), PublicKey(signedPrekey),
                 match oneTime case Some(s) => Some(PublicKey(s)) case None => None)
  }

  /** Both sides derive the same secret, with or without a one-time prekey. */
  lemma AgreementHolds(initiator: Secret, ephemeral: Secret, identity: Secret, signedPrekey: Secret, oneTime: Option<Secret>)
    ensures var bundle := BundleOf(identity, signedPrekey, oneTime);
            RespondedSecret(identity, signedPrekey, oneTime, HeaderFor(initiator, ephemeral, bundle))
            == Ok(SharedSecret(initiator, ephemeral, bundle))
  {
    var bundle := BundleOf(identity, signedPrekey, oneTime);
    var three := [DiffieHellman(initiator, bundle.signedPrekey),
                  DiffieHellman(ephemeral, bundle.identityX25519),
                  DiffieHellman(ephemeral, bundle.signedPrekey)];
    assert three + [] == three;
  }

  /** Responding fails exactly when a one-time prekey was used and its secret is missing. */
  lemma RespondFailsExactly(identity: Secret, signedPrekey: Secret, oneTime: Option<Secret>, msg: InitialMessage)
    ensures RespondedSecret(identity, signedPrekey, oneTime, msg).Err? <==> msg.oneTimePrekeyUsed.Some? && oneTime.None?
  {}

  /** Both sides agree exactly when the responder uses the secrets of the bundle the initiator took. */
  lemma AgreementNeedsSecrets(initiator: Secret, ephemeral: Secret, bundle: PrekeyBundle,
                              identity: Secret, signedPrekey: Secret, oneTime: Option<Secret>)
    ensures RespondedSecret(identity, signedPrekey, oneTime, HeaderFor(initiator, ephemeral, bundle))
            == Ok(SharedSecret(initiator, ephemeral, bundle))
            <==> && PublicKey(identity) == bundle.identityX25519 && PublicKey(signedPrekey) == bundle.signedPrekey
                 && (bundle.oneTimePrekey.Some? ==> oneTime.Some? && Some(PublicKey(oneTime.value)) == bundle.oneTimePrekey)
  {
    var got, want := RespondedSecret(identity, signedPrekey, oneTime, HeaderFor(initiator, ephemeral, bundle)),
                     SharedSecret(initiator, ephemeral, bundle);
    if got.Ok? {
      var g, w := got.value.ikm, want.ikm;
      assert g == w <==> g[0] == w[0] && g[1] == w[1] && g[2] == w[2] && (|w| == 4 ==> g[3] == w[3]);
    }
  }

  method Initiate(identity: Secret, bundle: PrekeyBundle, ephemeral: Secret)
    returns (sharedSecret: Term, msg: InitialMessage)
    ensures sharedSecret == SharedSecret(identity, ephemeral, bundle)
    ensures msg == HeaderFor(identity, ephemeral, bundle)
  {
    var dhConcat := [DiffieHellman(identity, bundle.signedPrekey)];
    dhConcat := dhConcat + [DiffieHellman(ephemeral, bundle.identityX25519)];
    dhConcat := dhConcat + [DiffieHellman(ephemeral, bundle.signedPrekey)];
    var used := None;
    match bundle.oneTimePrekey {
      case Some(otpk) =>
        dhConcat := dhConcat + [DiffieHellman(ephemeral, otpk)];
        used := Some(otpk);
      case None =>
    }
    sharedSecret := Derived(dhConcat, X3dhInfo);
    msg := InitialMessage(PublicKey(identity), PublicKey(ephemeral), bundle.signedPrekey, used);
  }

  method Respond(identity: Secret, signedPrekey: Secret, oneTime: Option<Secret>, msg: InitialMessage)
    returns (r: Result<Term, X3dhError>)
    ensures r == RespondedSecret(identity, signedPrekey, oneTime, msg)
  {
    var dhConcat := [DiffieHellman(signedPrekey, msg.identityX25519)];
    dhConcat := dhConcat + [DiffieHellman(identity, msg.ephemeralKey)];
    dhConcat := dhConcat + [DiffieHellman(signedPrekey, msg.ephemeralKey)];
    assert dhConcat == [DiffieHellman(signedPrekey, msg.identityX25519),
                        DiffieHellman(identity, msg.ephemeralKey),
                        DiffieHellman(signedPrekey, msg.ephemeralKey)];
    if msg.oneTimePrekeyUsed.Some? {
      if oneTime.None? {
        return Err(MissingOneTimeSecret);
      }
      dhConcat := dhConcat + [DiffieHellman(oneTime.value, msg.ephemeralKey)];
    }
    r := Ok(Derived(dhConcat, X3dhInfo));
  }
}
