/** Ratchet sessions backed by a table of rows (crates/ephemera-message/src/session.rs). */
module Session {
  import opened Wrappers
  import opened SymbolicCrypto
  import opened Ratchet
  import opened X3dh

  datatype SessionError = NoPrekeyBundle | NoSharedSecret | NoRatchetKey | DecryptionFailed | StorageFailed

  datatype EncryptedMessage = EncryptedMessage(
    header: MessageHeader,
    ciphertext: Sealed,
    x3dhHeader: Option<InitialMessage>)

  /** Secrets a call to `encrypt_for_peer` may draw from the random generator. */
  datatype Generated = Generated(ephemeral: Secret, ratchet: Secret)

  function LoadOrInitiate(stored: Option<Row>, ours: Secret, bundle: Option<PrekeyBundle>, generated: Generated)
    : Result<(Row, Option<InitialMessage>), SessionError>
  {
    match stored
    case Some(row) => Ok((row, None))
    case None =>
      match bundle
      case None => Err(NoPrekeyBundle)
      case Some(b) =>
        Ok((SenderRow(SharedSecret(ours, generated.ephemeral, b), b.signedPrekey, generated.ratchet),
            Some(HeaderFor(ours, generated.ephemeral, b))))
  }

  /** The row to store and the message to send. */
  function Encrypted(stored: Option<Row>, ours: Secret, bundle: Option<PrekeyBundle>, plaintext: Plaintext, generated: Generated)
    : Result<(Row, EncryptedMessage), SessionError>
  {
    match LoadOrInitiate(stored, ours, bundle, generated)
    case Err(e) => Err(e)
    case Ok((row, x3dh)) =>
      Ok((AfterEncrypt(row),
          EncryptedMessage(EncryptedHeader(row), Sealed(MessageKey(row.sendChainKey), plaintext), x3dh)))
  }

  function LoadOrRespond(stored: Option<Row>, ratchetKey: Option<Secret>, sharedSecret: Option<Term>)
    : Result<Row, SessionError>
  {
    match stored
    case Some(row) => Ok(row)
    case None =>
      if sharedSecret.None? then Err(NoSharedSecret)
      else if ratchetKey.None? then Err(NoRatchetKey)
      else Ok(ReceiverRow(sharedSecret.value, ratchetKey.value))
  }

  /** The row to store and the plaintext, or the error that leaves storage alone. */
  function Decrypted(stored: Option<Row>, ratchetKey: Option<Secret>, sharedSecret: Option<Term>,
                     header: MessageHeader, ciphertext: Sealed, generated: Secret)
    : Result<(Row, Plaintext), SessionError>
  {
    match LoadOrRespond(stored, ratchetKey, sharedSecret)
    case Err(e) => Err(e)
    case Ok(row) =>
      match Open(DecryptionKey(row, header, generated), ciphertext)
      case None => Err(DecryptionFailed)
      case Some(plaintext) => Ok((AfterDecrypt(row, header, generated), plaintext))
  }

  /** Which error a call gives; otherwise it succeeds. */
  lemma SessionErrors(stored: Option<Row>, ours: Secret, bundle: Option<PrekeyBundle>, plaintext: Plaintext, generated: Generated,
                      ratchetKey: Option<Secret>, sharedSecret: Option<Term>, header: MessageHeader, ciphertext: Sealed)
    ensures var sent := Encrypted(stored, ours, bundle, plaintext, generated);
            && (sent.Err? <==> stored.None? && bundle.None?) && (sent.Err? ==> sent.error == NoPrekeyBundle)
            && (sent.Ok? ==> (sent.value.1.x3dhHeader.Some? <==> stored.None?) && sent.value.1.ciphertext.plaintext == plaintext)
    ensures var got := Decrypted(stored, ratchetKey, sharedSecret, header, ciphertext, generated.ratchet);
            && (got == Err(NoSharedSecret) <==> stored.None? && sharedSecret.None?)
            && (got == Err(NoRatchetKey) <==> stored.None? && sharedSecret.Some? && ratchetKey.None?)
            && (got.Ok? ==> got.value.1 == ciphertext.plaintext)
            && got != Err(NoPrekeyBundle) && got != Err(StorageFailed)
  {}

  /** Whether the database read and the database write of a call succeed. */
  datatype Storage = Storage(canRead: bool, canWrite: bool) {
    predicate Works() { canRead && canWrite }
  }

  /** What is left of an attempt: the read comes first, the write last. */
  function Stored<T>(storage: Storage, attempt: Result<T, SessionError>): Result<T, SessionError> {
    if !storage.canRead || (attempt.Ok? && !storage.canWrite) then Err(StorageFailed) else attempt
  }

  /** A failing read hides every other error; a failing write spoils only what would have succeeded. */
  lemma StorageErrors<T>(storage: Storage, attempt: Result<T, SessionError>)
    requires attempt != Err(StorageFailed)
    ensures Stored(storage, attempt) == Err(StorageFailed) <==> !storage.canRead || (attempt.Ok? && !storage.canWrite)
    ensures Stored(storage, attempt) != Err(StorageFailed) ==> Stored(storage, attempt) == attempt
  {}

  /** The `ratchet_sessions` table, one row per conversation. */
  class SessionManager {
    var rows: map<string, Row>

    ghost function RowOf(conversation: string): Option<Row>
      reads this
    {
      if conversation in rows then Some(rows[conversation]) else None
    }

    constructor ()
      ensures rows == map[]
    {
      rows := map[];
    }

    method LoadSession(conversation: string, storage: Storage) returns (r: Result<Option<RatchetState>, SessionError>)
      ensures r.Err? <==> !storage.canRead
      ensures r.Err? ==> r.error == StorageFailed
      ensures r.Ok? ==> (r.value.Some? <==> RowOf(conversation).Some?)
      ensures r.Ok? && r.value.Some? ==> fresh(r.value.value) && RowOf(conversation) == Some(r.value.value.Value())
    {
      if !storage.canRead {
        return Err(StorageFailed);
      }
      if conversation in rows {
        var state := new RatchetState.FromPersisted(rows[conversation]);
        r := Ok(Some(state));
      } else {
        r := Ok(None);
      }
    }

    method SaveSession(conversation: string, state: RatchetState, storage: Storage) returns (r: Result<(), SessionError>)
      modifies this
      ensures r == if storage.canWrite then Ok(()) else Err(StorageFailed)
      ensures rows == if storage.canWrite then old(rows)[conversation := state.Value()] else old(rows)
    {
      if !storage.canWrite {
        return Err(StorageFailed);
      }
      var row := state.ToRow();
      rows := rows[conversation := row];
      r := Ok(());
    }

    method EncryptForPeer(conversation: string, ours: Secret, bundle: Option<PrekeyBundle>, plaintext: Plaintext,
                          generated: Generated, storage: Storage)
      returns (r: Result<EncryptedMessage, SessionError>)
      modifies this
      ensures match Stored<(Row, EncryptedMessage)>(storage, Encrypted(old(RowOf(conversation)), ours, bundle, plaintext, generated))
              case Ok((row, message)) => r == Ok(message) && rows == old(rows)[conversation := row]
              case Err(e) => r == Err(e) && rows == old(rows)
    {
      var loaded := LoadSession(conversation, storage);
      if loaded.Err? {
        return Err(loaded.error);
      }
      var x3dh: Option<InitialMessage> := None;
      var state: RatchetState;
      if loaded.value.Some? {
        state := loaded.value.value;
      } else {
        if bundle.None? {
          return Err(NoPrekeyBundle);
        }
        var sharedSecret, initial := Initiate(ours, bundle.value, generated.ephemeral);
        state := new RatchetState.InitSender(sharedSecret, bundle.value.signedPrekey, generated.ratchet);
        x3dh := Some(initial);
      }
      var header, ciphertext := state.EncryptMessage(plaintext);
      var saved := SaveSession(conversation, state, storage);
      if saved.Err? {
        return Err(saved.error);
      }
      r := Ok(EncryptedMessage(header, ciphertext, x3dh));
    }

    method DecryptFromPeer(conversation: string, ratchetKey: Option<Secret>, sharedSecret: Option<Term>,
                           header: MessageHeader, ciphertext: Sealed, generated: Secret, storage: Storage)
      returns (r: Result<Plaintext, SessionError>)
      modifies this
      ensures match Stored<(Row, Plaintext)>(
                      storage, Decrypted(old(RowOf(conversation)), ratchetKey, sharedSecret, header, ciphertext, generated))
              case Ok((row, plaintext)) => r == Ok(plaintext) && rows == old(rows)[conversation := row]
              case Err(e) => r == Err(e) && rows == old(rows)
    {
      var loaded := LoadSession(conversation, storage);
      if loaded.Err? {
        return Err(loaded.error);
      }
      var state: RatchetState;
      if loaded.value.Some? {
        state := loaded.value.value;
      } else {
        if sharedSecret.None? {
          return Err(NoSharedSecret);
        }
        if ratchetKey.None? {
          return Err(NoRatchetKey);
        }
        state := new RatchetState.InitReceiver(sharedSecret.value, ratchetKey.value);
      }
      var plaintext := state.DecryptMessage(header, ciphertext, generated);
      if plaintext.None? {
        return Err(DecryptionFailed);
      }
      var saved := SaveSession(conversation, state, storage);
      if saved.Err? {
        return Err(saved.error);
      }
      r := Ok(plaintext.value);
    }
  }
}
