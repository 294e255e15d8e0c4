/** The Double Ratchet state machine of one side (crates/ephemera-message/src/ratchet.rs). */
module Ratchet {
  import opened Wrappers
  import opened SymbolicCrypto

  datatype MessageHeader = MessageHeader(
    ratchetKey: PublicKey,
    messageNumber: nat,
    previousChainLength: nat)

  /** The eight persisted components of a session. */
  datatype Row = Row(
    rootKey: Term,
    sendChainKey: Term,
    recvChainKey: Term,
    sendSecret: Secret,
    recvPublic: Option<PublicKey>,
    sendCount: nat,
    recvCount: nat,
    previousSendCount: nat)

  // Key derivation ---------------------------------------------------------

  function NextRoot(root: Term, dh: Term): Term { Derived([root, dh], RatchetInfo) }

  function NewChain(root: Term, dh: Term): Term { Derived([root, dh], ChainInfo) }

  function NextChain(chain: Term): Term { Derived([chain], ChainInfo) }

  function MessageKey(chain: Term): Term { Derived([chain], MessageKeyInfo) }

  /** The chain key after `n` symmetric steps. */
  function Advance(chain: Term, n: nat): Term
    decreases n
  {
    if n == 0 then chain else NextChain(Advance(chain, n - 1))
  }

  // Specification of the operations ----------------------------------------

  function SenderRow(sharedSecret: Term, theirs: PublicKey, generated: Secret): Row {
    var dh := DiffieHellman(generated, theirs);
    Row(NextRoot(sharedSecret, dh), NewChain(sharedSecret, dh), ZeroKey, generated, Some(theirs), 0, 0, 0)
  }

  function ReceiverRow(sharedSecret: Term, ours: Secret): Row {
    Row(sharedSecret, ZeroKey, ZeroKey, ours, None, 0, 0, 0)
  }

  function EncryptedHeader(r: Row): MessageHeader {
    MessageHeader(PublicKey(r.sendSecret), r.sendCount, r.previousSendCount)
  }

  function AfterEncrypt(r: Row): Row {
    r.(sendChainKey := NextChain(r.sendChainKey), sendCount := r.sendCount + 1)
  }

  /** A DH ratchet step towards the peer's new key, with `generated` as our next key. */
  function AfterDhStep(r: Row, theirs: PublicKey, generated: Secret): Row {
    var dhRecv := DiffieHellman(r.sendSecret, theirs);
    var root := NextRoot(r.rootKey, dhRecv);
    var dhSend := DiffieHellman(generated, theirs);
    Row(NextRoot(root, dhSend), NewChain(root, dhSend), NewChain(r.rootKey, dhRecv),
        generated, Some(theirs), 0, 0, r.sendCount)
  }

  /** The row once the ratchet is on the header's chain. */
  function OnChain(r: Row, header: MessageHeader, generated: Secret): Row {
    if r.recvPublic == Some(header.ratchetKey) then r else AfterDhStep(r, header.ratchetKey, generated)
  }

  /** How many chain keys are skipped and thrown away before the message key. */
  function Skipped(r: Row, header: MessageHeader): nat {
    if r.recvCount < header.messageNumber then header.messageNumber - r.recvCount else 0
  }

  function DecryptionKey(r: Row, header: MessageHeader, generated: Secret): Term {
    var on := OnChain(r, header, generated);
    MessageKey(Advance(on.recvChainKey, Skipped(on, header)))
  }

  function AfterDecrypt(r: Row, header: MessageHeader, generated: Secret): Row {
    var on := OnChain(r, header, generated);
    var n := Skipped(on, header);
    on.(recvChainKey := NextChain(Advance(on.recvChainKey, n)), recvCount := on.recvCount + n + 1)
  }

  // The mutable state ------------------------------------------------------

  class RatchetState {
    var rootKey: Term
    var sendChainKey: Term
    var recvChainKey: Term
    var sendSecret: Secret
    var recvPublic: Option<PublicKey>
    var sendCount: nat
    var recvCount: nat
    var previousSendCount: nat

    ghost function Value(): Row
      reads this
    {
      Row(rootKey, sendChainKey, recvChainKey, sendSecret, recvPublic, sendCount, recvCount, previousSendCount)
    }

    constructor InitSender(sharedSecret: Term, theirs: PublicKey, generated: Secret)
      ensures Value() == SenderRow(sharedSecret, theirs, generated)
    {
      var dh := DiffieHellman(generated, theirs);
      rootKey := NextRoot(sharedSecret, dh);
      sendChainKey := NewChain(sharedSecret, dh);
      recvChainKey := ZeroKey;
      sendSecret := generated;
      recvPublic := Some(theirs);
      sendCount, recvCount, previousSendCount := 0, 0, 0;
    }

    constructor InitReceiver(sharedSecret: Term, ours: Secret)
      ensures Value() == ReceiverRow(sharedSecret, ours)
    {
      rootKey := sharedSecret;
      sendChainKey, recvChainKey := ZeroKey, ZeroKey;
      sendSecret := ours;
      recvPublic := None;
      sendCount, recvCount, previousSendCount := 0, 0, 0;
    }

    constructor FromPersisted(row: Row)
      ensures Value() == row
    {
      rootKey := row.rootKey;
      sendChainKey := row.sendChainKey;
      recvChainKey := row.recvChainKey;
      sendSecret := row.sendSecret;
      recvPublic := row.recvPublic;
      sendCount := row.sendCount;
      recvCount := row.recvCount;
      previousSendCount := row.previousSendCount;
    }

    method ToRow() returns (row: Row)
      ensures row == Value()
    {
      row := Row(rootKey, sendChainKey, recvChainKey, sendSecret, recvPublic, sendCount, recvCount, previousSendCount);
    }

    method EncryptMessage(plaintext: Plaintext) returns (header: MessageHeader, ciphertext: Sealed)
      modifies this
      ensures Value() == AfterEncrypt(old(Value()))
      ensures header == EncryptedHeader(old(Value()))
      ensures ciphertext == Sealed(MessageKey(old(sendChainKey)), plaintext)
    {
      var key := MessageKey(sendChainKey);
      sendChainKey := NextChain(sendChainKey);
      header := MessageHeader(PublicKey(sendSecret), sendCount, previousSendCount);
      ciphertext := Sealed(key, plaintext);
      sendCount := sendCount + 1;
    }

    /** The state moves even when the box does not open; only storage is spared. */
    method DecryptMessage(header: MessageHeader, ciphertext: Sealed, generated: Secret) returns (r: Option<Plaintext>)
      modifies this
      ensures Value() == AfterDecrypt(old(Value()), header, generated)
      ensures r == Open(DecryptionKey(old(Value()), header, generated), ciphertext)
    {
      if recvPublic != Some(header.ratchetKey) {
        DhRatchetStep(header.ratchetKey, generated);
      }
      ghost var on := Value();
      while recvCount < header.messageNumber
        invariant on.recvCount <= recvCount
        invariant recvCount <= header.messageNumber || recvCount == on.recvCount
        invariant Value() == on.(recvChainKey := Advance(on.recvChainKey, recvCount - on.recvCount), recvCount := recvCount)
      {
        recvChainKey := NextChain(recvChainKey);
        recvCount := recvCount + 1;
      }
      var key := MessageKey(recvChainKey);
      recvChainKey := NextChain(recvChainKey);
      recvCount := recvCount + 1;
      r := Open(key, ciphertext);
    }

    method DhRatchetStep(theirs: PublicKey, generated: Secret)
      modifies this
      ensures Value() == AfterDhStep(old(Value()), theirs, generated)
    {
      previousSendCount := sendCount;
      sendCount := 0;
      recvCount := 0;
      recvPublic := Some(theirs);
      var dhRecv := DiffieHellman(sendSecret, theirs);
      var oldRoot := rootKey;
      rootKey := NextRoot(oldRoot, dhRecv);
      recvChainKey := NewChain(oldRoot, dhRecv);
      sendSecret := generated;
      var dhSend := DiffieHellman(sendSecret, theirs);
      var midRoot := rootKey;
      rootKey := NextRoot(midRoot, dhSend);
      sendChainKey := NewChain(midRoot, dhSend);
    }
  }
}
