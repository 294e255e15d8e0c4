/**
  The cryptography the messaging crate is built on, as a term algebra.

  Secrets are atoms, a public key is an injective image of its secret,
  Diffie-Hellman is commutative, HKDF is a free constructor over its input
  key material and its info string, and an AEAD box opens under exactly the
  key it was sealed with.
 */
module SymbolicCrypto {
  import opened Wrappers
  import opened ByteOrder

  type Secret = nat

  type Plaintext = Bytes

  datatype PublicKey = PublicKey(secret: Secret)

  /** The HKDF info strings of x3dh.rs and ratchet.rs. */
  datatype Info = X3dhInfo | RatchetInfo | ChainInfo | MessageKeyInfo

  /** A 32-byte symmetric value. HKDF input is a sequence of 32-byte blocks. */
  datatype Term =
    | ZeroKey
    | DhOutput(low: Secret, high: Secret)
    | Derived(ikm: seq<Term>, info: Info)

  datatype Sealed = Sealed(key: Term, plaintext: Plaintext)

  function DiffieHellman(secret: Secret, public: PublicKey): Term {
    if secret <= public.secret then DhOutput(secret, public.secret) else DhOutput(public.secret, secret)
  }

  function Open(key: Term, box: Sealed): Option<Plaintext> {
    if box.key == key then Some(box.plaintext) else None
  }
}
