/** The primitives an identity rests on, as arbitrary functions (crates/hide-sign/src/lib.rs). */
module Signing {
  import opened Bytes
  import opened Hashing

  const VERIFYING_KEY_LENGTH := 1984
  const SIGNATURE_LENGTH := 3373

  /**
   A verifying key is its encoding. `keyParses` is whether the bytes decode to a key, `checks`
   whether both halves of a signature verify over a payload.
   */
  datatype Crypto = Crypto(
    hash: Hasher,
    keyParses: Bytes -> bool,
    checks: (Bytes, Bytes, Bytes) -> bool)

  predicate ValidKey(c: Crypto, key: Bytes) {
    |key| == VERIFYING_KEY_LENGTH && c.keyParses(key)
  }

  /** The payload that is really signed: the context, length-prefixed, then the message. */
  function Bind(context: Blob, message: Bytes): Bytes {
    Field(context) + message
  }

  predicate Verifies(c: Crypto, key: Bytes, context: Blob, message: Bytes, signature: Bytes) {
    |signature| == SIGNATURE_LENGTH && c.checks(key, Bind(context, message), signature)
  }

  /** No context can absorb part of a message. */
  lemma BindInjective(context: Blob, message: Bytes, context': Blob, message': Bytes)
    requires Bind(context, message) == Bind(context', message')
    ensures context == context' && message == message'
  {
    FieldSplit(context, message, context', message');
  }

  type SignatureBytes = s: Bytes | |s| == SIGNATURE_LENGTH witness Zeros(SIGNATURE_LENGTH)

  /** A signing identity: its public key and the signatures it makes. */
  datatype Signer = Signer(key: Bytes, sign: Bytes -> SignatureBytes)

  function Sign(signer: Signer, context: Blob, message: Bytes): SignatureBytes {
    signer.sign(Bind(context, message))
  }

  /** A key pair whose holder signs these payloads, so that its signatures over them check. */
  ghost predicate Genuine(c: Crypto, signer: Signer, signed: iset<Bytes>) {
    && ValidKey(c, signer.key)
    && forall payload :: payload in signed ==> c.checks(signer.key, payload, signer.sign(payload))
  }

  /** Nothing verifies under `key` but the payloads its holder signed. */
  ghost predicate Unforgeable(c: Crypto, key: Bytes, signed: iset<Bytes>) {
    forall payload, signature :: c.checks(key, payload, signature) ==> payload in signed
  }

  /** Among what the holder of a genuine key pair signs is this message. */
  ghost predicate Attests(c: Crypto, signer: Signer, signed: iset<Bytes>, context: Blob, message: Bytes) {
    Genuine(c, signer, signed) && Bind(context, message) in signed
  }

  lemma AttestedVerifies(c: Crypto, signer: Signer, signed: iset<Bytes>, context: Blob, message: Bytes)
    requires Attests(c, signer, signed, context, message)
    ensures ValidKey(c, signer.key) && Verifies(c, signer.key, context, message, Sign(signer, context, message))
  {
  }

  // ---------------------------------------------------------------- a world in which both hold

  function MarkOf(key: Bytes): Signer {
    Signer(key, _ => Zeros(SIGNATURE_LENGTH))
  }

  /** Signatures that check exactly for what the book says each key signs. */
  ghost function Notary(hash: Hasher, book: map<Bytes, iset<Bytes>>): Crypto {
    Crypto(hash, key => key in book,
      (key, payload, signature) => key in book && payload in book[key] && signature == Zeros(SIGNATURE_LENGTH))
  }

  /** Genuine and unforgeable go together, whatever is signed. */
  lemma NotaryIsSound(hash: Hasher, book: map<Bytes, iset<Bytes>>, key: Bytes)
    requires key in book && |key| == VERIFYING_KEY_LENGTH
    ensures Genuine(Notary(hash, book), MarkOf(key), book[key])
    ensures Unforgeable(Notary(hash, book), key, book[key])
  {
  }
}
