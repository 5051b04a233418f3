/** Whole containers: header, metadata, payload and signature (crates/hide-object/src/lib.rs). */
module Containers {
  import opened Aead
  import opened Bytes
  import opened Extensions
  import opened Hashing
  import opened HeaderCodec
  import opened Payloads
  import opened Results
  import opened Signing
  import opened Streams
  import opened Transcripts
  import M = MetadataCodec

  const MAX_SIGNED_INPUT := 0x4000_0000
  const CURRENT_MINOR: byte := 1

  /** The primitives: signatures and hash, cipher, key derivation, MAC, and opening a wrapped key. */
  datatype Primitives = Primitives(
    crypto: Crypto,
    cipher: Cipher,
    derive: (Bytes, Bytes, Bytes) -> Bytes,
    mac: (Bytes, Bytes) -> Digest,
    unwrap: (Bytes, Digest, Blob, Blob) -> Option<Bytes>)

  datatype ContainerError =
    | Format(format: FormatError) | Payload(payload: ObjectError) | NoMatchingRecipient
    | InvalidSignature | UnexpectedSignature | MissingSignature | InvalidRecipients

  function Formatted<T>(r: Result<T, FormatError>): Result<T, ContainerError> {
    match r
    case Ok(value) => Ok(value)
    case Err(error) => Err(Format(error))
  }

  // ---------------------------------------------------------------- keys

  function MetadataKey(pr: Primitives, cek: Bytes, id: Digest): Bytes {
    pr.derive(cek, id, Ascii("HIDE/0.1 metadata"))
  }

  function HeaderKey(pr: Primitives, cek: Bytes, id: Digest): Bytes {
    pr.derive(cek, id, Ascii("HIDE/0.1 header-mac"))
  }

  function PayloadObject(pr: Primitives, cek: Bytes, id: Digest, salt: Salt, protected: Bytes): Object {
    Object(pr.cipher, pr.derive(cek, salt, Ascii("HIDE/0.1 payload") + id), id, pr.crypto.hash(protected))
  }

  function MetadataAad(id: Digest): Bytes {
    Ascii("HIDE/0.1 metadata") + id + BigEndian(SUITE, 2)
  }

  function SealMetadata(pr: Primitives, cek: Bytes, id: Digest, plain: Bytes): Bytes {
    pr.cipher.seal(MetadataKey(pr, cek, id), Zeros(12), MetadataAad(id), plain)
  }

  function OpenMetadata(pr: Primitives, cek: Bytes, id: Digest, sealed: Bytes): Option<Bytes> {
    pr.cipher.open(MetadataKey(pr, cek, id), Zeros(12), MetadataAad(id), sealed)
  }

  /** The content key of the first known stanza that opens to one the header's MAC confirms. */
  function Recovered(pr: Primitives, secret: Bytes, id: Digest, stanzas: seq<Stanza>, covered: Bytes, mac: Digest)
    : Option<Bytes>
  {
    if stanzas == [] then None
    else
      var front := Recovered(pr, secret, id, stanzas[..|stanzas| - 1], covered, mac);
      if front.Some? then front else Tried(pr, secret, id, stanzas[|stanzas| - 1], covered, mac)
  }

  function Tried(pr: Primitives, secret: Bytes, id: Digest, stanza: Stanza, covered: Bytes, mac: Digest)
    : Option<Bytes>
  {
    if !stanza.XWing? then None
    else
      match pr.unwrap(secret, id, stanza.encapsulation, stanza.wrappedCek)
      case None => None
      case Some(cek) => if pr.mac(HeaderKey(pr, cek, id), covered) == mac then Some(cek) else None
  }

  method RecoverCek(pr: Primitives, secret: Bytes, id: Digest, stanzas: seq<Stanza>, covered: Bytes, mac: Digest)
    returns (cek: Option<Bytes>)
    ensures cek == Recovered(pr, secret, id, stanzas, covered, mac)
  {
    hide Tried;
    for k := 0 to |stanzas|
      invariant Recovered(pr, secret, id, stanzas[..k], covered, mac) == None
    {
      cek := Tried(pr, secret, id, stanzas[k], covered, mac);
      assert stanzas[..k + 1][..k] == stanzas[..k];
      if cek.Some? {
        RecoveredStays(pr, secret, id, stanzas, covered, mac, k + 1);
        return;
      }
    }
    assert stanzas[..|stanzas|] == stanzas;
    return None;
  }

  lemma {:induction false} RecoveredStays(
      pr: Primitives, secret: Bytes, id: Digest, stanzas: seq<Stanza>, covered: Bytes, mac: Digest, k: nat)
    requires k <= |stanzas| && Recovered(pr, secret, id, stanzas[..k], covered, mac).Some?
    ensures Recovered(pr, secret, id, stanzas, covered, mac) == Recovered(pr, secret, id, stanzas[..k], covered, mac)
    decreases |stanzas|
  {
    hide Tried;
    if k < |stanzas| {
      var front := stanzas[..|stanzas| - 1];
      assert front[..k] == stanzas[..k];
      RecoveredStays(pr, secret, id, front, covered, mac, k);
    } else {
      assert stanzas[..k] == stanzas;
    }
  }

  // ---------------------------------------------------------------- the signature

  function SigningContext(p: Preamble): Blob {
    if p.IsLegacy() then LEGACY_SIGNING_CONTEXT else SIGNING_CONTEXT
  }

  /** The message signed for a header, metadata and plaintext, if the metadata can be written. */
  function SignedMessage(pr: Primitives, p: Preamble, h: ProtectedHeader, m: M.Metadata, hash: Digest, len: u64)
    : Result<Bytes, ContainerError>
    requires Countable(h)
  {
    var base :- Formatted(M.SigningBase(m));
    M.EncodedLength(M.Unsigned(m));
    Ok(Transcript(p, h, base, hash, len))
  }

  /** The signer, if the container carries one signature and it verifies over what was read. */
  function VerifiedSigner(pr: Primitives, p: Preamble, h: ProtectedHeader, m: M.Metadata, hash: Digest, len: u64)
    : Result<Option<Bytes>, ContainerError>
    requires Countable(h)
  {
    if h.signatures != [] && m.signature.Some? then Err(InvalidSignature)
    else if h.signatures == [] && m.signature.None? then
      if p.IsSigned() then Err(MissingSignature) else Ok(None)
    else if !p.IsSigned() then Err(UnexpectedSignature)
    else
      var stanza := if h.signatures != [] then h.signatures[0] else m.signature.value;
      if !ValidKey(pr.crypto, stanza.verifyingKey) then Err(InvalidSignature)
      else
        var message :- SignedMessage(pr, p, h, m, hash, len);
        if Verifies(pr.crypto, stanza.verifyingKey, SigningContext(p), message, stanza.signature)
        then Ok(Some(stanza.verifyingKey))
        else Err(InvalidSignature)
  }

  // ---------------------------------------------------------------- reading

  /** What the front of a container gives up to one of its recipients. */
  datatype Unlocked = Unlocked(preamble: Preamble, header: ProtectedHeader, metadata: M.Metadata, stream: Object)

  /** The header bytes, once the preamble has said how many there are. */
  function Unlock(pr: Primitives, secret: Bytes, front: Bytes, p: Preamble, headerBytes: Bytes)
    : Result<(ProtectedHeader, M.Metadata, Bytes, Bytes), ContainerError>
  {
    var (protected, mac) :- Formatted(DecodedOuter(headerBytes));
    var h :- Formatted(Decoded(protected));
    if p.IsLegacy() && !LegacyAdmitted(h) then Err(Format(MalformedHeader))
    else
      match Recovered(pr, secret, h.objectId, h.recipients, front + protected, mac)
      case None => Err(NoMatchingRecipient)
      case Some(cek) =>
        match OpenMetadata(pr, cek, h.objectId, h.encryptedMetadata)
        case None => Err(Payload(Authentication))
        case Some(plain) =>
          var m :- Formatted(M.Decoded(plain));
          if p.IsLegacy() && m.extensions != [] then Err(Format(InvalidMetadata)) else Ok((h, m, cek, protected))
  }

  /** Everything before the payload, and the payload's bytes. */
  function Opened(pr: Primitives, secret: Bytes, s: Bytes): Result<(Unlocked, Bytes), ContainerError> {
    if |s| < PREAMBLE_LEN then Err(Payload(Io))
    else
      var front, s1 := s[..PREAMBLE_LEN], s[PREAMBLE_LEN..];
      var p :- Formatted(DecodePreamble(front));
      if |s1| < p.headerLen then Err(Payload(Io))
      else
        var (h, m, cek, protected) :- Unlock(pr, secret, front, p, s1[..p.headerLen]);
        var s2 := s1[p.headerLen..];
        if |s2| < 16 then Err(Payload(TruncatedPayload))
        else Ok((Unlocked(p, h, m, PayloadObject(pr, cek, h.objectId, s2[..16], protected)), s2[16..]))
  }

  datatype VerifiedObject = VerifiedObject(metadata: M.Metadata, plaintextLen: nat, signer: Option<Bytes>)

  /** The verdict once the payload has been staged. */
  function Concluded(pr: Primitives, u: Unlocked, plain: Bytes): Result<VerifiedObject, ContainerError>
    requires Countable(u.header) && |plain| < 0x1_0000_0000_0000_0000
  {
    var signer :- VerifiedSigner(pr, u.preamble, u.header, u.metadata, pr.crypto.hash(plain), |plain|);
    Ok(VerifiedObject(u.metadata, |plain|, signer))
  }

  /** The verdict on a whole container, and the plaintext staged on the way to it. */
  function Decrypted(pr: Primitives, secret: Bytes, s: Bytes): (Result<VerifiedObject, ContainerError>, Bytes)
    requires Tagged(pr.cipher)
  {
    match Opened(pr, secret, s)
    case Err(error) => (Err(error), [])
    case Ok((u, payload)) =>
      var staged := Unstream(u.stream, payload, 0);
      OpenedCountable(pr, secret, s);
      UnstreamLength(u.stream, payload, 0);
      match staged.verdict
      case Fail(error) => (Err(Payload(error)), staged.plain)
      case Pass => (Concluded(pr, u, staged.plain), staged.plain)
  }

  lemma OpenedCountable(pr: Primitives, secret: Bytes, s: Bytes)
    requires Opened(pr, secret, s).Ok?
    ensures var u := Opened(pr, secret, s).value.0;
            && Countable(u.header) && StanzasFit(u.header) && u.stream.cipher == pr.cipher
            && u.stream.id == u.header.objectId
            && (u.preamble.IsLegacy() ==> LegacyAdmitted(u.header))
            && M.SigningBase(u.metadata).Ok?
  {
    hide Decoded, DecodedOuter, Recovered, OpenMetadata, M.Decoded, LegacyAdmitted, DecodePreamble, Countable,
      StanzasFit, M.SigningBase;
    var front, s1 := s[..PREAMBLE_LEN], s[PREAMBLE_LEN..];
    var p := DecodePreamble(front).value;
    UnlockFacts(pr, secret, front, p, s1[..p.headerLen]);
  }

  lemma UnlockFacts(pr: Primitives, secret: Bytes, front: Bytes, p: Preamble, headerBytes: Bytes)
    requires Unlock(pr, secret, front, p, headerBytes).Ok?
    ensures var (h, m, cek, protected) := Unlock(pr, secret, front, p, headerBytes).value;
            && Countable(h) && StanzasFit(h) && (p.IsLegacy() ==> LegacyAdmitted(h)) && M.SigningBase(m).Ok?
  {
    hide Decoded, DecodedOuter, Recovered, OpenMetadata, M.Decoded, LegacyAdmitted, Countable, StanzasFit,
      M.SigningBase;
    var (protected, mac) := DecodedOuter(headerBytes).value;
    var h := Decoded(protected).value;
    HeaderIsCountable(protected);
    var cek := Recovered(pr, secret, h.objectId, h.recipients, front + protected, mac).value;
    MetadataHasBase(OpenMetadata(pr, cek, h.objectId, h.encryptedMetadata).value);
  }

  lemma HeaderIsCountable(protected: Bytes)
    requires Decoded(protected).Ok?
    ensures Countable(Decoded(protected).value) && StanzasFit(Decoded(protected).value)
  {
    HeaderCanonical(protected);
    hide Decoded, PutHeader, SignatureFits, StanzaFits;
  }

  lemma MetadataHasBase(s: Bytes)
    requires M.Decoded(s).Ok?
    ensures M.SigningBase(M.Decoded(s).value).Ok?
  {
    M.MetadataCanonical(s);
    hide M.Decoded, M.PutItems, M.ValidFilename, M.ValidMediaType, ExtensionsOk, SignatureFits;
  }

  /** No accepted record sequence holds more than the chunk limit allows. */
  lemma {:induction false} UnstreamLength(o: Object, s: Bytes, counter: nat)
    requires Tagged(o.cipher) && counter <= MAX_CHUNKS
    ensures |Unstream(o, s, counter).plain| <= (MAX_CHUNKS - counter) * CHUNK_LEN
    decreases |s|
  {
    hide Unstream, NextRecord, Tagged;
    if counter == MAX_CHUNKS {
      NoMoreRecords(o, s);
    } else {
      UnstreamStep(o, s, counter);
      if NextRecord(o, s, counter).Ok? {
        ChunkFits(o, s, counter);
        UnstreamLength(o, NextRecord(o, s, counter).value.2, counter + 1);
      }
    }
  }

  lemma ChunkFits(o: Object, s: Bytes, counter: nat)
    requires Tagged(o.cipher) && NextRecord(o, s, counter).Ok?
    ensures |NextRecord(o, s, counter).value.1| <= CHUNK_LEN
  {
    hide RecordNonce, ChunkAad, FromBigEndian;
  }

  // ---------------------------------------------------------------- writing

  datatype Placement = Public | Confidential

  /** The random choices of one encryption. */
  datatype Material = Material(cek: Bytes, id: Digest, salt: Salt)

  type Author = w: Signer | |w.key| == VERIFYING_KEY_LENGTH witness MarkOf(Zeros(VERIFYING_KEY_LENGTH))

  /** The header before it has any metadata or signature; a signature covers nothing more of it. */
  function Draft(material: Material, recipients: seq<Stanza>): ProtectedHeader {
    ProtectedHeader(material.id, recipients, [], [], [])
  }

  function SignatureFor(pr: Primitives, m: M.Metadata, material: Material, recipients: seq<Stanza>, author: Author,
                        plain: Bytes): Result<SignatureStanza, ContainerError>
    requires |recipients| <= MAX_RECIPIENTS && |plain| <= MAX_SIGNED_INPUT
  {
    var provisional := Preamble(1, CURRENT_MINOR, FLAG_SIGNED);
    var message :- SignedMessage(pr, provisional, Draft(material, recipients), m, pr.crypto.hash(plain), |plain|);
    Ok(SignatureStanza(author.key, Sign(author, SIGNING_CONTEXT, message)))
  }

  /** Where the signature goes: into the header for all to see, or into the metadata. */
  function Placed(m: M.Metadata, stanza: SignatureStanza, placement: Placement): (M.Metadata, seq<SignatureStanza>) {
    if placement.Public? then (m, [stanza]) else (m.(signature := Some(stanza)), [])
  }

  /** Preamble and header for a protected header, whose MAC covers both. */
  function Front(pr: Primitives, material: Material, h: ProtectedHeader, flags: byte)
    : Result<(Bytes, Bytes), ContainerError>
  {
    var protected :- Formatted(Encoded(h));
    EncodedFits(h);
    var sized :- Formatted(EncodedOuter(protected, Zeros(32)));
    var p :- Formatted(FromParts(|sized|, CURRENT_MINOR, flags));
    var mac := pr.mac(HeaderKey(pr, material.cek, material.id), p.Encode() + protected);
    var outer :- Formatted(EncodedOuter(protected, mac));
    Ok((p.Encode() + outer, protected))
  }

  /** The metadata and signatures that are written, signed by `author` if there is one. */
  function Authored(pr: Primitives, m: M.Metadata, material: Material, recipients: seq<Stanza>,
                    author: Option<(Author, Placement)>, plain: Bytes)
    : Result<(M.Metadata, seq<SignatureStanza>), ContainerError>
    requires |recipients| <= MAX_RECIPIENTS && (author.Some? ==> |plain| <= MAX_SIGNED_INPUT)
  {
    match author
    case None => Ok((m, []))
    case Some((who, placement)) =>
      var stanza :- SignatureFor(pr, m, material, recipients, who, plain);
      Ok(Placed(m, stanza, placement))
  }

  /** A container up to its payload: what was sealed into it, and the bytes in front of the salt. */
  datatype Prepared = Prepared(metadata: M.Metadata, header: ProtectedHeader, front: Bytes, protected: Bytes)

  function Prepare(pr: Primitives, m: M.Metadata, material: Material, recipients: seq<Stanza>,
                   author: Option<(Author, Placement)>, plain: Bytes): Result<Prepared, ContainerError>
    requires Tagged(pr.cipher) && |recipients| <= MAX_RECIPIENTS && (author.Some? ==> |plain| <= MAX_SIGNED_INPUT)
  {
    var _ :- Formatted(M.SigningBase(m));
    var (written, signatures) :- Authored(pr, m, material, recipients, author, plain);
    var metadata :- Formatted(M.Encoded(written));
    M.EncodedLength(written);
    var sealed := SealMetadata(pr, material.cek, material.id, metadata);
    var h := ProtectedHeader(material.id, recipients, sealed, signatures, []);
    var (front, protected) :- Front(pr, material, h, FlagsOf(author));
    Ok(Prepared(written, h, front, protected))
  }

  function FlagsOf(author: Option<(Author, Placement)>): byte {
    if author.Some? then FLAG_SIGNED else 0
  }

  function Encrypted(pr: Primitives, m: M.Metadata, material: Material, recipients: seq<Stanza>,
                     author: Option<(Author, Placement)>, plain: Bytes): Result<Bytes, ContainerError>
    requires Tagged(pr.cipher)
  {
    if recipients == [] || |recipients| > MAX_RECIPIENTS then Err(InvalidRecipients)
    else if author.Some? && |plain| > MAX_SIGNED_INPUT then Err(Payload(ObjectTooLarge))
    else
      var made :- Prepare(pr, m, material, recipients, author, plain);
      if |plain| > MAX_CHUNKS * CHUNK_LEN then Err(Payload(ObjectTooLarge))
      else
        var o := PayloadObject(pr, material.cek, material.id, material.salt, made.protected);
        Ok(made.front + (material.salt + Stream(o, plain, 0)))
  }

  // ---------------------------------------------------------------- reading from a stream

  /** Reads exactly `want` bytes, or fails; `seen` is all the input there seems to be. */
  method ReadExact(input: Reader, want: nat) returns (result: Result<Bytes, ReadError>, ghost seen: Bytes)
    modifies input
    ensures seen <= old(input.pending) && (Patient(old(input.script)) ==> seen == old(input.pending))
    ensures Patient(old(input.script)) ==> Patient(input.script)
    ensures Steady(old(input.script)) ==> Steady(input.script) && (result.Err? ==> |seen| < want)
    ensures result.Ok? ==> want <= |old(input.pending)| && result.value == old(input.pending)[..want]
                           && input.pending == old(input.pending)[want..] && seen == old(input.pending)
  {
    hide Filled, Steady, Patient;
    seen := input.pending;
    FilledFacts(input.script, |input.pending|, want);
    var buffer := new byte[want];
    var read := ReadChunk(input, buffer, want);
    if read.Err? {
      return Err(Failed), seen;
    }
    if read.value < want {
      return Err(Failed), seen[..read.value];
    }
    assert buffer[..] == buffer[..want];
    return Ok(buffer[..]), seen;
  }

  /** The front of the container, read piece by piece; an end that is reported early passes for the real one. */
  method ReadFront(pr: Primitives, secret: Bytes, input: Reader)
    returns (result: Result<Unlocked, ContainerError>, ghost seen: Bytes)
    modifies input
    ensures seen <= old(input.pending) && (Patient(old(input.script)) ==> seen == old(input.pending))
    ensures Patient(old(input.script)) ==> Patient(input.script)
    ensures Steady(old(input.script)) ==> Steady(input.script)
    ensures result.Ok? ==>
              seen == old(input.pending) && Opened(pr, secret, seen) == Ok((result.value, input.pending))
    ensures result.Err? && result.error != Payload(Io) ==> Opened(pr, secret, seen) == Err(result.error)
    ensures result == Err(Payload(Io)) ==>
              Opened(pr, secret, seen) == Err(Payload(Io)) || !Steady(old(input.script))
  {
    hide Unlock, DecodePreamble, Steady, Patient;
    ghost var s := input.pending;
    var front;
    front, seen := ReadExact(input, PREAMBLE_LEN);
    if front.Err? {
      return Err(Payload(Io)), seen;
    }
    var p := DecodePreamble(front.value);
    if p.Err? {
      return Err(Format(p.error)), s;
    }
    var headerBytes;
    headerBytes, seen := ReadExact(input, p.value.headerLen);
    if headerBytes.Err? {
      return Err(Payload(Io)), UpTo(s, PREAMBLE_LEN, seen);
    }
    var unlocked := Unlock(pr, secret, front.value, p.value, headerBytes.value);
    if unlocked.Err? {
      assert unlocked != Err(Payload(Io)) by { UnlockNeverIo(pr, secret, front.value, p.value, headerBytes.value); }
      return Err(unlocked.error), s;
    }
    var (h, m, cek, protected) := unlocked.value;
    var buffer := new byte[16];
    var outcome;
    outcome, seen := ReadPayload(input, buffer, 16);
    if outcome.Fail? {
      SeenBehind(s, PREAMBLE_LEN, p.value.headerLen, seen);
      return Err(Payload(outcome.error)), UpTo(s, PREAMBLE_LEN + p.value.headerLen, seen);
    }
    assert buffer[..] == buffer[..16];
    return Ok(Unlocked(p.value, h, m, PayloadObject(pr, cek, h.objectId, buffer[..], protected))), s;
  }

  /** The first `n` bytes, and of the rest what was seen. */
  ghost function UpTo(s: Bytes, n: nat, rest: Bytes): (seen: Bytes)
    requires n <= |s| && rest <= s[n..]
    ensures seen <= s && |seen| == n + |rest| && seen[..n] == s[..n] && seen[n..] == rest
    ensures rest == s[n..] ==> seen == s
  {
    s[..n] + rest
  }

  lemma SeenBehind(s: Bytes, n: nat, k: nat, rest: Bytes)
    requires n + k <= |s| && rest <= s[n..][k..]
    ensures rest <= s[n + k..] && s[n + k..] == s[n..][k..]
    ensures var seen := UpTo(s, n + k, rest);
            seen[..n] == s[..n] && seen[n..][..k] == s[n..][..k] && seen[n..][k..] == rest
  {
    var seen := UpTo(s, n + k, rest);
    assert seen[n..][k..] == seen[n + k..];
    assert seen[..n] == seen[..n + k][..n];
    assert seen[n..][..k] == seen[..n + k][n..];
  }

  lemma UnlockNeverIo(pr: Primitives, secret: Bytes, front: Bytes, p: Preamble, headerBytes: Bytes)
    ensures Unlock(pr, secret, front, p, headerBytes) != Err(Payload(Io))
  {
    hide Decoded, DecodedOuter, Recovered, OpenMetadata, M.Decoded, LegacyAdmitted;
  }

  /**
   Stages the plaintext while reading, and only then judges the signature over what was staged. The
   verdict is that on the input as far as the reader showed it.
   */
  method DecryptToStaging(pr: Primitives, secret: Bytes, input: Reader, staging: Sink)
    returns (result: Result<VerifiedObject, ContainerError>, ghost seen: Bytes)
    requires Tagged(pr.cipher)
    modifies input, staging
    ensures seen <= old(input.pending) && (Patient(old(input.script)) ==> seen == old(input.pending))
    ensures var (verdict, plain) := Decrypted(pr, secret, seen);
            var start := old(staging.written);
            && start <= staging.written <= start + plain
            && (result.Ok? || result.error != Payload(Io) ==> verdict == result && staging.written == start + plain)
            && (result == Err(Payload(Io)) ==>
                  verdict == result || !Steady(old(input.script)) || old(staging.room) < |plain|)
  {
    hide Opened, Unstream, Steady, Patient, Tagged, Concluded;
    ghost var s := input.pending;
    var front;
    front, seen := ReadFront(pr, secret, input);
    if front.Err? {
      return Err(front.error), seen;
    }
    var u := front.value;
    OpenedCountable(pr, secret, s);
    var start := |staging.written|;
    ghost var payload := input.pending;
    var length;
    length, seen := DecryptRecords(u.stream, input, staging);
    ghost var rest := seen;
    seen := OpenedOn(pr, secret, s, u, payload, rest);
    UnstreamLength(u.stream, rest, 0);
    if length.Err? {
      return Err(Payload(length.error)), seen;
    }
    var plain := staging.written[start..];
    assert plain == Unstream(u.stream, rest, 0).plain;
    result := Concluded(pr, u, plain);
    ConcludedNeverIo(pr, u, plain);
  }

  /** The front of a container opens the same way whatever payload stands behind it. */
  lemma OpenedOn(pr: Primitives, secret: Bytes, s: Bytes, u: Unlocked, payload: Bytes, other: Bytes) returns (t: Bytes)
    requires Opened(pr, secret, s) == Ok((u, payload))
    ensures Opened(pr, secret, t) == Ok((u, other))
    ensures other <= payload ==> t <= s && (other == payload ==> t == s)
  {
    hide Unlock, DecodePreamble;
    var n := |s| - |payload|;
    var k := DecodePreamble(s[..PREAMBLE_LEN]).value.headerLen;
    t := s[..n] + other;
    assert n == PREAMBLE_LEN + k + 16 && s[PREAMBLE_LEN..][k..][16..] == s[n..] == payload;
    assert s == s[..n] + payload;
    assert t[..PREAMBLE_LEN] == s[..PREAMBLE_LEN];
    assert t[PREAMBLE_LEN..][..k] == s[PREAMBLE_LEN..][..k];
    assert t[PREAMBLE_LEN..][k..][..16] == s[PREAMBLE_LEN..][k..][..16];
    assert t[PREAMBLE_LEN..][k..][16..] == other;
  }

  lemma ConcludedNeverIo(pr: Primitives, u: Unlocked, plain: Bytes)
    requires Countable(u.header) && |plain| < 0x1_0000_0000_0000_0000
    ensures Concluded(pr, u, plain) != Err(Payload(Io))
  {
    hide Transcript, M.SigningBase, ValidKey, Verifies;
  }
}
