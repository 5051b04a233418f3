/** Whole containers in plain bytes: exactly what a reader opens and accepts (crates/hide-object/src/lib.rs). */
module ContainerRules {
  import opened Aead
  import opened Bytes
  import opened Containers
  import opened Extensions
  import opened Hashing
  import opened HeaderCodec
  import opened HeaderRules
  import opened MetadataRules
  import opened PayloadRules
  import opened Payloads
  import opened Results
  import opened Signing
  import opened TranscriptRules
  import opened Transcripts
  import opened WireForms
  import M = MetadataCodec

  // ---------------------------------------------------------------- the front of a container

  function OuterForm(protected: Blob, mac: Digest): Bytes {
    [0x82] + ByteString(protected) + [0x58, 32] + mac
  }

  /** What the header's MAC is taken over. */
  function CoveredForm(p: Preamble, h: ProtectedHeader): Bytes
    requires LegalPreamble(p) && LegalHeader(h)
  {
    PreambleForm(p.headerLen, p.minor, p.flags) + HeaderForm(h)
  }

  /** The bytes are a preamble, a header of the length it gives, a salt and the payload. */
  predicate Consists(s: Bytes, p: Preamble, h: ProtectedHeader, mac: Digest, salt: Salt, payload: Bytes) {
    && LegalPreamble(p) && LegalHeader(h)
    && var outer := OuterForm(HeaderForm(h), mac);
       |outer| == p.headerLen && s == PreambleForm(p.headerLen, p.minor, p.flags) + outer + salt + payload
  }

  /** Under minor 2, every recipient is of the one known kind and there are no extensions. */
  predicate Plain(p: Preamble, h: ProtectedHeader, m: M.Metadata) {
    p.minor == 2 ==>
      && h.extensions == [] && m.extensions == []
      && forall i :: 0 <= i < |h.recipients| ==> h.recipients[i].XWing?
  }

  /** The stanza opens to a content key under which the header's MAC is right. */
  predicate Confirms(pr: Primitives, secret: Bytes, id: Digest, stanza: Stanza, covered: Bytes, mac: Digest,
                     cek: Bytes)
  {
    && stanza.XWing?
    && pr.unwrap(secret, id, stanza.encapsulation, stanza.wrappedCek) == Some(cek)
    && pr.mac(pr.derive(cek, id, Ascii("HIDE/0.1 header-mac")), covered) == mac
  }

  /** The content key is that of the first stanza that has a right one. */
  predicate KeyFound(pr: Primitives, secret: Bytes, id: Digest, stanzas: seq<Stanza>, covered: Bytes, mac: Digest,
                     cek: Bytes)
  {
    exists i :: 0 <= i < |stanzas| && Confirms(pr, secret, id, stanzas[i], covered, mac, cek)
      && forall j :: 0 <= j < i ==> NoKey(pr, secret, id, stanzas[j], covered, mac)
  }

  predicate NoKey(pr: Primitives, secret: Bytes, id: Digest, stanza: Stanza, covered: Bytes, mac: Digest) {
    stanza.XWing? ==>
      match pr.unwrap(secret, id, stanza.encapsulation, stanza.wrappedCek)
      case None => true
      case Some(cek) => pr.mac(pr.derive(cek, id, Ascii("HIDE/0.1 header-mac")), covered) != mac
  }

  /** The sealed metadata opens to the form of `m`. */
  predicate MetadataFound(pr: Primitives, cek: Bytes, h: ProtectedHeader, m: M.Metadata) {
    && Writable(m) && |MetadataForm(m)| <= 262144
    && pr.cipher.open(pr.derive(cek, h.objectId, Ascii("HIDE/0.1 metadata")), Zeros(12),
                      Ascii("HIDE/0.1 metadata") + h.objectId + [0, 1], h.encryptedMetadata) == Some(MetadataForm(m))
  }

  /** The payload's key is derived from the salt; its records are bound to the object and the header. */
  function StreamForm(pr: Primitives, cek: Bytes, h: ProtectedHeader, salt: Salt): Object
    requires LegalHeader(h)
  {
    Object(pr.cipher, pr.derive(cek, salt, Ascii("HIDE/0.1 payload") + h.objectId), h.objectId,
           pr.crypto.hash(HeaderForm(h)))
  }

  // ---------------------------------------------------------------- the model's own terms

  lemma TriedExactly(pr: Primitives, secret: Bytes, id: Digest, stanza: Stanza, covered: Bytes, mac: Digest, cek: Bytes)
    ensures Tried(pr, secret, id, stanza, covered, mac) == Some(cek)
       <==> Confirms(pr, secret, id, stanza, covered, mac, cek)
    ensures Tried(pr, secret, id, stanza, covered, mac) == None <==> NoKey(pr, secret, id, stanza, covered, mac)
  {
  }

  lemma {:induction false} NoneRecovered(
      pr: Primitives, secret: Bytes, id: Digest, stanzas: seq<Stanza>, covered: Bytes, mac: Digest)
    ensures Recovered(pr, secret, id, stanzas, covered, mac) == None
       <==> forall j :: 0 <= j < |stanzas| ==> NoKey(pr, secret, id, stanzas[j], covered, mac)
    decreases |stanzas|
  {
    hide Tried, NoKey;
    if stanzas != [] {
      var n := |stanzas| - 1;
      NoneRecovered(pr, secret, id, stanzas[..n], covered, mac);
      TriedExactly(pr, secret, id, stanzas[n], covered, mac, []);
      assert forall j :: 0 <= j < n ==> stanzas[..n][j] == stanzas[j];
    }
  }

  lemma {:induction false} RecoveredExactly(
      pr: Primitives, secret: Bytes, id: Digest, stanzas: seq<Stanza>, covered: Bytes, mac: Digest, cek: Bytes)
    ensures Recovered(pr, secret, id, stanzas, covered, mac) == Some(cek)
       <==> KeyFound(pr, secret, id, stanzas, covered, mac, cek)
    decreases |stanzas|
  {
    hide Tried, NoKey, Confirms;
    if stanzas != [] {
      var n := |stanzas| - 1;
      var front := stanzas[..n];
      RecoveredExactly(pr, secret, id, front, covered, mac, cek);
      NoneRecovered(pr, secret, id, front, covered, mac);
      TriedExactly(pr, secret, id, stanzas[n], covered, mac, cek);
      assert forall j :: 0 <= j < n ==> front[j] == stanzas[j];
      forall j, key | 0 <= j < n && Confirms(pr, secret, id, stanzas[j], covered, mac, key)
        ensures !NoKey(pr, secret, id, stanzas[j], covered, mac)
      {
        TriedExactly(pr, secret, id, stanzas[j], covered, mac, key);
      }
    }
  }

  lemma MetadataOpensExactly(pr: Primitives, cek: Bytes, h: ProtectedHeader, m: M.Metadata)
    ensures MetadataFound(pr, cek, h, m)
       <==> && OpenMetadata(pr, cek, h.objectId, h.encryptedMetadata).Some?
            && M.Decoded(OpenMetadata(pr, cek, h.objectId, h.encryptedMetadata).value) == Ok(m)
  {
    assert MetadataAad(h.objectId) == Ascii("HIDE/0.1 metadata") + h.objectId + [0, 1] by {
      TwoBytes(1);
    }
    var plain := OpenMetadata(pr, cek, h.objectId, h.encryptedMetadata);
    if plain.Some? {
      MetadataRules.DecodedExactly(plain.value, m);
    }
    hide M.Decoded, Writable, MetadataForm, MetadataAad;
  }

  /** What the header bytes must be for a reader to get past them, and what it then has. */
  predicate Unlocks(pr: Primitives, secret: Bytes, p: Preamble, headerBytes: Bytes, h: ProtectedHeader, m: M.Metadata,
                    cek: Bytes, mac: Digest)
  {
    && LegalPreamble(p) && LegalHeader(h) && headerBytes == OuterForm(HeaderForm(h), mac)
    && KeyFound(pr, secret, h.objectId, h.recipients, CoveredForm(p, h), mac, cek)
    && MetadataFound(pr, cek, h, m) && Plain(p, h, m)
  }

  lemma UnlockedIsLegal(pr: Primitives, secret: Bytes, p: Preamble, headerBytes: Bytes)
    requires LegalPreamble(p) && Unlock(pr, secret, PreambleForm(p.headerLen, p.minor, p.flags), p, headerBytes).Ok?
    ensures DecodedOuter(headerBytes).Ok?
    ensures var (h, m, cek, protected) :=
              Unlock(pr, secret, PreambleForm(p.headerLen, p.minor, p.flags), p, headerBytes).value;
            && Unlocks(pr, secret, p, headerBytes, h, m, cek, DecodedOuter(headerBytes).value.1)
            && protected == HeaderForm(h)
  {
    hide Decoded, DecodedOuter, Recovered, OpenMetadata, M.Decoded, PreambleForm, LegalHeader, HeaderForm, ByteString,
      MetadataFound, KeyFound;
    var (protected, mac) := DecodedOuter(headerBytes).value;
    var h := Decoded(protected).value;
    OuterExactly(headerBytes, protected, mac);
    HeaderRules.DecodedExactly(protected, h);
    var cek := Recovered(pr, secret, h.objectId, h.recipients, CoveredForm(p, h), mac).value;
    RecoveredExactly(pr, secret, h.objectId, h.recipients, CoveredForm(p, h), mac, cek);
    var m := M.Decoded(OpenMetadata(pr, cek, h.objectId, h.encryptedMetadata).value).value;
    MetadataOpensExactly(pr, cek, h, m);
  }

  lemma LegalIsUnlocked(pr: Primitives, secret: Bytes, p: Preamble, headerBytes: Bytes, h: ProtectedHeader,
                        m: M.Metadata, cek: Bytes, mac: Digest)
    requires Unlocks(pr, secret, p, headerBytes, h, m, cek, mac) && |headerBytes| <= 1048576
    ensures Unlock(pr, secret, PreambleForm(p.headerLen, p.minor, p.flags), p, headerBytes)
         == Ok((h, m, cek, HeaderForm(h)))
  {
    hide Decoded, DecodedOuter, Recovered, OpenMetadata, M.Decoded, PreambleForm, HeaderForm, ByteString,
      MetadataFound, KeyFound;
    assert HeaderForm(h) != [] by { NotEmpty(h); }
    OuterExactly(headerBytes, HeaderForm(h), mac);
    HeaderRules.DecodedExactly(HeaderForm(h), h);
    RecoveredExactly(pr, secret, h.objectId, h.recipients, CoveredForm(p, h), mac, cek);
    MetadataOpensExactly(pr, cek, h, m);
  }

  // ---------------------------------------------------------------- exactly what opens

  /** Everything a container must be to be opened, up to its payload. */
  ghost predicate OpensAs(pr: Primitives, secret: Bytes, s: Bytes, u: Unlocked, payload: Bytes, mac: Digest, cek: Bytes,
                    salt: Salt)
  {
    && Consists(s, u.preamble, u.header, mac, salt, payload)
    && KeyFound(pr, secret, u.header.objectId, u.header.recipients, CoveredForm(u.preamble, u.header), mac, cek)
    && MetadataFound(pr, cek, u.header, u.metadata)
    && Plain(u.preamble, u.header, u.metadata)
    && u.stream == StreamForm(pr, cek, u.header, salt)
  }

  lemma CutFront(s: Bytes, p: Preamble, outer: Bytes, salt: Salt, payload: Bytes)
    requires |outer| == p.headerLen < 0x1_0000_0000
    requires s == PreambleForm(p.headerLen, p.minor, p.flags) + outer + salt + payload
    ensures |s| >= 32 + p.headerLen && s[..16] == PreambleForm(p.headerLen, p.minor, p.flags)
    ensures s[16..][..p.headerLen] == outer
    ensures s[16..][p.headerLen..][..16] == salt && s[16..][p.headerLen..][16..] == payload
  {
    var front := PreambleForm(p.headerLen, p.minor, p.flags);
    assert |front| == 16;
    hide PreambleForm;
    assert s[16..] == outer + salt + payload;
    assert s[16..][p.headerLen..] == salt + payload;
  }

  lemma StreamIsObject(pr: Primitives, cek: Bytes, h: ProtectedHeader, salt: Salt)
    requires LegalHeader(h)
    ensures PayloadObject(pr, cek, h.objectId, salt, HeaderForm(h)) == StreamForm(pr, cek, h, salt)
  {
  }

  /** A container opens to its parts if and only if it consists of them, and each of them is right. */
  lemma OpenedExactly(pr: Primitives, secret: Bytes, s: Bytes, u: Unlocked, payload: Bytes)
    ensures Opened(pr, secret, s) == Ok((u, payload))
       <==> exists mac, cek, salt :: OpensAs(pr, secret, s, u, payload, mac, cek, salt)
  {
    hide Opened, OpensAs;
    if Opened(pr, secret, s) == Ok((u, payload)) {
      var mac, cek, salt := OpenedIsLegal(pr, secret, s);
    }
    if mac, cek, salt :| OpensAs(pr, secret, s, u, payload, mac, cek, salt) {
      LegalIsOpened(pr, secret, s, u, payload, mac, cek, salt);
    }
  }

  lemma OpenedIsLegal(pr: Primitives, secret: Bytes, s: Bytes) returns (mac: Digest, cek: Bytes, salt: Salt)
    requires Opened(pr, secret, s).Ok?
    ensures OpensAs(pr, secret, s, Opened(pr, secret, s).value.0, Opened(pr, secret, s).value.1, mac, cek, salt)
  {
    hide Unlock, DecodePreamble, PreambleForm, OuterForm, HeaderForm, LegalHeader, DecodedOuter, KeyFound,
      MetadataFound,
      StreamForm, PayloadObject;
    var front, s1 := s[..PREAMBLE_LEN], s[PREAMBLE_LEN..];
    var p := DecodePreamble(front).value;
    PreambleExactly(front, p);
    var headerBytes := s1[..p.headerLen];
    UnlockedIsLegal(pr, secret, p, headerBytes);
    var (h, m, key, protected) := Unlock(pr, secret, front, p, headerBytes).value;
    mac, cek, salt := DecodedOuter(headerBytes).value.1, key, s1[p.headerLen..][..16];
    StreamIsObject(pr, cek, h, salt);
    assert s == front + headerBytes + salt + s1[p.headerLen..][16..];
  }

  lemma LegalIsOpened(pr: Primitives, secret: Bytes, s: Bytes, u: Unlocked, payload: Bytes, mac: Digest, cek: Bytes,
                      salt: Salt)
    requires OpensAs(pr, secret, s, u, payload, mac, cek, salt)
    ensures Opened(pr, secret, s) == Ok((u, payload))
  {
    hide Unlock, DecodePreamble, PreambleForm, OuterForm, HeaderForm, KeyFound, MetadataFound, StreamForm,
      PayloadObject,
      LegalStanza, LegalSignature;
    var p, h := u.preamble, u.header;
    var outer := OuterForm(HeaderForm(h), mac);
    CutFront(s, p, outer, salt, payload);
    PreambleExactly(s[..16], p);
    LegalIsUnlocked(pr, secret, p, outer, h, u.metadata, cek, mac);
    StreamIsObject(pr, cek, h, salt);
  }

  // ---------------------------------------------------------------- the signature, and the whole verdict

  /** The bytes a container's signature is over. */
  function SignedForm(pr: Primitives, p: Preamble, h: ProtectedHeader, m: M.Metadata, plain: Bytes): Bytes
    requires Countable(h) && Writable(m) && |plain| < 0x1_0000_0000_0000_0000
  {
    var base := MetadataForm(m.(signature := None));
    if |base| >= 0x2000_0000_0000_0000 then []
    else if p.minor == 2 then
      U64(18) + Ascii("HIDE/0.5 container") + LegacyForm(h, base, pr.crypto.hash(plain), |plain|)
    else
      U64(18) + Ascii("HIDE/1.0 container") + MessageForm(p, h, base, pr.crypto.hash(plain), |plain|)
  }

  /** One signature or none, as the preamble says, and it must be by its key over this very container. */
  function VerdictForm(pr: Primitives, u: Unlocked, plain: Bytes): Result<VerifiedObject, ContainerError>
    requires Countable(u.header) && Writable(u.metadata) && |plain| < 0x1_0000_0000_0000_0000
  {
    var said := u.preamble.minor == 2 || u.preamble.flags == 1;
    var outside, inside := u.header.signatures != [], u.metadata.signature.Some?;
    if outside && inside then Err(InvalidSignature)
    else if !outside && !inside then
      if said then Err(MissingSignature) else Ok(VerifiedObject(u.metadata, |plain|, None))
    else if !said then Err(UnexpectedSignature)
    else
      var stanza := if outside then u.header.signatures[0] else u.metadata.signature.value;
      if && pr.crypto.keyParses(stanza.verifyingKey)
         && pr.crypto.checks(stanza.verifyingKey, SignedForm(pr, u.preamble, u.header, u.metadata, plain),
                             stanza.signature)
      then Ok(VerifiedObject(u.metadata, |plain|, Some(stanza.verifyingKey)))
      else Err(InvalidSignature)
  }

  /** What a reader says about the signature of what it opened and staged. */
  lemma SignatureExactly(pr: Primitives, u: Unlocked, plain: Bytes)
    requires Countable(u.header) && Writable(u.metadata) && u.preamble.flags <= 1
    requires |u.header.signatures| <= 1 && |plain| < 0x1_0000_0000_0000_0000
    requires forall i :: 0 <= i < |u.header.signatures| ==> LegalSignature(u.header.signatures[i])
    ensures Concluded(pr, u, plain) == VerdictForm(pr, u, plain)
  {
    hide SignedForm, SignedMessage, Bind, Writable, Countable;
    SignedExactly(u.preamble);
    MessageIsSigned(pr, u.preamble, u.header, u.metadata, plain);
    if u.metadata.signature.Some? {
      InsideFits(u.metadata);
    }
  }

  lemma InsideFits(m: M.Metadata)
    requires Writable(m) && m.signature.Some?
    ensures |m.signature.value.verifyingKey| == 1984 && |m.signature.value.signature| == 3373
  {
    hide SafeName;
  }

  lemma MessageIsSigned(pr: Primitives, p: Preamble, h: ProtectedHeader, m: M.Metadata, plain: Bytes)
    requires Countable(h) && Writable(m) && |plain| < 0x1_0000_0000_0000_0000
    ensures var message := SignedMessage(pr, p, h, m, pr.crypto.hash(plain), |plain|);
            message.Ok? && Bind(SigningContext(p), message.value) == SignedForm(pr, p, h, m, plain)
  {
    var unsigned := m.(signature := None);
    assert Writable(unsigned) by { hide SafeName; }
    MetadataRules.EncodedExactly(unsigned);
    M.EncodedLength(unsigned);
    var base := MetadataForm(unsigned);
    hide M.Encoded, MetadataForm, Writable, Transcript, LegacyForm, MessageForm, U64, Countable;
    TranscriptIsForm(p, h, base, pr.crypto.hash(plain), |plain|);
  }

  /** Everything a container must be to be accepted, with this verdict and this plaintext. */
  ghost predicate AcceptedAs(pr: Primitives, secret: Bytes, s: Bytes, v: VerifiedObject, plain: Bytes, u: Unlocked,
                             mac: Digest, cek: Bytes, salt: Salt, ciphertexts: seq<Bytes>, chunks: seq<Bytes>)
  {
    && Short(ciphertexts) && OpensAs(pr, secret, s, u, Parcels(ciphertexts), mac, cek, salt)
    && OpenTo(u.stream, 0, ciphertexts, chunks)
    && plain == Flat(chunks) && |plain| < 0x1_0000_0000_0000_0000
    && VerdictForm(pr, u, plain) == Ok(v)
  }

  lemma OpensFacts(pr: Primitives, secret: Bytes, s: Bytes, u: Unlocked, payload: Bytes, mac: Digest, cek: Bytes,
                   salt: Salt)
    requires OpensAs(pr, secret, s, u, payload, mac, cek, salt)
    ensures Countable(u.header) && Writable(u.metadata) && u.preamble.flags <= 1 && |u.header.signatures| <= 1
    ensures forall i :: 0 <= i < |u.header.signatures| ==> LegalSignature(u.header.signatures[i])
  {
    hide HeaderForm, OuterForm, PreambleForm, KeyFound, Writable, StreamForm, MetadataForm, LegalStanza, LegalSignature;
  }

  /**
   A reader accepts bytes with a verdict and a plaintext if and only if they are a preamble, a header, a
   salt and records that are all in their one form and all right: the MAC under the key the reader's
   stanza gives, the metadata and every record under the keys derived from it, and the signature.
   */
  lemma AcceptedExactly(pr: Primitives, secret: Bytes, s: Bytes, v: VerifiedObject, plain: Bytes)
    requires Tagged(pr.cipher)
    ensures Decrypted(pr, secret, s) == (Ok(v), plain)
       <==> exists u, mac, cek, salt, ciphertexts, chunks ::
              AcceptedAs(pr, secret, s, v, plain, u, mac, cek, salt, ciphertexts, chunks)
  {
    hide Decrypted, AcceptedAs;
    if Decrypted(pr, secret, s) == (Ok(v), plain) {
      var u, mac, cek, salt, ciphertexts, chunks := AcceptedIsRight(pr, secret, s, v, plain);
    }
    if u, mac, cek, salt, ciphertexts, chunks :|
        AcceptedAs(pr, secret, s, v, plain, u, mac, cek, salt, ciphertexts, chunks) {
      RightIsAccepted(pr, secret, s, v, plain, u, mac, cek, salt, ciphertexts, chunks);
    }
  }

  lemma AcceptedIsRight(pr: Primitives, secret: Bytes, s: Bytes, v: VerifiedObject, plain: Bytes)
    returns (u: Unlocked, mac: Digest, cek: Bytes, salt: Salt, ciphertexts: seq<Bytes>, chunks: seq<Bytes>)
    requires Tagged(pr.cipher) && Decrypted(pr, secret, s) == (Ok(v), plain)
    ensures AcceptedAs(pr, secret, s, v, plain, u, mac, cek, salt, ciphertexts, chunks)
  {
    hide Opened, OpensAs, Unstream, VerdictForm, Concluded, OpenTo, Parcels, Flat, Short, Tagged, Countable, Writable,
      LegalSignature;
    u := Opened(pr, secret, s).value.0;
    var payload := Opened(pr, secret, s).value.1;
    mac, cek, salt := OpenedIsLegal(pr, secret, s);
    OpensFacts(pr, secret, s, u, payload, mac, cek, salt);
    OpenedCountable(pr, secret, s);
    UnstreamLength(u.stream, payload, 0);
    ciphertexts, chunks := AcceptedIsOpened(u.stream, payload, 0);
    SignatureExactly(pr, u, plain);
  }

  lemma RightIsAccepted(pr: Primitives, secret: Bytes, s: Bytes, v: VerifiedObject, plain: Bytes, u: Unlocked,
                        mac: Digest, cek: Bytes, salt: Salt, ciphertexts: seq<Bytes>, chunks: seq<Bytes>)
    requires Tagged(pr.cipher) && AcceptedAs(pr, secret, s, v, plain, u, mac, cek, salt, ciphertexts, chunks)
    ensures Decrypted(pr, secret, s) == (Ok(v), plain)
  {
    hide Opened, OpensAs, Unstream, VerdictForm, Concluded, OpenTo, Parcels, Flat, Short, Tagged, Countable, Writable,
      LegalSignature;
    var payload := Parcels(ciphertexts);
    LegalIsOpened(pr, secret, s, u, payload, mac, cek, salt);
    OpensFacts(pr, secret, s, u, payload, mac, cek, salt);
    OpenedIsAccepted(u.stream, 0, ciphertexts, chunks);
    SignatureExactly(pr, u, plain);
  }
}
