/** What a container guarantees to its readers (crates/hide-object/src/lib.rs). */
module ContainerTheorems {
  import opened Aead
  import opened Bytes
  import opened Containers
  import opened Extensions
  import opened Hashing
  import opened HeaderCodec
  import opened Payloads
  import opened PayloadTheorems
  import opened Results
  import opened Signing
  import opened Transcripts
  import M = MetadataCodec

  // ---------------------------------------------------------------- what is signed

  /** Something a signer put its name to: a version, a header, metadata and a plaintext. */
  datatype Statement = Statement(preamble: Preamble, header: ProtectedHeader, metadata: M.Metadata, plain: Bytes)

  predicate Sensible(st: Statement) {
    && Countable(st.header) && StanzasFit(st.header) && |st.plain| < 0x1_0000_0000_0000_0000
    && (st.preamble.IsLegacy() ==> LegacyAdmitted(st.header))
    && M.SigningBase(st.metadata).Ok?
  }

  /** The bytes signed for it. */
  function PayloadOf(pr: Primitives, st: Statement): Bytes
    requires Sensible(st)
  {
    Bind(SigningContext(st.preamble),
      SignedMessage(pr, st.preamble, st.header, st.metadata, pr.crypto.hash(st.plain), |st.plain|).value)
  }

  /** What the author of a new container puts its name to. */
  function Intended(m: M.Metadata, material: Material, recipients: seq<Stanza>, plain: Bytes): Statement {
    Statement(Preamble(1, CURRENT_MINOR, FLAG_SIGNED), Draft(material, recipients), m, plain)
  }

  /** Among what the holder of a genuine key pair signs is this statement. */
  ghost predicate Signs(pr: Primitives, who: Signer, signed: iset<Bytes>, st: Statement) {
    Sensible(st) && Genuine(pr.crypto, who, signed) && PayloadOf(pr, st) in signed
  }

  // ---------------------------------------------------------------- the round trip

  /** Every wrapping of the header opens to the content key under this secret, or not at all. */
  predicate OpensHonestly(pr: Primitives, secret: Bytes, material: Material, recipients: seq<Stanza>) {
    forall i :: 0 <= i < |recipients| && recipients[i].XWing? ==>
      var got := pr.unwrap(secret, material.id, recipients[i].encapsulation, recipients[i].wrappedCek);
      got.Some? ==> got.value == material.cek
  }

  /** The secret belongs to one of the recipients. */
  predicate IsRecipient(pr: Primitives, secret: Bytes, material: Material, recipients: seq<Stanza>) {
    exists i :: 0 <= i < |recipients| && Opens(pr, secret, material, recipients[i])
  }

  predicate Opens(pr: Primitives, secret: Bytes, material: Material, stanza: Stanza) {
    stanza.XWing?
    && pr.unwrap(secret, material.id, stanza.encapsulation, stanza.wrappedCek) == Some(material.cek)
  }

  lemma {:induction false} RecipientRecovers(
      pr: Primitives, secret: Bytes, material: Material, recipients: seq<Stanza>, covered: Bytes)
    requires OpensHonestly(pr, secret, material, recipients)
    ensures var mac := pr.mac(HeaderKey(pr, material.cek, material.id), covered);
            Recovered(pr, secret, material.id, recipients, covered, mac)
            == if IsRecipient(pr, secret, material, recipients) then Some(material.cek) else None
    decreases |recipients|
  {
    hide HeaderKey;
    if recipients != [] {
      var n := |recipients| - 1;
      var front := recipients[..n];
      assert forall i :: 0 <= i < n ==> front[i] == recipients[i];
      RecipientRecovers(pr, secret, material, front, covered);
      assert IsRecipient(pr, secret, material, recipients)
        <==> IsRecipient(pr, secret, material, front) || Opens(pr, secret, material, recipients[n]);
    }
  }

  lemma OuterLength(protected: Blob, mac: Digest, mac': Digest)
    ensures |PutOuter(protected, mac)| == |PutOuter(protected, mac')|
  {
  }

  /** What the front of a written container is, and that it is read back as such. */
  lemma FrontRoundTrip(pr: Primitives, material: Material, h: ProtectedHeader, flags: byte)
    returns (p: Preamble, outer: Bytes, mac: Digest)
    requires Front(pr, material, h, flags).Ok?
    ensures var (front, protected) := Front(pr, material, h, flags).value;
            && front == p.Encode() + outer && |outer| == p.headerLen
            && p.minor == CURRENT_MINOR && p.flags == flags
            && DecodePreamble(p.Encode()) == Ok(p)
            && Encoded(h) == Ok(protected) && DecodedOuter(outer) == Ok((protected, mac)) && Decoded(protected) == Ok(h)
            && mac == pr.mac(HeaderKey(pr, material.cek, material.id), p.Encode() + protected)
  {
    hide Encoded, Decoded, PutOuter, DecodedOuter, HeaderKey, DecodePreamble, Preamble.Encode;
    var protected := Encoded(h).value;
    EncodedFits(h);
    var sized := EncodedOuter(protected, Zeros(32)).value;
    p := FromParts(|sized|, CURRENT_MINOR, flags).value;
    mac := pr.mac(HeaderKey(pr, material.cek, material.id), p.Encode() + protected);
    outer := EncodedOuter(protected, mac).value;
    OuterLength(protected, Zeros(32), mac);
    PreambleRoundTrip(p, p.Encode());
    OuterRoundTrip(protected, mac, outer);
    HeaderRoundTrip(h);
  }

  lemma MetadataOpens(pr: Primitives, cek: Bytes, id: Digest, m: M.Metadata, sealed: Bytes)
    requires Tagged(pr.cipher) && M.Encoded(m).Ok? && MetadataLengthOk(|sealed|)
    requires OpenMetadata(pr, cek, id, sealed) == Some(M.Encoded(m).value)
    ensures M.Decoded(M.Encoded(m).value) == Ok(m)
  {
    M.MetadataRoundTrip(m);
    hide M.Encoded, M.Decoded, MetadataKey, MetadataAad;
  }

  lemma HeaderMetadataLength(h: ProtectedHeader)
    requires Encoded(h).Ok?
    ensures MetadataLengthOk(|h.encryptedMetadata|)
  {
    hide PutHeader, StanzaFits, SignatureFits, ExtensionsOk;
  }

  /** The sealed metadata of a header opens, under the content key, to this metadata. */
  predicate Reveals(pr: Primitives, material: Material, h: ProtectedHeader, m: M.Metadata) {
    M.Encoded(m).Ok? && OpenMetadata(pr, material.cek, material.id, h.encryptedMetadata) == Some(M.Encoded(m).value)
  }

  /** A recipient unlocks what was written; anybody else is told that nothing matches. */
  lemma UnlockWritten(pr: Primitives, secret: Bytes, material: Material, m: M.Metadata, h: ProtectedHeader, flags: byte)
    returns (p: Preamble, outer: Bytes)
    requires Tagged(pr.cipher) && OpensHonestly(pr, secret, material, h.recipients)
    requires h.objectId == material.id && Reveals(pr, material, h, m) && Front(pr, material, h, flags).Ok?
    ensures var (front, protected) := Front(pr, material, h, flags).value;
            && front == p.Encode() + outer && |outer| == p.headerLen && Encoded(h) == Ok(protected)
            && p.minor == CURRENT_MINOR && p.flags == flags && DecodePreamble(p.Encode()) == Ok(p)
            && Unlock(pr, secret, p.Encode(), p, outer)
               == if IsRecipient(pr, secret, material, h.recipients) then Ok((h, m, material.cek, protected))
                  else Err(NoMatchingRecipient)
  {
    hide Front, Encoded, Decoded, DecodedOuter, OpenMetadata, M.Encoded, M.Decoded, Recovered, Tagged,
      IsRecipient, OpensHonestly, DecodePreamble, Preamble.Encode, MetadataLengthOk, LegacyAdmitted, HeaderKey;
    var mac: Digest;
    p, outer, mac := FrontRoundTrip(pr, material, h, flags);
    var protected := Front(pr, material, h, flags).value.1;
    RecipientRecovers(pr, secret, material, h.recipients, p.Encode() + protected);
    HeaderMetadataLength(h);
    MetadataOpens(pr, material.cek, material.id, m, h.encryptedMetadata);
  }

  /** The signing base and the draft cover the finished header's content. */
  lemma SameMessage(pr: Primitives, m: M.Metadata, written: M.Metadata, material: Material, recipients: seq<Stanza>,
                    h: ProtectedHeader, p: Preamble, hash: Digest, len: u64)
    requires |recipients| <= MAX_RECIPIENTS && Countable(h)
    requires h.objectId == material.id && h.recipients == recipients && h.extensions == []
    requires p.minor == CURRENT_MINOR && p.flags == FLAG_SIGNED && M.Unsigned(written) == M.Unsigned(m)
    ensures SignedMessage(pr, p, h, written, hash, len)
         == SignedMessage(pr, Preamble(1, CURRENT_MINOR, FLAG_SIGNED), Draft(material, recipients), m, hash, len)
  {
    hide M.Encoded;
  }

  /** The verdict on a signature made and placed as a writer does. */
  lemma WrittenSignerVerifies(pr: Primitives, m: M.Metadata, material: Material, recipients: seq<Stanza>,
                              author: Option<(Author, Placement)>, signed: iset<Bytes>, plain: Bytes,
                              h: ProtectedHeader, p: Preamble)
    requires |recipients| <= MAX_RECIPIENTS && Countable(h) && |plain| < 0x1_0000_0000_0000_0000
    requires author.Some? ==>
      |plain| <= MAX_SIGNED_INPUT && Signs(pr, author.value.0, signed, Intended(m, material, recipients, plain))
    requires Authored(pr, m, material, recipients, author, plain).Ok?
    requires h.objectId == material.id && h.recipients == recipients && h.extensions == []
    requires h.signatures == Authored(pr, m, material, recipients, author, plain).value.1
    requires p.minor == CURRENT_MINOR && p.flags == FlagsOf(author)
    ensures VerifiedSigner(pr, p, h, Authored(pr, m, material, recipients, author, plain).value.0,
                           pr.crypto.hash(plain), |plain|)
         == SignerVerdict(m, author)
  {
    var (written, signatures) := Authored(pr, m, material, recipients, author, plain).value;
    hide SignedMessage, Bind, M.Encoded, Sensible;
    if author.Some? {
      SameMessage(pr, m, written, material, recipients, h, p, pr.crypto.hash(plain), |plain|);
    }
  }

  /** Metadata that already carries a signature is written as it is, unless a new one replaces it. */
  function SignerVerdict(m: M.Metadata, author: Option<(Author, Placement)>): Result<Option<Bytes>, ContainerError> {
    match author
    case None => if m.signature.Some? then Err(UnexpectedSignature) else Ok(None)
    case Some((who, placement)) =>
      if placement.Public? && m.signature.Some? then Err(InvalidSignature) else Ok(Some(who.key))
  }

  /** What a container's preparation is made of. */
  lemma PreparedParts(pr: Primitives, m: M.Metadata, material: Material, recipients: seq<Stanza>,
                      author: Option<(Author, Placement)>, plain: Bytes)
    requires Tagged(pr.cipher) && |recipients| <= MAX_RECIPIENTS && (author.Some? ==> |plain| <= MAX_SIGNED_INPUT)
    requires Prepare(pr, m, material, recipients, author, plain).Ok?
    ensures var made := Prepare(pr, m, material, recipients, author, plain).value;
            && Authored(pr, m, material, recipients, author, plain) == Ok((made.metadata, made.header.signatures))
            && M.SigningBase(m).Ok? && M.Encoded(made.metadata).Ok?
            && made.header.objectId == material.id && made.header.recipients == recipients
               && made.header.extensions == []
            && made.header.encryptedMetadata
               == SealMetadata(pr, material.cek, material.id, M.Encoded(made.metadata).value)
            && Front(pr, material, made.header, FlagsOf(author)) == Ok((made.front, made.protected))
  {
    hide Authored, Front, M.Encoded, M.SigningBase, SealMetadata;
    var made := Prepare(pr, m, material, recipients, author, plain).value;
    var authored := Authored(pr, m, material, recipients, author, plain);
    assert authored.value == (made.metadata, made.header.signatures);
    M.EncodedLength(made.metadata);
    assert Front(pr, material, made.header, FlagsOf(author)).value == (made.front, made.protected);
  }

  /** Cutting a written container where a reader does gives back its pieces. */
  lemma WrittenSlices(front: Bytes, outer: Bytes, salt: Salt, payload: Bytes)
    requires |front| == PREAMBLE_LEN
    ensures var s := (front + outer) + (salt + payload);
            && |s| >= PREAMBLE_LEN && s[..PREAMBLE_LEN] == front
            && |s[PREAMBLE_LEN..]| >= |outer| && s[PREAMBLE_LEN..][..|outer|] == outer
            && s[PREAMBLE_LEN..][|outer|..] == salt + payload
            && (salt + payload)[..16] == salt && (salt + payload)[16..] == payload
  {
    var s := (front + outer) + (salt + payload);
    assert s[PREAMBLE_LEN..] == outer + (salt + payload);
  }

  function StreamUnder(pr: Primitives, material: Material, protected: Bytes): (o: Object)
    ensures o.cipher == pr.cipher
  {
    PayloadObject(pr, material.cek, material.id, material.salt, protected)
  }

  /** How a reader opens what a writer wrote, whatever payload it wrote. */
  lemma OpenedWritten(pr: Primitives, secret: Bytes, material: Material, m: M.Metadata, h: ProtectedHeader,
                      flags: byte, payload: Bytes)
    returns (u: Unlocked)
    requires Tagged(pr.cipher) && OpensHonestly(pr, secret, material, h.recipients)
    requires h.objectId == material.id && Reveals(pr, material, h, m) && Front(pr, material, h, flags).Ok?
    ensures var (front, protected) := Front(pr, material, h, flags).value;
            && Opened(pr, secret, front + (material.salt + payload))
               == (if IsRecipient(pr, secret, material, h.recipients)
                 then Ok((u, payload)) else Err(NoMatchingRecipient))
            && u.stream == StreamUnder(pr, material, protected) && u.header == h && u.metadata == m
            && u.preamble.minor == CURRENT_MINOR && u.preamble.flags == flags && Countable(u.header)
  {
    hide Front, Unlock, DecodePreamble, IsRecipient, OpensHonestly, Preamble.Encode, PayloadObject, Tagged, Reveals,
      Countable, Encoded;
    var (front, protected) := Front(pr, material, h, flags).value;
    var p, outer := UnlockWritten(pr, secret, material, m, h, flags);
    WrittenSlices(p.Encode(), outer, material.salt, payload);
    u := Unlocked(p, h, m, StreamUnder(pr, material, protected));
    assert Countable(h) by { EncodableIsCountable(h); }
  }

  lemma EncodableIsCountable(h: ProtectedHeader)
    requires Encoded(h).Ok?
    ensures Countable(h)
  {
    hide PutHeader, StanzaFits, SignatureFits;
  }

  /** The little that reading back asks of the cipher: what was sealed into this container opens. */
  ghost predicate OpensOwn(pr: Primitives, m: M.Metadata, material: Material, recipients: seq<Stanza>,
                           author: Option<(Author, Placement)>, plain: Bytes)
  {
    && Tagged(pr.cipher) && |recipients| <= MAX_RECIPIENTS && (author.Some? ==> |plain| <= MAX_SIGNED_INPUT)
    && var made := Prepare(pr, m, material, recipients, author, plain);
       made.Ok? ==>
         && Reveals(pr, material, made.value.header, made.value.metadata)
         && Faithful(StreamUnder(pr, material, made.value.protected), plain)
  }

  lemma CorrectOpensOwn(pr: Primitives, m: M.Metadata, material: Material, recipients: seq<Stanza>,
                        author: Option<(Author, Placement)>, plain: Bytes)
    requires Correct(pr.cipher) && |recipients| <= MAX_RECIPIENTS && (author.Some? ==> |plain| <= MAX_SIGNED_INPUT)
    ensures OpensOwn(pr, m, material, recipients, author, plain)
  {
    hide Prepare, Correct, Faithful, M.Encoded, StreamUnder, MetadataKey, MetadataAad;
    CorrectIsTagged(pr.cipher);
    var made := Prepare(pr, m, material, recipients, author, plain);
    if made.Ok? {
      PreparedParts(pr, m, material, recipients, author, plain);
      SealedOpens(pr, material, M.Encoded(made.value.metadata).value);
      CorrectIsFaithful(StreamUnder(pr, material, made.value.protected), plain);
    }
  }

  /** Keys that sealed nothing but this container's metadata and records open what they sealed. */
  lemma IdealOpensOwn(pr: Primitives, m: M.Metadata, material: Material, recipients: seq<Stanza>,
                      author: Option<(Author, Placement)>, plain: Bytes)
    requires Tagged(pr.cipher) && |recipients| <= MAX_RECIPIENTS && (author.Some? ==> |plain| <= MAX_SIGNED_INPUT)
    requires Prepare(pr, m, material, recipients, author, plain).Ok?
    requires var made := Prepare(pr, m, material, recipients, author, plain).value;
             var o := StreamUnder(pr, material, made.protected);
             && M.Encoded(made.metadata).Ok?
             && Ideal(pr.cipher, MetadataKey(pr, material.cek, material.id),
                      iset{(Zeros(12), MetadataAad(material.id), M.Encoded(made.metadata).value)})
             && Ideal(pr.cipher, o.key, SealedBy(o, plain))
    ensures OpensOwn(pr, m, material, recipients, author, plain)
  {
    hide Prepare, Faithful, M.Encoded, StreamUnder, MetadataKey, MetadataAad, SealedBy;
    PreparedParts(pr, m, material, recipients, author, plain);
    var made := Prepare(pr, m, material, recipients, author, plain).value;
    IdealIsFaithful(StreamUnder(pr, material, made.protected), plain);
    assert (Zeros(12), MetadataAad(material.id), M.Encoded(made.metadata).value)
      in iset{(Zeros(12), MetadataAad(material.id), M.Encoded(made.metadata).value)};
  }

  lemma CorrectIsTagged(a: Cipher)
    requires Correct(a)
    ensures Tagged(a)
  {
  }

  lemma SealedOpens(pr: Primitives, material: Material, metadata: Bytes)
    requires Correct(pr.cipher)
    ensures OpenMetadata(pr, material.cek, material.id, SealMetadata(pr, material.cek, material.id, metadata))
            == Some(metadata)
  {
    hide MetadataKey, MetadataAad;
  }

  /**
   Every recipient gets back the plaintext, the metadata and the signer that were put in; nobody
   else gets anything. The one exception is metadata that came with a signature of its own: such
   a container is written, and then refused by every reader.
   */
  lemma ContainerRoundTrip(pr: Primitives, secret: Bytes, m: M.Metadata, material: Material, recipients: seq<Stanza>,
                           author: Option<(Author, Placement)>, signed: iset<Bytes>, plain: Bytes)
    requires OpensOwn(pr, m, material, recipients, author, plain) && OpensHonestly(pr, secret, material, recipients)
    requires author.Some? ==> Signs(pr, author.value.0, signed, Intended(m, material, recipients, plain))
    requires Encrypted(pr, m, material, recipients, author, plain).Ok?
    ensures Authored(pr, m, material, recipients, author, plain).Ok?
    ensures Decrypted(pr, secret, Encrypted(pr, m, material, recipients, author, plain).value)
         == if !IsRecipient(pr, secret, material, recipients) then (Err(NoMatchingRecipient), [])
            else (match SignerVerdict(m, author)
                  case Err(error) => Err(error)
                  case Ok(signer) =>
                    Ok(VerifiedObject(Authored(pr, m, material, recipients, author, plain).value.0, |plain|, signer)),
                  plain)
  {
    hide Authored, Prepare, Front, Opened, Stream, Unstream, IsRecipient, OpensHonestly, SignerVerdict, VerifiedSigner,
      Reveals, Tagged, Faithful, PayloadObject, Signs, Countable, FlagsOf;
    var made := Prepare(pr, m, material, recipients, author, plain).value;
    PreparedParts(pr, m, material, recipients, author, plain);
    var u := OpenedWritten(
      pr, secret, material, made.metadata, made.header, FlagsOf(author),
      Stream(StreamUnder(pr, material, made.protected), plain, 0));
    StreamRoundTrip(StreamUnder(pr, material, made.protected), plain);
    WrittenSignerVerifies(pr, m, material, recipients, author, signed, plain, made.header, u.preamble);
  }

  // ---------------------------------------------------------------- what a signature means

  /** In the contexts containers use, the key signed these statements and nothing else. */
  ghost predicate SignedOnly(pr: Primitives, signed: iset<Bytes>, statements: iset<Statement>) {
    && (forall st :: st in statements ==> Sensible(st))
    && forall p: Preamble, message: Bytes ::
         Bind(SigningContext(p), message) in signed ==>
           exists st :: st in statements && Bind(SigningContext(p), message) == PayloadOf(pr, st)
  }

  lemma ContextsDiffer()
    ensures SIGNING_CONTEXT != LEGACY_SIGNING_CONTEXT
  {
    assert SIGNING_CONTEXT[5] != LEGACY_SIGNING_CONTEXT[5];
  }

  /** Two statements with one payload say the same, up to a hash collision between plaintexts. */
  lemma SameStatement(pr: Primitives, a: Statement, b: Statement)
    requires Sensible(a) && Sensible(b) && PayloadOf(pr, a) == PayloadOf(pr, b)
    ensures a.preamble.IsLegacy() == b.preamble.IsLegacy()
    ensures !a.preamble.IsLegacy() ==> a.preamble.minor == b.preamble.minor && a.preamble.flags == b.preamble.flags
    ensures a.header.objectId == b.header.objectId && a.header.recipients == b.header.recipients
    ensures a.header.extensions == b.header.extensions && M.Unsigned(a.metadata) == M.Unsigned(b.metadata)
    ensures |a.plain| == |b.plain| && (a.plain == b.plain || HasCollision(pr.crypto.hash, {a.plain, b.plain}))
  {
    hide CurrentTranscript, LegacyTranscript, M.SigningBase, Countable, StanzasFit, LegacyAdmitted, Bind, StanzaFits,
      HasCollision;
    M.EncodedLength(M.Unsigned(a.metadata));
    M.EncodedLength(M.Unsigned(b.metadata));
    var h, h' := pr.crypto.hash(a.plain), pr.crypto.hash(b.plain);
    var message := SignedMessage(pr, a.preamble, a.header, a.metadata, h, |a.plain|).value;
    var message' := SignedMessage(pr, b.preamble, b.header, b.metadata, h', |b.plain|).value;
    BindInjective(SigningContext(a.preamble), message, SigningContext(b.preamble), message');
    ContextsDiffer();
    var base, base' := M.SigningBase(a.metadata).value, M.SigningBase(b.metadata).value;
    BasesAreBlobs(a.metadata, b.metadata);
    if a.preamble.IsLegacy() {
      LegacyInjective(a.header, base, h, |a.plain|, b.header, base', h', |b.plain|);
    } else {
      CurrentInjective(a.preamble, a.header, base, h, |a.plain|, b.preamble, b.header, base', h', |b.plain|);
      StanzasEqual(a.header, b.header);
    }
    M.SigningBaseInjective(a.metadata, b.metadata);
    EqualDigests(pr.crypto.hash, {a.plain, b.plain}, a.plain, b.plain);
  }

  lemma BasesAreBlobs(a: M.Metadata, b: M.Metadata)
    requires M.SigningBase(a).Ok? && M.SigningBase(b).Ok?
    ensures |M.SigningBase(a).value| < 0x2000_0000_0000_0000 && |M.SigningBase(b).value| < 0x2000_0000_0000_0000
  {
    M.EncodedLength(M.Unsigned(a));
    M.EncodedLength(M.Unsigned(b));
    hide M.Encoded;
  }

  lemma StanzasEqual(a: ProtectedHeader, b: ProtectedHeader)
    requires StanzasFit(a) && StanzasFit(b) && SameStanzas(a.recipients, b.recipients)
    ensures a.recipients == b.recipients
  {
    hide StanzaFits;
    FittingStanzasEqual(a.recipients, b.recipients);
  }

  /**
   No signature can be added to or stripped from an accepted container: a signer is reported if and
   only if the preamble, which the header's MAC covers, says signed, and then one signature stands.
   */
  lemma SignerExactlyWhenSaid(pr: Primitives, p: Preamble, h: ProtectedHeader, m: M.Metadata, hash: Digest, len: u64)
    requires Countable(h) && VerifiedSigner(pr, p, h, m, hash, len).Ok?
    ensures VerifiedSigner(pr, p, h, m, hash, len).value.Some? <==> p.IsSigned()
    ensures p.IsSigned() <==> h.signatures != [] || m.signature.Some?
    ensures h.signatures == [] || m.signature.None?
  {
    hide SignedMessage, ValidKey, Verifies;
  }

  /** The verdict `signer` means that this key verified the message for exactly what was staged. */
  lemma AcceptedSignature(pr: Primitives, secret: Bytes, s: Bytes, key: Bytes, signed: iset<Bytes>)
    returns (read: Statement)
    requires Tagged(pr.cipher) && Unforgeable(pr.crypto, key, signed)
    requires Decrypted(pr, secret, s).0.Ok? && Decrypted(pr, secret, s).0.value.signer == Some(key)
    ensures Opened(pr, secret, s).Ok?
    ensures var (u, _) := Opened(pr, secret, s).value;
            read == Statement(u.preamble, u.header, Decrypted(pr, secret, s).0.value.metadata,
                              Decrypted(pr, secret, s).1)
    ensures Sensible(read) && PayloadOf(pr, read) in signed
  {
    hide Opened, Unstream, Tagged, Unforgeable, SignedMessage, M.SigningBase, Countable, StanzasFit, LegacyAdmitted,
      ValidKey, Bind;
    var (u, payload) := Opened(pr, secret, s).value;
    OpenedCountable(pr, secret, s);
    UnstreamLength(u.stream, payload, 0);
    var plain := Decrypted(pr, secret, s).1;
    read := Statement(u.preamble, u.header, u.metadata, plain);
    SignerVerified(pr, u, plain, key, signed);
  }

  lemma SignerVerified(pr: Primitives, u: Unlocked, plain: Bytes, key: Bytes, signed: iset<Bytes>)
    requires Countable(u.header) && |plain| < 0x1_0000_0000_0000_0000 && Unforgeable(pr.crypto, key, signed)
    requires Concluded(pr, u, plain).Ok? && Concluded(pr, u, plain).value.signer == Some(key)
    ensures var message := SignedMessage(pr, u.preamble, u.header, u.metadata, pr.crypto.hash(plain), |plain|);
            message.Ok? && Bind(SigningContext(u.preamble), message.value) in signed
  {
    hide SignedMessage, ValidKey, Bind, Countable;
  }

  /** What was read of a container is what a statement says, up to a hash collision of plaintexts. */
  ghost predicate Says(pr: Primitives, secret: Bytes, s: Bytes, st: Statement)
    requires Tagged(pr.cipher)
  {
    && Opened(pr, secret, s).Ok?
    && var (u, _), plain := Opened(pr, secret, s).value, Decrypted(pr, secret, s).1;
       && u.preamble.IsLegacy() == st.preamble.IsLegacy()
       && (!st.preamble.IsLegacy() ==> u.preamble.minor == st.preamble.minor && u.preamble.flags == st.preamble.flags)
       && u.header.objectId == st.header.objectId && u.header.recipients == st.header.recipients
       && u.header.extensions == st.header.extensions && M.Unsigned(u.metadata) == M.Unsigned(st.metadata)
       && (plain == st.plain || HasCollision(pr.crypto.hash, {plain, st.plain}))
  }

  /**
   If a container is accepted as signed by a key, its holder signed a statement with this very
   version, recipients, extensions, metadata and plaintext, or two plaintexts collide.
   */
  lemma SignerMeantIt(pr: Primitives, secret: Bytes, s: Bytes, key: Bytes, signed: iset<Bytes>,
                      statements: iset<Statement>)
    returns (st: Statement)
    requires Tagged(pr.cipher) && Unforgeable(pr.crypto, key, signed) && SignedOnly(pr, signed, statements)
    requires Decrypted(pr, secret, s).0.Ok? && Decrypted(pr, secret, s).0.value.signer == Some(key)
    ensures st in statements && Says(pr, secret, s, st)
  {
    hide Opened, Decrypted, Sensible, PayloadOf, Unforgeable, Tagged, HasCollision;
    var read := AcceptedSignature(pr, secret, s, key, signed);
    st := StatementBehind(pr, read, signed, statements);
    SameStatement(pr, read, st);
    assert read.metadata == Opened(pr, secret, s).value.0.metadata by { AcceptedMetadata(pr, secret, s); }
  }

  lemma StatementBehind(pr: Primitives, read: Statement, signed: iset<Bytes>, statements: iset<Statement>)
    returns (st: Statement)
    requires SignedOnly(pr, signed, statements) && Sensible(read) && PayloadOf(pr, read) in signed
    ensures st in statements && Sensible(st) && PayloadOf(pr, st) == PayloadOf(pr, read)
  {
    hide SigningContext, Transcript, Bind, Countable, StanzasFit, LegacyAdmitted, M.SigningBase;
    var message := SignedMessage(pr, read.preamble, read.header, read.metadata, pr.crypto.hash(read.plain),
                                 |read.plain|).value;
    assert PayloadOf(pr, read) == Bind(SigningContext(read.preamble), message);
    st :| st in statements && PayloadOf(pr, read) == PayloadOf(pr, st);
  }

  lemma AcceptedMetadata(pr: Primitives, secret: Bytes, s: Bytes)
    requires Tagged(pr.cipher) && Decrypted(pr, secret, s).0.Ok?
    ensures Opened(pr, secret, s).Ok?
            && Decrypted(pr, secret, s).0.value.metadata == Opened(pr, secret, s).value.0.metadata
  {
    hide Opened, Unstream, VerifiedSigner, Tagged;
    OpenedCountable(pr, secret, s);
  }
}
