/** When a container can be written at all (crates/hide-object/src/lib.rs, crates/hide-format/src/codec.rs). */
module ContainerWriting {
  import opened Aead
  import opened Bytes
  import opened Cbor
  import opened CborLists
  import opened Containers
  import opened ContainerTheorems
  import opened Extensions
  import opened Hashing
  import opened HeaderCodec
  import opened PayloadReaders
  import opened Payloads
  import opened PayloadTheorems
  import opened Results
  import opened Signing
  import opened Streams
  import opened Transcripts
  import M = MetadataCodec

  // ---------------------------------------------------------------- sizes

  /** One signature or another, the metadata is equally long. */
  lemma SignatureLength(m: M.Metadata, a: SignatureStanza, b: SignatureStanza)
    requires SignatureFits(a) && SignatureFits(b)
    ensures |M.PutItems(m.(signature := Some(a)))| == |M.PutItems(m.(signature := Some(b)))|
  {
    hide PutAll, HeadBytes;
    var tail := PutAll(PutExtension, m.extensions, []);
    var x, y := M.PutOptionalSignature(Some(a), tail), M.PutOptionalSignature(Some(b), tail);
    assert |x| == |y|;
    TextLength(2, m.mediaType, x, y);
    TextLength(1, m.filename, M.PutOptionalText(2, m.mediaType, x), M.PutOptionalText(2, m.mediaType, y));
  }

  lemma TextLength(field: byte, text: Option<M.Utf8Text>, a: Bytes, b: Bytes)
    requires |a| == |b|
    ensures |M.PutOptionalText(field, text, a)| == |M.PutOptionalText(field, text, b)|
  {
    hide HeadBytes;
  }

  predicate AllXWing(recipients: seq<Stanza>) {
    forall i :: 0 <= i < |recipients| ==> recipients[i].XWing?
  }

  lemma StanzaLength(stanza: Stanza, rest: Bytes)
    requires stanza.XWing? && StanzaFits(stanza)
    ensures |PutStanza(stanza, rest)| <= 1204 + |rest|
  {
    hide HeadBytes, PutAll;
    ItemsOf(stanza, rest);
  }

  lemma ItemsOf(stanza: Stanza, rest: Bytes)
    requires stanza.XWing?
    ensures PutAll(PutBytes, stanza.Items(), rest) == PutBytes(stanza.encapsulation, PutBytes(stanza.wrappedCek, rest))
  {
    hide PutBytes;
    assert stanza.Items()[1..] == [stanza.wrappedCek];
    assert [stanza.wrappedCek][1..] == [];
    assert PutAll(PutBytes, [stanza.wrappedCek], rest) == PutBytes(stanza.wrappedCek, rest);
  }

  lemma {:induction false} StanzasLength(stanzas: seq<Stanza>, rest: Bytes)
    requires AllXWing(stanzas) && forall i :: 0 <= i < |stanzas| ==> StanzaFits(stanzas[i])
    ensures |PutAll(PutStanza, stanzas, rest)| <= 1204 * |stanzas| + |rest|
    decreases |stanzas|
  {
    hide PutStanza, StanzaFits;
    if stanzas != [] {
      StanzasLength(stanzas[1..], rest);
      StanzaLength(stanzas[0], PutAll(PutStanza, stanzas[1..], rest));
    }
  }

  lemma SignaturesLength(signatures: seq<SignatureStanza>)
    requires |signatures| <= 1 && forall i :: 0 <= i < |signatures| ==> SignatureFits(signatures[i])
    ensures |PutAll(PutSignature, signatures, [])| <= 5393
  {
    hide HeadBytes;
    if signatures != [] {
      assert PutAll(PutSignature, signatures[1..], []) == [];
    }
  }

  lemma NoExtensions()
    ensures PutAll(PutExtension, [], []) == []
  {
  }

  /** A header for X-Wing recipients is never too long. */
  lemma HeaderLength(h: ProtectedHeader)
    requires 0 < |h.recipients| <= MAX_RECIPIENTS && AllXWing(h.recipients) && StanzasFit(h)
    requires MetadataLengthOk(|h.encryptedMetadata|) && h.extensions == []
    requires |h.signatures| <= 1 && forall i :: 0 <= i < |h.signatures| ==> SignatureFits(h.signatures[i])
    ensures Encoded(h) == Ok(PutHeader(h)) && 0 < |PutHeader(h)| < 350_000
  {
    hide HeadBytes, PutStanza, PutSignature, StanzaFits, SignatureFits, PutAll;
    NoExtensions();
    SignaturesLength(h.signatures);
    StanzasLength(h.recipients, PutSealed(h, []));
  }

  lemma FrontFits(pr: Primitives, material: Material, h: ProtectedHeader, flags: byte)
    requires Encoded(h).Ok? && 0 < |Encoded(h).value| < 350_000 && flags <= FLAG_SIGNED
    ensures Front(pr, material, h, flags).Ok?
  {
    hide Encoded, HeaderKey, Preamble.Encode, HeadBytes;
  }

  // ---------------------------------------------------------------- the exact condition

  /** The metadata that will be sealed, but for the bytes of a new signature. */
  function Prospect(m: M.Metadata, author: Option<(Author, Placement)>): M.Metadata {
    match author
    case Some((who, Confidential)) => m.(signature := Some(SignatureStanza(who.key, Zeros(SIGNATURE_LENGTH))))
    case _ => m
  }

  /** Why a container cannot be written, from what is known before anything is encrypted. */
  function Refusal(m: M.Metadata, recipients: seq<Stanza>, author: Option<(Author, Placement)>, plain: Bytes)
    : Option<ContainerError>
  {
    var metadata := M.Encoded(Prospect(m, author));
    if recipients == [] || |recipients| > MAX_RECIPIENTS then Some(InvalidRecipients)
    else if author.Some? && |plain| > MAX_SIGNED_INPUT then Some(Payload(ObjectTooLarge))
    else if metadata.Err? || |metadata.value| > MAX_METADATA_LEN then Some(Format(InvalidMetadata))
    else if exists i :: 0 <= i < |recipients| && !StanzaFits(recipients[i]) then Some(Format(MalformedHeader))
    else if |plain| > MAX_PLAINTEXT then Some(Payload(ObjectTooLarge))
    else None
  }

  /** What is sealed can be encoded exactly when the prospect can, and is as long. */
  lemma ProspectIsExact(pr: Primitives, m: M.Metadata, material: Material, recipients: seq<Stanza>,
                        author: Option<(Author, Placement)>, plain: Bytes)
    requires |recipients| <= MAX_RECIPIENTS && (author.Some? ==> |plain| <= MAX_SIGNED_INPUT) && M.SigningBase(m).Ok?
    ensures Authored(pr, m, material, recipients, author, plain).Ok?
    ensures var (written, signatures) := Authored(pr, m, material, recipients, author, plain).value;
            && |signatures| <= 1 && (forall i :: 0 <= i < |signatures| ==> SignatureFits(signatures[i]))
            && (M.Encoded(written).Ok? <==> M.Encoded(Prospect(m, author)).Ok?)
            && (M.Encoded(written).Err? ==> M.Encoded(written) == Err(InvalidMetadata))
            && (M.Encoded(written).Ok? ==> |M.Encoded(written).value| == |M.Encoded(Prospect(m, author)).value|)
  {
    hide M.PutItems, ExtensionsOk, M.ValidFilename, M.ValidMediaType, Transcript, Bind, HeadBytes;
    M.EncodedLength(M.Unsigned(m));
    var authored := Authored(pr, m, material, recipients, author, plain).value;
    if author.Some? && author.value.1.Confidential? {
      SignatureLength(m, authored.0.signature.value, Prospect(m, author).signature.value);
    }
  }

  lemma BaseOfProspect(m: M.Metadata, author: Option<(Author, Placement)>)
    ensures M.Encoded(Prospect(m, author)).Ok? ==> M.SigningBase(m).Ok?
    ensures M.SigningBase(m).Err? ==> M.SigningBase(m) == Err(InvalidMetadata)
  {
    hide M.PutItems, ExtensionsOk, M.ValidFilename, M.ValidMediaType, HeadBytes;
  }

  /** A writer with X-Wing recipients refuses exactly what `Refusal` says, and for that reason. */
  lemma EncryptedExactly(pr: Primitives, m: M.Metadata, material: Material, recipients: seq<Stanza>,
                         author: Option<(Author, Placement)>, plain: Bytes)
    requires Tagged(pr.cipher) && AllXWing(recipients)
    ensures match Refusal(m, recipients, author, plain)
            case None => Encrypted(pr, m, material, recipients, author, plain).Ok?
            case Some(error) => Encrypted(pr, m, material, recipients, author, plain) == Err(error)
  {
    hide Prepare, M.Encoded, Prospect, StanzaFits, Stream, Tagged, AllXWing;
    if 0 < |recipients| <= MAX_RECIPIENTS && (author.Some? ==> |plain| <= MAX_SIGNED_INPUT) {
      PreparedExactly(pr, m, material, recipients, author, plain);
    }
  }

  lemma PreparedExactly(pr: Primitives, m: M.Metadata, material: Material, recipients: seq<Stanza>,
                        author: Option<(Author, Placement)>, plain: Bytes)
    requires Tagged(pr.cipher) && AllXWing(recipients)
    requires 0 < |recipients| <= MAX_RECIPIENTS && (author.Some? ==> |plain| <= MAX_SIGNED_INPUT)
    ensures var metadata, made := M.Encoded(Prospect(m, author)), Prepare(pr, m, material, recipients, author, plain);
            if metadata.Err? || |metadata.value| > MAX_METADATA_LEN then made == Err(Format(InvalidMetadata))
            else if exists i :: 0 <= i < |recipients| && !StanzaFits(recipients[i])
            then made == Err(Format(MalformedHeader))
            else made.Ok?
  {
    hide Authored, M.Encoded, M.SigningBase, Prospect, StanzaFits, SignatureFits, Front, SealMetadata, AllXWing, Tagged;
    BaseOfProspect(m, author);
    if M.SigningBase(m).Ok? {
      ProspectIsExact(pr, m, material, recipients, author, plain);
      var (written, signatures) := Authored(pr, m, material, recipients, author, plain).value;
      if M.Encoded(written).Ok? {
        M.EncodedLength(written);
        SealedLength(pr, material, M.Encoded(written).value);
        var sealed := SealMetadata(pr, material.cek, material.id, M.Encoded(written).value);
        var h := ProtectedHeader(material.id, recipients, sealed, signatures, []);
        FrontExactly(pr, material, h, FlagsOf(author));
      }
    }
  }

  lemma SealedLength(pr: Primitives, material: Material, metadata: Bytes)
    requires Tagged(pr.cipher)
    ensures |SealMetadata(pr, material.cek, material.id, metadata)| == |metadata| + TAG_LEN
  {
    hide MetadataKey, MetadataAad;
  }

  lemma FrontExactly(pr: Primitives, material: Material, h: ProtectedHeader, flags: byte)
    requires 0 < |h.recipients| <= MAX_RECIPIENTS && AllXWing(h.recipients) && h.extensions == []
            && flags <= FLAG_SIGNED
    requires |h.encryptedMetadata| >= TAG_LEN
    requires |h.signatures| <= 1 && forall i :: 0 <= i < |h.signatures| ==> SignatureFits(h.signatures[i])
    ensures if |h.encryptedMetadata| > MAX_METADATA_LEN + TAG_LEN
            then Front(pr, material, h, flags) == Err(Format(InvalidMetadata))
            else if exists i :: 0 <= i < |h.recipients| && !StanzaFits(h.recipients[i])
            then Front(pr, material, h, flags) == Err(Format(MalformedHeader))
            else Front(pr, material, h, flags).Ok?
  {
    hide PutHeader, StanzaFits, SignatureFits, HeaderKey, Preamble.Encode, AllXWing;
    if MetadataLengthOk(|h.encryptedMetadata|) && StanzasFit(h) {
      HeaderLength(h);
      FrontFits(pr, material, h, flags);
    }
  }

  // ---------------------------------------------------------------- metadata that is already signed

  /**
   Metadata that carries a signature is no reason to refuse: the container is written like any
   other, and then every recipient refuses it, unless a confidential signature has taken its place.
   */
  lemma SignedMetadataIsRefused(pr: Primitives, secret: Bytes, m: M.Metadata, material: Material,
                                recipients: seq<Stanza>,
                                author: Option<(Author, Placement)>, signed: iset<Bytes>, plain: Bytes)
    requires Tagged(pr.cipher) && AllXWing(recipients) && Refusal(m, recipients, author, plain).None?
    requires m.signature.Some? && (author.Some? ==> author.value.1.Public?)
    ensures var written := Encrypted(pr, m, material, recipients, author, plain);
            && written.Ok?
            && (OpensOwn(pr, m, material, recipients, author, plain)
                && OpensHonestly(pr, secret, material, recipients) && IsRecipient(pr, secret, material, recipients)
                && (author.Some? ==> Signs(pr, author.value.0, signed, Intended(m, material, recipients, plain)))
                ==> Decrypted(pr, secret, written.value)
                    == (Err(if author.Some? then InvalidSignature else UnexpectedSignature), plain))
  {
    hide Encrypted, Decrypted, Refusal, OpensOwn, OpensHonestly, IsRecipient, Signs, AllXWing, Tagged, Authored,
      Intended;
    EncryptedExactly(pr, m, material, recipients, author, plain);
    if OpensOwn(pr, m, material, recipients, author, plain) && OpensHonestly(pr, secret, material, recipients)
       && (author.Some? ==> Signs(pr, author.value.0, signed, Intended(m, material, recipients, plain))) {
      ContainerRoundTrip(pr, secret, m, material, recipients, author, signed, plain);
    }
  }

  // ---------------------------------------------------------------- a container written from a reader

  /** The container an unsigned write leaves, with the payload its reader led to. */
  function Streamed(pr: Primitives, material: Material, made: Prepared, fills: seq<Bytes>): Bytes {
    made.front + (material.salt + Emit(StreamUnder(pr, material, made.protected), fills, 0))
  }

  /**
   An unsigned container that was written without an error is opened by its recipients, to all of the
   input, if and only if the reader did not starve. Otherwise they refuse it as an invalid record,
   unless every buffer but the last was full; then they accept it, with less than the input.
   */
  lemma StreamedOpensExactly(pr: Primitives, secret: Bytes, m: M.Metadata, material: Material, recipients: seq<Stanza>,
                             script: seq<Event>, plain: Bytes)
    requires Tagged(pr.cipher) && |recipients| <= MAX_RECIPIENTS && m.signature.None? && Steady(script)
    requires OpensHonestly(pr, secret, material, recipients) && IsRecipient(pr, secret, material, recipients)
    requires Prepare(pr, m, material, recipients, None, plain).Ok?
    requires var made, fills := Prepare(pr, m, material, recipients, None, plain).value, TakenAll(script, plain).fills;
             && Reveals(pr, material, made.header, made.metadata) && |fills| <= MAX_CHUNKS
             && FillsOpen(StreamUnder(pr, material, made.protected), fills)
    ensures var made, fills := Prepare(pr, m, material, recipients, None, plain).value, TakenAll(script, plain).fills;
            var read := Decrypted(pr, secret, Streamed(pr, material, made, fills));
            && (read == (Ok(VerifiedObject(m, |plain|, None)), plain) <==> !Starves(script, |plain|, CHUNK_LEN))
            && (!Full(fills) <==> read.0 == Err(Payload(InvalidRecord)))
            && (Full(fills) <==> read.0.Ok?)
            && read.1 <= plain
  {
    hide Prepare, Authored, Front, Opened, Unstream, Emit, IsRecipient, OpensHonestly, VerifiedSigner, Reveals, Tagged,
      PayloadObject, Countable, TakenAll, Starves, Steady, Full, FillsOpen;
    var made, fills := Prepare(pr, m, material, recipients, None, plain).value, TakenAll(script, plain).fills;
    var o := StreamUnder(pr, material, made.protected);
    var payload := Emit(o, fills, 0);
    PreparedParts(pr, m, material, recipients, None, plain);
    PlainMetadata(pr, m, material, recipients, plain);
    var u := OpenedWritten(pr, secret, material, m, made.header, FlagsOf(None), payload);
    WrittenOpensExactly(o, script, plain);
    UnstreamLength(o, payload, 0);
    NoSigner(pr, u, pr.crypto.hash(Unstream(o, payload, 0).plain), |Unstream(o, payload, 0).plain|);
  }

  lemma PlainMetadata(pr: Primitives, m: M.Metadata, material: Material, recipients: seq<Stanza>, plain: Bytes)
    requires |recipients| <= MAX_RECIPIENTS
    ensures Authored(pr, m, material, recipients, None, plain) == Ok((m, []))
  {
  }

  lemma NoSigner(pr: Primitives, u: Unlocked, hash: Digest, len: u64)
    requires Countable(u.header) && u.header.signatures == [] && u.metadata.signature.None?
    requires u.preamble.minor == CURRENT_MINOR && u.preamble.flags == 0
    ensures VerifiedSigner(pr, u.preamble, u.header, u.metadata, hash, len) == Ok(None)
  {
  }
}
