/** What a writer puts into a container, byte by byte, and when it writes one (crates/hide-object/src/lib.rs). */
module ContainerForms {
  import opened Aead
  import opened Bytes
  import opened ContainerRules
  import opened Containers
  import opened ContainerTheorems
  import opened ContainerWriting
  import opened Extensions
  import opened Hashing
  import opened HeaderCodec
  import opened HeaderRules
  import opened MetadataRules
  import opened PayloadRules
  import opened Payloads
  import opened Results
  import opened Signing
  import opened TranscriptRules
  import opened Transcripts
  import M = MetadataCodec

  /** The author's signature over the version, flags, recipients, metadata and plaintext. */
  function StanzaForm(pr: Primitives, m: M.Metadata, material: Material, recipients: seq<Stanza>, who: Author,
                      plain: Bytes): SignatureStanza
    requires |recipients| <= 64 && Writable(m.(signature := None)) && |plain| < 0x1_0000_0000_0000_0000
  {
    var signed := SignedForm(pr, Preamble(1, 1, 1), ProtectedHeader(material.id, recipients, [], [], []),
                             m.(signature := None), plain);
    SignatureStanza(who.key, who.sign(signed))
  }

  function MetadataWritten(pr: Primitives, m: M.Metadata, material: Material, recipients: seq<Stanza>,
                           author: Option<(Author, Placement)>, plain: Bytes): M.Metadata
    requires |recipients| <= 64 && Writable(m.(signature := None)) && |plain| < 0x1_0000_0000_0000_0000
  {
    match author
    case Some((who, Confidential)) => m.(signature := Some(StanzaForm(pr, m, material, recipients, who, plain)))
    case _ => m
  }

  function SignaturesWritten(pr: Primitives, m: M.Metadata, material: Material, recipients: seq<Stanza>,
                             author: Option<(Author, Placement)>, plain: Bytes): seq<SignatureStanza>
    requires |recipients| <= 64 && Writable(m.(signature := None)) && |plain| < 0x1_0000_0000_0000_0000
  {
    match author
    case Some((who, Public)) => [StanzaForm(pr, m, material, recipients, who, plain)]
    case _ => []
  }

  /** The metadata's form, under a key of its own and bound to the object and the suite. */
  function SealedMetadata(pr: Primitives, material: Material, metadata: Bytes): Bytes {
    pr.cipher.seal(pr.derive(material.cek, material.id, Ascii("HIDE/0.1 metadata")), Zeros(12),
                   Ascii("HIDE/0.1 metadata") + material.id + [0, 1], metadata)
  }

  /** The bytes are the container a writer makes of these. */
  ghost predicate WrittenAs(pr: Primitives, s: Bytes, m: M.Metadata, material: Material, recipients: seq<Stanza>,
                            author: Option<(Author, Placement)>, plain: Bytes, p: Preamble, h: ProtectedHeader,
                            mac: Digest)
    requires Tagged(pr.cipher)
  {
    && |recipients| <= 64 && |plain| <= 0x1_0000_0000_0000
    && Writable(m.(signature := None))
    && var written := MetadataWritten(pr, m, material, recipients, author, plain);
       && Writable(written)
       && LegalPreamble(p) && p.minor == 1 && p.flags == (if author.Some? then 1 else 0)
       && LegalHeader(h) && h.objectId == material.id && h.recipients == recipients && h.extensions == []
       && h.encryptedMetadata == SealedMetadata(pr, material, MetadataForm(written))
       && h.signatures == SignaturesWritten(pr, m, material, recipients, author, plain)
       && mac == pr.mac(pr.derive(material.cek, material.id, Ascii("HIDE/0.1 header-mac")), CoveredForm(p, h))
       && var o := StreamForm(pr, material.cek, h, material.salt);
          && Short(Ciphertexts(o, plain))
          && Consists(s, p, h, mac, material.salt, Parcels(Ciphertexts(o, plain)))
  }

  lemma StanzaIsForm(pr: Primitives, m: M.Metadata, material: Material, recipients: seq<Stanza>, who: Author,
                     plain: Bytes)
    requires |recipients| <= MAX_RECIPIENTS && |plain| <= MAX_SIGNED_INPUT && Writable(m.(signature := None))
    ensures SignatureFor(pr, m, material, recipients, who, plain)
         == Ok(StanzaForm(pr, m, material, recipients, who, plain))
  {
    hide SignedMessage, SignedForm, Bind, Writable;
    var unsigned := m.(signature := None);
    MessageIsSigned(pr, Preamble(1, 1, 1), Draft(material, recipients), unsigned, plain);
    SameBase(pr, Preamble(1, 1, 1), Draft(material, recipients), m, plain);
  }

  lemma SameBase(pr: Primitives, p: Preamble, h: ProtectedHeader, m: M.Metadata, plain: Bytes)
    requires Countable(h) && |plain| < 0x1_0000_0000_0000_0000
    ensures SignedMessage(pr, p, h, m, pr.crypto.hash(plain), |plain|)
         == SignedMessage(pr, p, h, m.(signature := None), pr.crypto.hash(plain), |plain|)
  {
    hide M.Encoded, Transcript;
  }

  lemma SealedIsForm(pr: Primitives, material: Material, metadata: Bytes)
    ensures SealMetadata(pr, material.cek, material.id, metadata) == SealedMetadata(pr, material, metadata)
  {
    TwoBytes(1);
  }

  lemma AuthoredIsForm(pr: Primitives, m: M.Metadata, material: Material, recipients: seq<Stanza>,
                       author: Option<(Author, Placement)>, plain: Bytes)
    requires |recipients| <= MAX_RECIPIENTS && (author.Some? ==> |plain| <= MAX_SIGNED_INPUT)
    requires |plain| < 0x1_0000_0000_0000_0000 && Writable(m.(signature := None))
    ensures Authored(pr, m, material, recipients, author, plain)
         == Ok((MetadataWritten(pr, m, material, recipients, author, plain),
                SignaturesWritten(pr, m, material, recipients, author, plain)))
  {
    hide StanzaForm, SignatureFor, Writable;
    if author.Some? {
      StanzaIsForm(pr, m, material, recipients, author.value.0, plain);
    }
  }

  lemma FrontIsForm(pr: Primitives, material: Material, h: ProtectedHeader, flags: byte)
    returns (p: Preamble, mac: Digest)
    requires Front(pr, material, h, flags).Ok? && h.objectId == material.id
    ensures LegalPreamble(p) && LegalHeader(h) && p.minor == 1 && p.flags == flags
    ensures mac == pr.mac(pr.derive(material.cek, material.id, Ascii("HIDE/0.1 header-mac")), CoveredForm(p, h))
    ensures var outer := OuterForm(HeaderForm(h), mac);
            && |outer| == p.headerLen
            && Front(pr, material, h, flags)
               == Ok((PreambleForm(p.headerLen, p.minor, p.flags) + outer, HeaderForm(h)))
  {
    hide Front, Encoded, Decoded, DecodedOuter, DecodePreamble, Preamble.Encode, HeaderForm, PreambleForm,
      LegalStanza, LegalSignature;
    var outer: Bytes;
    p, outer, mac := FrontRoundTrip(pr, material, h, flags);
    HeaderRules.DecodedExactly(Encoded(h).value, h);
    PreambleExactly(p.Encode(), p);
    OuterExactly(outer, HeaderForm(h), mac);
    assert outer == OuterForm(HeaderForm(h), mac);
    assert Front(pr, material, h, flags).value == (p.Encode() + outer, HeaderForm(h));
  }

  /** Whatever is written is written so. */
  lemma EncryptedIsForm(pr: Primitives, m: M.Metadata, material: Material, recipients: seq<Stanza>,
                        author: Option<(Author, Placement)>, plain: Bytes)
    returns (p: Preamble, h: ProtectedHeader, mac: Digest)
    requires Tagged(pr.cipher) && Encrypted(pr, m, material, recipients, author, plain).Ok?
    ensures WrittenAs(pr, Encrypted(pr, m, material, recipients, author, plain).value, m, material, recipients, author,
                      plain, p, h, mac)
  {
    hide Prepare, Authored, Front, M.Encoded, M.SigningBase, Stream, Parcels, Ciphertexts, Short, HeaderForm,
      MetadataForm, PreambleForm, OuterForm, MetadataWritten, SignaturesWritten, SealMetadata, SealedMetadata,
      LegalStanza, LegalSignature, Writable, Tagged, PayloadObject, StreamForm, FlagsOf;
    var made := Prepare(pr, m, material, recipients, author, plain).value;
    PreparedParts(pr, m, material, recipients, author, plain);
    h := made.header;
    BaseIsWritable(m);
    AuthoredIsForm(pr, m, material, recipients, author, plain);
    MetadataRules.EncodedExactly(made.metadata);
    WritableFew(made.metadata);
    SealedIsForm(pr, material, MetadataForm(made.metadata));
    p, mac := FrontIsForm(pr, material, h, FlagsOf(author));
    StreamIsObject(pr, material.cek, h, material.salt);
    var o := StreamForm(pr, material.cek, h, material.salt);
    CipherIs(pr, material, h);
    StreamIsForm(o, plain);
    FlagsAre(author);
    var front := PreambleForm(p.headerLen, p.minor, p.flags);
    var outer := OuterForm(HeaderForm(h), mac);
    assert (front + outer) + (material.salt + Stream(o, plain, 0))
      == front + outer + material.salt + Stream(o, plain, 0);
  }

  lemma WritableFew(m: M.Metadata)
    requires Writable(m)
    ensures |m.extensions| <= 16
  {
    hide SafeName;
  }

  lemma FlagsAre(author: Option<(Author, Placement)>)
    ensures FlagsOf(author) == if author.Some? then 1 else 0
  {
  }

  lemma CipherIs(pr: Primitives, material: Material, h: ProtectedHeader)
    requires LegalHeader(h)
    ensures StreamForm(pr, material.cek, h, material.salt).cipher == pr.cipher
  {
  }

  lemma BaseIsWritable(m: M.Metadata)
    ensures M.SigningBase(m).Ok? <==> Writable(m.(signature := None))
  {
    MetadataRules.EncodedExactly(m.(signature := None));
    hide M.Encoded, Writable, MetadataForm;
  }

  /** The metadata to be sealed, with 3373 bytes where a new signature will stand. */
  function MetadataToBe(m: M.Metadata, author: Option<(Author, Placement)>): M.Metadata {
    match author
    case Some((who, Confidential)) => m.(signature := Some(SignatureStanza(who.key, seq(3373, _ => 0))))
    case _ => m
  }

  /** When X-Wing recipients are given: what is refused, and why; anything else is written. */
  lemma EncryptedWhen(pr: Primitives, m: M.Metadata, material: Material, recipients: seq<Stanza>,
                      author: Option<(Author, Placement)>, plain: Bytes)
    requires Tagged(pr.cipher) && forall i :: 0 <= i < |recipients| ==> recipients[i].XWing?
    ensures var toBe, result := MetadataToBe(m, author), Encrypted(pr, m, material, recipients, author, plain);
            if recipients == [] || |recipients| > 64 then result == Err(InvalidRecipients)
            else if author.Some? && |plain| > 0x4000_0000 then result == Err(Payload(ObjectTooLarge))
            else if !Writable(toBe) || |MetadataForm(toBe)| > 262144 then result == Err(Format(InvalidMetadata))
            else if exists i :: 0 <= i < |recipients| && !LegalStanza(recipients[i])
            then result == Err(Format(MalformedHeader))
            else if |plain| > 0x1_0000_0000_0000 then result == Err(Payload(ObjectTooLarge))
            else result.Ok?
  {
    hide Encrypted, M.Encoded, Writable, MetadataForm, StanzaFits, LegalStanza, Tagged;
    assert Prospect(m, author) == MetadataToBe(m, author);
    MetadataRules.EncodedExactly(MetadataToBe(m, author));
    StanzasExactly(recipients);
    EncryptedExactly(pr, m, material, recipients, author, plain);
  }
}
