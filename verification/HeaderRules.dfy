/** Exactly which headers are written and read, and their bytes (crates/hide-format/src/codec.rs). */
module HeaderRules {
  import opened Bytes
  import opened Cbor
  import opened CborLists
  import opened ExtensionRules
  import opened Extensions
  import opened Hashing
  import opened HeaderCodec
  import opened Results
  import opened WireForms

  predicate LegalStanza(stanza: Stanza) {
    match stanza
    case XWing(encapsulation, wrappedCek) => |encapsulation| == 1120 && |wrappedCek| == 48
    case Unknown(tag, fields) =>
      2 <= tag <= 65535 && |fields| <= 7 && forall i :: 0 <= i < |fields| ==> |fields[i]| <= 65536
  }

  predicate LegalSignature(stanza: SignatureStanza) {
    |stanza.verifyingKey| == 1984 && |stanza.signature| == 3373
  }

  // ---------------------------------------------------------------- the bytes

  /** An array of the tag and the stanza's byte strings. */
  function StanzaForm(stanza: Stanza): Bytes {
    match stanza
    case XWing(encapsulation, wrappedCek) => [0x83, 1] + ByteString(encapsulation) + ByteString(wrappedCek)
    case Unknown(tag, fields) => Item(4, 1 + |fields|) + Item(0, tag) + Joined(ByteString, fields)
  }

  /** A map: suite 1, object id, recipients, encrypted metadata and signatures under 1 to 5, then the extensions. */
  function HeaderForm(h: ProtectedHeader): Bytes
    requires |h.recipients| <= 64 && |h.signatures| <= 1 && |h.extensions| <= 16
  {
    Item(5, 5 + |h.extensions|)
    + [1, 1]
    + [2] + ByteString(h.objectId)
    + [3] + Item(4, |h.recipients|) + Joined(StanzaForm, h.recipients)
    + [4] + ByteString(h.encryptedMetadata)
    + [5] + Item(4, |h.signatures|) + Joined(SignatureForm, h.signatures)
    + Joined(ExtensionForm, h.extensions)
  }

  lemma StanzaIsForm(stanza: Stanza, rest: Bytes)
    ensures PutStanza(stanza, rest) == StanzaForm(stanza) + rest
  {
    hide PutUint, PutBytes, PutArray, PutAll, Joined, Item, ByteString;
    SmallItems();
    forall field: Blob, more: Bytes | field in stanza.Items()
      ensures PutBytes(field, more) == ByteString(field) + more
    {
      BytesForm(field, more);
    }
    AllForm(PutBytes, ByteString, stanza.Items(), rest);
    var body := PutAll(PutBytes, stanza.Items(), rest);
    UintForm(stanza.Tag(), body);
    ArrayForm(1 + |stanza.Items()|, PutUint(stanza.Tag(), body));
    if stanza.XWing? {
      TwoJoined(stanza.encapsulation, stanza.wrappedCek);
    }
  }

  lemma TwoJoined(a: Blob, b: Blob)
    ensures Joined(ByteString, [a, b]) == ByteString(a) + ByteString(b)
  {
    hide ByteString;
    assert [a, b][1..] == [b] && [b][1..] == [];
    assert Joined(ByteString, [b]) == ByteString(b);
  }

  lemma StanzasAreForms(stanzas: seq<Stanza>, rest: Bytes)
    ensures PutAll(PutStanza, stanzas, rest) == Joined(StanzaForm, stanzas) + rest
  {
    hide PutStanza, StanzaForm, Joined;
    forall stanza: Stanza, more: Bytes | stanza in stanzas
      ensures PutStanza(stanza, more) == StanzaForm(stanza) + more
    {
      StanzaIsForm(stanza, more);
    }
    AllForm(PutStanza, StanzaForm, stanzas, rest);
  }

  lemma SignaturesAreForms(signatures: seq<SignatureStanza>, rest: Bytes)
    ensures PutAll(PutSignature, signatures, rest) == Joined(SignatureForm, signatures) + rest
  {
    hide PutSignature, SignatureForm, Joined;
    forall stanza: SignatureStanza, more: Bytes | stanza in signatures
      ensures PutSignature(stanza, more) == SignatureForm(stanza) + more
    {
      SignatureIsForm(stanza, more);
    }
    AllForm(PutSignature, SignatureForm, signatures, rest);
  }

  lemma IdentityForm(h: ProtectedHeader, rest: Bytes)
    requires |h.extensions| <= 16
    ensures PutIdentity(h, rest) == Item(5, 5 + |h.extensions|) + [1, 1] + [2] + ByteString(h.objectId) + rest
  {
    hide PutUint, PutBytes, PutMap, Item, ByteString;
    SmallItems();
    var s3 := PutBytes(h.objectId, rest);
    var s2 := PutUint(2, s3);
    var s1 := PutUint(SUITE, s2);
    BytesForm(h.objectId, rest);
    UintForm(2, s3);
    UintForm(SUITE, s2);
    UintForm(1, s1);
    MapForm(5 + |h.extensions|, PutUint(1, s1));
  }

  lemma RecipientsForm(h: ProtectedHeader, rest: Bytes)
    requires |h.recipients| <= 64
    ensures PutRecipients(h, rest) == [3] + Item(4, |h.recipients|) + Joined(StanzaForm, h.recipients) + rest
  {
    hide PutUint, PutArray, PutAll, Item, Joined, StanzaForm, PutStanza;
    SmallItems();
    var s := PutAll(PutStanza, h.recipients, rest);
    StanzasAreForms(h.recipients, rest);
    ArrayForm(|h.recipients|, s);
    UintForm(3, PutArray(|h.recipients|, s));
  }

  lemma SealedForm(h: ProtectedHeader, rest: Bytes)
    requires |h.signatures| <= 1
    ensures PutSealed(h, rest)
         == [4] + ByteString(h.encryptedMetadata)
            + [5] + Item(4, |h.signatures|) + Joined(SignatureForm, h.signatures) + rest
  {
    hide PutUint, PutBytes, PutArray, PutAll, Item, ByteString, Joined, SignatureForm, PutSignature;
    SmallItems();
    var s3 := PutAll(PutSignature, h.signatures, rest);
    var s2 := PutArray(|h.signatures|, s3);
    SignaturesAreForms(h.signatures, rest);
    ArrayForm(|h.signatures|, s3);
    UintForm(5, s2);
    BytesForm(h.encryptedMetadata, PutUint(5, s2));
    UintForm(4, PutBytes(h.encryptedMetadata, PutUint(5, s2)));
  }

  lemma HeaderIsForm(h: ProtectedHeader)
    requires |h.recipients| <= 64 && |h.signatures| <= 1 && |h.extensions| <= 16
    ensures PutHeader(h) == HeaderForm(h)
  {
    hide PutIdentity, PutRecipients, PutSealed, PutAll, Item, ByteString, Joined, StanzaForm, SignatureForm,
      ExtensionForm, PutExtension;
    var s3 := PutAll(PutExtension, h.extensions, []);
    var s2 := PutSealed(h, s3);
    ExtensionsAreForms(h.extensions, []);
    assert Joined(ExtensionForm, h.extensions) + [] == Joined(ExtensionForm, h.extensions);
    SealedForm(h, s3);
    RecipientsForm(h, s2);
    IdentityForm(h, PutRecipients(h, s2));
  }

  // ---------------------------------------------------------------- exactly what is written and read

  predicate LegalHeader(h: ProtectedHeader) {
    && 1 <= |h.recipients| <= 64 && (forall i :: 0 <= i < |h.recipients| ==> LegalStanza(h.recipients[i]))
    && 16 <= |h.encryptedMetadata| <= 262160
    && |h.signatures| <= 1 && (forall i :: 0 <= i < |h.signatures| ==> LegalSignature(h.signatures[i]))
    && LegalExtensions(h.extensions)
    && |HeaderForm(h)| <= 1048576
  }

  /** What is written, and the reason for every refusal. */
  lemma EncodedExactly(h: ProtectedHeader)
    ensures Encoded(h)
         == if h.recipients == [] || |h.recipients| > 64 then Err(MalformedHeader)
            else if |h.encryptedMetadata| < 16 || |h.encryptedMetadata| > 262160 then Err(InvalidMetadata)
            else if |h.signatures| > 1 || !LegalExtensions(h.extensions) then Err(MalformedHeader)
            else if exists i :: 0 <= i < |h.recipients| && !LegalStanza(h.recipients[i]) then Err(MalformedHeader)
            else if exists i :: 0 <= i < |h.signatures| && !LegalSignature(h.signatures[i]) then Err(MalformedHeader)
            else if |HeaderForm(h)| > 1048576 then Err(HeaderTooLarge)
            else Ok(HeaderForm(h))
  {
    hide PutHeader, HeaderForm, ExtensionsOk, LegalExtensions, StanzaFits, LegalStanza, SignatureFits, LegalSignature;
    StanzasExactly(h.recipients);
    SignaturesExactly(h.signatures);
    ExtensionsExactly(h.extensions);
    if |h.recipients| <= 64 && |h.signatures| <= 1 && ExtensionsOk(h.extensions) {
      ExtensionsFew(h.extensions);
      HeaderIsForm(h);
      NotEmpty(h);
    }
  }

  lemma StanzasExactly(stanzas: seq<Stanza>)
    ensures (exists i :: 0 <= i < |stanzas| && !StanzaFits(stanzas[i]))
       <==> exists i :: 0 <= i < |stanzas| && !LegalStanza(stanzas[i])
  {
    hide StanzaFits, LegalStanza;
    forall i | 0 <= i < |stanzas| ensures StanzaFits(stanzas[i]) <==> LegalStanza(stanzas[i]) {
      StanzaExactly(stanzas[i]);
    }
  }

  lemma StanzaExactly(stanza: Stanza)
    ensures StanzaFits(stanza) <==> LegalStanza(stanza)
  {
  }

  lemma SignaturesExactly(signatures: seq<SignatureStanza>)
    ensures (exists i :: 0 <= i < |signatures| && !SignatureFits(signatures[i]))
       <==> exists i :: 0 <= i < |signatures| && !LegalSignature(signatures[i])
  {
    assert forall i :: 0 <= i < |signatures| ==> (SignatureFits(signatures[i]) <==> LegalSignature(signatures[i]));
  }

  lemma NotEmpty(h: ProtectedHeader)
    requires |h.recipients| <= 64 && |h.signatures| <= 1 && |h.extensions| <= 16
    ensures HeaderForm(h) != []
  {
    hide StanzaForm, SignatureForm, ExtensionForm, Joined, ByteString, Item;
    var rest := [1, 1] + [2] + ByteString(h.objectId)
      + [3] + Item(4, |h.recipients|) + Joined(StanzaForm, h.recipients)
      + [4] + ByteString(h.encryptedMetadata)
      + [5] + Item(4, |h.signatures|) + Joined(SignatureForm, h.signatures)
      + Joined(ExtensionForm, h.extensions);
    assert HeaderForm(h) == Item(5, 5 + |h.extensions|) + rest;
  }

  /** Bytes are read as `h` if and only if `h` is a legal header and they are its one form. */
  lemma DecodedExactly(s: Bytes, h: ProtectedHeader)
    ensures Decoded(s) == Ok(h) <==> LegalHeader(h) && s == HeaderForm(h)
  {
    EncodedExactly(h);
    hide Encoded, Decoded, HeaderForm, LegalStanza, LegalSignature;
    if Decoded(s).Ok? {
      HeaderCanonical(s);
      EncodedExactly(Decoded(s).value);
    }
    if Encoded(h).Ok? {
      HeaderRoundTrip(h);
    }
  }

  /** The outer header: two byte strings, a protected header of 1 to 1048576 bytes and its MAC. */
  lemma OuterExactly(s: Bytes, protected: Blob, mac: Digest)
    ensures DecodedOuter(s) == Ok((protected, mac))
       <==> && 1 <= |protected|
            && s == [0x82] + ByteString(protected) + [0x58, 32] + mac
            && |s| <= 1048576
  {
    OuterRoundTrip(protected, mac, s);
    OuterIsForm(protected, mac);
    hide DecodedOuter, PutOuter, ByteString;
  }

  lemma OuterIsForm(protected: Blob, mac: Digest)
    ensures PutOuter(protected, mac) == [0x82] + ByteString(protected) + [0x58, 32] + mac
    ensures |PutOuter(protected, mac)| > |protected|
  {
    BytesForm(mac, []);
    BytesForm(protected, PutBytes(mac, []));
    ArrayForm(2, PutBytes(protected, PutBytes(mac, [])));
    assert Item(4, 2) == [0x82] && ByteString(mac) == [0x58, 32] + mac;
    assert ByteString(mac) + [] == ByteString(mac);
    var head := Item(2, |protected|);
    hide PutArray, PutBytes, Item;
    assert |ByteString(protected)| == |head| + |protected|;
    hide ByteString;
  }
}
