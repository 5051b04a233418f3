/** The protected header of a container and its wire form (crates/hide-format/src/codec.rs). */
module HeaderCodec {
  import Aead
  import opened Bytes
  import opened Cbor
  import opened CborLists
  import opened Extensions
  import opened Hashing
  import opened Results

  const MAX_HEADER_LEN := 1048576
  const MAX_RECIPIENTS := 64
  const MAX_SIGNATURES := 1
  const MAX_STANZA_ITEMS := 8
  const SUITE: u16 := 1
  const XWING_TAG: u16 := 1
  const ENCAPSULATION_LEN := 1120
  const WRAPPED_CEK_LEN := 48

  type Fields = s: seq<Blob> | |s| < 0x2000_0000_0000_0000

  /** An unknown kind of recipient is kept, so that a header re-encodes and a signature covers it. */
  datatype Stanza = XWing(encapsulation: Blob, wrappedCek: Blob) | Unknown(unknownTag: u16, unknownFields: Fields) {
    function Tag(): u16 {
      if XWing? then XWING_TAG else unknownTag
    }

    function Items(): Fields {
      if XWing? then [encapsulation, wrappedCek] else unknownFields
    }
  }

  datatype ProtectedHeader = ProtectedHeader(
    objectId: Digest,
    recipients: seq<Stanza>,
    encryptedMetadata: Blob,
    signatures: seq<SignatureStanza>,
    extensions: seq<Extension>)

  // ---------------------------------------------------------------- recipient stanzas

  function PutStanza(stanza: Stanza, rest: Bytes): Bytes {
    PutArray(1 + |stanza.Items()|, PutUint(stanza.Tag(), PutAll(PutBytes, stanza.Items(), rest)))
  }

  predicate StanzaFits(stanza: Stanza) {
    match stanza
    case XWing(encapsulation, wrappedCek) =>
      |encapsulation| == ENCAPSULATION_LEN && |wrappedCek| == WRAPPED_CEK_LEN
    case Unknown(tag, fields) =>
      && tag > XWING_TAG && |fields| < MAX_STANZA_ITEMS
      && forall i :: 0 <= i < |fields| ==> |fields[i]| <= MAX_EXTENSION_LEN
  }

  function GetField(s: Bytes): Result<(Blob, Bytes), FormatError> {
    match GetBytes(s)
    case Err(error) => Err(error)
    case Ok((field, rest)) => if |field| > MAX_EXTENSION_LEN then Err(MalformedHeader) else Ok((field, rest))
  }

  function GetXWing(s: Bytes): Result<(Stanza, Bytes), FormatError> {
    match GetBytes(s)
    case Err(error) => Err(error)
    case Ok((encapsulation, s1)) =>
      match GetBytes(s1)
      case Err(error) => Err(error)
      case Ok((wrappedCek, rest)) =>
        if |encapsulation| != ENCAPSULATION_LEN || |wrappedCek| != WRAPPED_CEK_LEN then Err(MalformedHeader)
        else Ok((XWing(encapsulation, wrappedCek), rest))
  }

  function GetStanza(s: Bytes): Result<(Stanza, Bytes), FormatError> {
    match GetCount(s, ARRAY)
    case Err(error) => Err(error)
    case Ok((items, s1)) =>
      if !(1 <= items <= MAX_STANZA_ITEMS) then Err(MalformedHeader)
      else
        match GetUint(s1, 0x1_0000_0000_0000_0000)
        case Err(error) => Err(error)
        case Ok((tag, s2)) =>
          if tag == XWING_TAG then
            if items != 3 then Err(MalformedHeader) else GetXWing(s2)
          else if tag >= 0x1_0000 || tag == 0 then Err(MalformedHeader)
          else
            match GetAll(GetField, items - 1, s2)
            case Err(error) => Err(error)
            case Ok((fields, rest)) =>
              if |fields| >= 0x2000_0000_0000_0000 then Err(MalformedHeader) else Ok((Unknown(tag, fields), rest))
  }

  // ---------------------------------------------------------------- encoding

  /** The items after the recipients, which stand in front of `rest`. */
  function PutSealed(h: ProtectedHeader, rest: Bytes): Bytes
    requires |h.signatures| <= MAX_SIGNATURES
  {
    PutUint(4, PutBytes(h.encryptedMetadata,
                        PutUint(5, PutArray(|h.signatures|, PutAll(PutSignature, h.signatures, rest)))))
  }

  function PutRecipients(h: ProtectedHeader, rest: Bytes): Bytes
    requires |h.recipients| <= MAX_RECIPIENTS
  {
    PutUint(3, PutArray(|h.recipients|, PutAll(PutStanza, h.recipients, rest)))
  }

  function PutIdentity(h: ProtectedHeader, rest: Bytes): Bytes
    requires |h.extensions| <= MAX_EXTENSIONS
  {
    PutMap(5 + |h.extensions|, PutUint(1, PutUint(SUITE, PutUint(2, PutBytes(h.objectId, rest)))))
  }

  function PutHeader(h: ProtectedHeader): Bytes
    requires |h.recipients| <= MAX_RECIPIENTS && |h.signatures| <= MAX_SIGNATURES && |h.extensions| <= MAX_EXTENSIONS
  {
    PutIdentity(h, PutRecipients(h, PutSealed(h, PutAll(PutExtension, h.extensions, []))))
  }

  predicate HeaderLengthOk(length: nat) {
    0 < length <= MAX_HEADER_LEN
  }

  predicate MetadataLengthOk(length: nat) {
    Aead.TAG_LEN <= length <= MAX_METADATA_LEN + Aead.TAG_LEN
  }

  function Encoded(h: ProtectedHeader): Result<Bytes, FormatError> {
    if h.recipients == [] || |h.recipients| > MAX_RECIPIENTS then Err(MalformedHeader)
    else if !MetadataLengthOk(|h.encryptedMetadata|) then Err(InvalidMetadata)
    else if |h.signatures| > MAX_SIGNATURES || !ExtensionsOk(h.extensions) then Err(MalformedHeader)
    else if exists i :: 0 <= i < |h.recipients| && !StanzaFits(h.recipients[i]) then Err(MalformedHeader)
    else if exists i :: 0 <= i < |h.signatures| && !SignatureFits(h.signatures[i]) then Err(MalformedHeader)
    else if !HeaderLengthOk(|PutHeader(h)|) then Err(HeaderTooLarge)
    else Ok(PutHeader(h))
  }

  lemma EncodedFits(h: ProtectedHeader)
    ensures Encoded(h).Ok? ==> |Encoded(h).value| <= MAX_HEADER_LEN
  {
    hide PutHeader, StanzaFits, SignatureFits, ExtensionsOk;
    if ExtensionsOk(h.extensions) {
      ExtensionsFew(h.extensions);
    }
  }

  // ---------------------------------------------------------------- decoding

  function GetIdentity(s: Bytes): Result<(nat, Digest, Bytes), FormatError> {
    var (entries, s0) :- GetCount(s, MAP);
    if !(5 <= entries <= 5 + MAX_EXTENSIONS) then Err(MalformedHeader)
    else
      var s1 :- GetKey(s0, 1);
      var (suite, s2) :- GetUint(s1, 0x1_0000);
      if suite != SUITE then Err(UnsupportedSuite)
      else
        var s3 :- GetKey(s2, 2);
        var (objectId, rest) :- GetBytes(s3);
        if |objectId| != 32 then Err(MalformedHeader) else Ok((entries - 5, objectId, rest))
  }

  function GetRecipients(s: Bytes): Result<(seq<Stanza>, Bytes), FormatError> {
    var s1 :- GetKey(s, 3);
    var (count, s2) :- GetCount(s1, ARRAY);
    if count == 0 || count > MAX_RECIPIENTS then Err(MalformedHeader) else GetAll(GetStanza, count, s2)
  }

  function GetSealed(s: Bytes): Result<(Blob, seq<SignatureStanza>, Bytes), FormatError> {
    var s1 :- GetKey(s, 4);
    var (metadata, s2) :- GetBytes(s1);
    if !MetadataLengthOk(|metadata|) then Err(InvalidMetadata)
    else
      var s3 :- GetKey(s2, 5);
      var (count, s4) :- GetCount(s3, ARRAY);
      if count > MAX_SIGNATURES then Err(MalformedHeader)
      else
        var (signatures, rest) :- GetAll(GetSignature, count, s4);
        Ok((metadata, signatures, rest))
  }

  /** One header, one encoding: what is left over, or encodes differently, is refused. */
  function Canonical(s: Bytes, rest: Bytes, encoded: Result<Bytes, FormatError>): Outcome<FormatError> {
    match encoded
    case Err(error) => Fail(error)
    case Ok(again) => if rest != [] || again != s then Fail(NonCanonical) else Pass
  }

  function Decoded(s: Bytes): Result<ProtectedHeader, FormatError> {
    if !HeaderLengthOk(|s|) then Err(HeaderTooLarge)
    else
      var (more, objectId, s1) :- GetIdentity(s);
      var (recipients, s2) :- GetRecipients(s1);
      var (metadata, signatures, s3) :- GetSealed(s2);
      var (extensions, rest) :- GetExtensions(s3, more, 5);
      var h := ProtectedHeader(objectId, recipients, metadata, signatures, extensions);
      match Canonical(s, rest, Encoded(h))
      case Fail(error) => Err(error)
      case Pass => Ok(h)
  }

  // ---------------------------------------------------------------- the codec's loops

  lemma {:induction false} ItemsAppend(items: seq<Blob>, a: Bytes, rest: Bytes)
    ensures PutAll(PutBytes, items, a + rest) == PutAll(PutBytes, items, a) + rest
    decreases |items|
  {
    hide PutBytes;
    if items != [] {
      ItemsAppend(items[1..], a, rest);
      BytesAppends(items[0], PutAll(PutBytes, items[1..], a), rest);
    }
  }

  lemma StanzaAppends(stanza: Stanza, rest: Bytes)
    ensures PutStanza(stanza, rest) == PutStanza(stanza, []) + rest
  {
    hide PutAll, PutUint, PutArray;
    var items := PutAll(PutBytes, stanza.Items(), []);
    ItemsAppend(stanza.Items(), [], rest);
    assert [] + rest == rest;
    UintAppends(stanza.Tag(), items, rest);
    ArrayAppends(1 + |stanza.Items()|, PutUint(stanza.Tag(), items), rest);
  }

  /** Items written one after another in front of `rest`, as one run of bytes and then `rest`. */
  lemma {:induction false} RunAppends<T(!new)>(put: (T, Bytes) -> Bytes, items: seq<T>, rest: Bytes)
    requires Prepends(put)
    ensures PutAll(put, items, rest) == PutAll(put, items, []) + rest
    decreases |items|
  {
    hide Prepends;
    if items == [] {
      assert [] + rest == rest;
    } else {
      var more := PutAll(put, items[1..], []);
      RunAppends(put, items[1..], rest);
      PrependsAt(put, items[0], more + rest);
      PrependsAt(put, items[0], more);
      assert (put(items[0], []) + more) + rest == put(items[0], []) + (more + rest);
    }
  }

  lemma PrependsAt<T(!new)>(put: (T, Bytes) -> Bytes, item: T, rest: Bytes)
    requires Prepends(put)
    ensures put(item, rest) == put(item, []) + rest
  {
  }

  /** Writes stanza after stanza, refusing the first one of the wrong size. */
  method WriteStanzas(stanzas: seq<Stanza>, start: Bytes) returns (result: Result<Bytes, FormatError>)
    ensures result == if exists i :: 0 <= i < |stanzas| && !StanzaFits(stanzas[i]) then Err(MalformedHeader)
                      else Ok(start + PutAll(PutStanza, stanzas, []))
  {
    hide PutStanza, StanzaFits;
    var out := start;
    assert stanzas[0..] == stanzas;
    for k := 0 to |stanzas|
      invariant forall i :: 0 <= i < k ==> StanzaFits(stanzas[i])
      invariant start + PutAll(PutStanza, stanzas, []) == out + PutAll(PutStanza, stanzas[k..], [])
    {
      if !StanzaFits(stanzas[k]) {
        return Err(MalformedHeader);
      }
      assert stanzas[k..][1..] == stanzas[k + 1..];
      StanzaAppends(stanzas[k], PutAll(PutStanza, stanzas[k + 1..], []));
      out := out + PutStanza(stanzas[k], []);
    }
    assert out + [] == out;
    return Ok(out);
  }

  method WriteSignatures(signatures: seq<SignatureStanza>, start: Bytes) returns (result: Result<Bytes, FormatError>)
    ensures result == if exists i :: 0 <= i < |signatures| && !SignatureFits(signatures[i]) then Err(MalformedHeader)
                      else Ok(start + PutAll(PutSignature, signatures, []))
  {
    hide PutSignature, SignatureFits;
    var out := start;
    assert signatures[0..] == signatures;
    for k := 0 to |signatures|
      invariant forall i :: 0 <= i < k ==> SignatureFits(signatures[i])
      invariant start + PutAll(PutSignature, signatures, []) == out + PutAll(PutSignature, signatures[k..], [])
    {
      if !SignatureFits(signatures[k]) {
        return Err(MalformedHeader);
      }
      assert signatures[k..][1..] == signatures[k + 1..];
      SignatureAppends(signatures[k], PutAll(PutSignature, signatures[k + 1..], []));
      out := out + PutSignature(signatures[k], []);
    }
    assert out + [] == out;
    return Ok(out);
  }

  /** The header as one run of bytes after another, in the order they are written. */
  lemma HeaderRuns(h: ProtectedHeader)
    requires |h.recipients| <= MAX_RECIPIENTS && |h.signatures| <= MAX_SIGNATURES && |h.extensions| <= MAX_EXTENSIONS
    ensures PutHeader(h)
         == PutIdentity(h, []) + PutUint(3, PutArray(|h.recipients|, [])) + PutAll(PutStanza, h.recipients, [])
            + PutUint(4, PutBytes(h.encryptedMetadata, PutUint(5, PutArray(|h.signatures|, []))))
            + PutAll(PutSignature, h.signatures, []) + PutAll(PutExtension, h.extensions, [])
  {
    hide PutStanza, PutSignature, PutExtension, HeadBytes, PutAll;
    forall stanza: Stanza, rest: Bytes ensures PutStanza(stanza, rest) == PutStanza(stanza, []) + rest {
      StanzaAppends(stanza, rest);
    }
    forall stanza: SignatureStanza, rest: Bytes ensures PutSignature(stanza, rest) == PutSignature(stanza, []) + rest {
      SignatureAppends(stanza, rest);
    }
    var extensions := PutAll(PutExtension, h.extensions, []);
    var signatures := PutAll(PutSignature, h.signatures, []);
    RunAppends(PutSignature, h.signatures, extensions);
    RunAppends(PutStanza, h.recipients, PutSealed(h, extensions));
    SealedRuns(h, signatures, extensions);
    IdentityRuns(h, PutRecipients(h, PutSealed(h, extensions)));
    RecipientRuns(|h.recipients|, PutAll(PutStanza, h.recipients, []), PutSealed(h, extensions));
  }

  lemma IdentityRuns(h: ProtectedHeader, rest: Bytes)
    requires |h.extensions| <= MAX_EXTENSIONS
    ensures PutIdentity(h, rest) == PutIdentity(h, []) + rest
  {
    hide HeadBytes;
    assert [] + rest == rest;
    BytesAppends(h.objectId, [], rest);
    UintAppends(2, PutBytes(h.objectId, []), rest);
    UintAppends(SUITE, PutUint(2, PutBytes(h.objectId, [])), rest);
    UintAppends(1, PutUint(SUITE, PutUint(2, PutBytes(h.objectId, []))), rest);
  }

  lemma RecipientRuns(count: u64, stanzas: Bytes, rest: Bytes)
    ensures PutUint(3, PutArray(count, stanzas + rest)) == PutUint(3, PutArray(count, [])) + stanzas + rest
  {
    hide HeadBytes;
  }

  lemma SealedRuns(h: ProtectedHeader, signatures: Bytes, extensions: Bytes)
    requires |h.signatures| <= MAX_SIGNATURES
            && PutAll(PutSignature, h.signatures, extensions) == signatures + extensions
    ensures PutSealed(h, extensions)
         == PutUint(4, PutBytes(h.encryptedMetadata, PutUint(5, PutArray(|h.signatures|, [])))) + signatures
           + extensions
  {
    hide PutSignature, PutAll, PutUint, PutBytes, PutArray;
    var tail := signatures + extensions;
    assert [] + tail == tail;
    ArrayAppends(|h.signatures|, [], tail);
    var a := PutArray(|h.signatures|, []);
    UintAppends(5, a, tail);
    BytesAppends(h.encryptedMetadata, PutUint(5, a), tail);
    UintAppends(4, PutBytes(h.encryptedMetadata, PutUint(5, a)), tail);
  }

  method Encode(h: ProtectedHeader) returns (result: Result<Bytes, FormatError>)
    ensures result == Encoded(h)
  {
    hide PutHeader, PutIdentity, PutStanza, StanzaFits, PutSignature, SignatureFits, PutExtension, PutAll, HeadBytes,
      ExtensionsOk;
    if h.recipients == [] || |h.recipients| > MAX_RECIPIENTS {
      return Err(MalformedHeader);
    }
    if !MetadataLengthOk(|h.encryptedMetadata|) {
      return Err(InvalidMetadata);
    }
    if |h.signatures| > MAX_SIGNATURES {
      return Err(MalformedHeader);
    }
    var ok := CheckExtensions(h.extensions);
    if !ok {
      return Err(MalformedHeader);
    }
    ExtensionsFew(h.extensions);
    HeaderRuns(h);
    ExtensionsPrepend();
    var out := PutIdentity(h, []) + PutUint(3, PutArray(|h.recipients|, []));
    var written := WriteStanzas(h.recipients, out);
    if written.Err? {
      return Err(written.error);
    }
    out := written.value + PutUint(4, PutBytes(h.encryptedMetadata, PutUint(5, PutArray(|h.signatures|, []))));
    written := WriteSignatures(h.signatures, out);
    if written.Err? {
      return Err(written.error);
    }
    out := WriteAll(PutExtension, h.extensions, written.value);
    return if HeaderLengthOk(|out|) then Ok(out) else Err(HeaderTooLarge);
  }

  method DecodeRecipients(s: Bytes) returns (result: Result<(seq<Stanza>, Bytes), FormatError>)
    ensures result == GetRecipients(s)
  {
    hide GetStanza, GetKey, GetCount;
    var key := GetKey(s, 3);
    if key.Err? {
      return Err(key.error);
    }
    var head := GetCount(key.value, ARRAY);
    if head.Err? {
      return Err(head.error);
    }
    var (count, body) := head.value;
    if count == 0 || count > MAX_RECIPIENTS {
      return Err(MalformedHeader);
    }
    result := ReadAll(GetStanza, count, body);
  }

  method Decode(s: Bytes) returns (result: Result<ProtectedHeader, FormatError>)
    ensures result == Decoded(s)
  {
    hide GetIdentity, GetRecipients, GetSealed, GetExtensions, Encoded;
    if !HeaderLengthOk(|s|) {
      return Err(HeaderTooLarge);
    }
    var identity := GetIdentity(s);
    if identity.Err? {
      return Err(identity.error);
    }
    var (more, objectId, s1) := identity.value;
    var stanzas := DecodeRecipients(s1);
    if stanzas.Err? {
      return Err(stanzas.error);
    }
    var (recipients, s2) := stanzas.value;
    var body := GetSealed(s2);
    if body.Err? {
      return Err(body.error);
    }
    var (metadata, signatures, s3) := body.value;
    assert more <= MAX_EXTENSIONS by { FewEntries(s); }
    var tail := DecodeExtensions(s3, more, 5);
    if tail.Err? {
      return Err(tail.error);
    }
    var (extensions, rest) := tail.value;
    var h := ProtectedHeader(objectId, recipients, metadata, signatures, extensions);
    var again := Encode(h);
    var verdict := Canonical(s, rest, again);
    return if verdict.Fail? then Err(verdict.error) else Ok(h);
  }

  lemma FewEntries(s: Bytes)
    requires GetIdentity(s).Ok?
    ensures GetIdentity(s).value.0 <= MAX_EXTENSIONS
  {
    hide GetCount, GetKey, GetUint, GetBytes;
  }

  // ---------------------------------------------------------------- the round trip

  lemma StanzaInverts(stanza: Stanza)
    requires StanzaFits(stanza)
    ensures Inverts(GetStanza, PutStanza, stanza)
  {
    hide PutUint, PutBytes, PutArray, ReadUint, ReadBytes, ReadCount, ReadLength, HeadBytes, StanzaFits, GetField,
      PutAll;
    forall rest: Bytes
      ensures GetStanza(PutStanza(stanza, rest)) == Ok((stanza, rest))
    {
      var body := PutAll(PutBytes, stanza.Items(), rest);
      ArrayRoundTrip(1 + |stanza.Items()|, PutUint(stanza.Tag(), body));
      UintRoundTrip(stanza.Tag(), 0x1_0000_0000_0000_0000, body);
      StanzaFacts(stanza);
      if stanza.XWing? {
        XWingItems(stanza, rest);
      } else {
        FieldsRoundTrip(stanza.unknownFields, rest);
      }
    }
  }

  lemma StanzaFacts(stanza: Stanza)
    requires StanzaFits(stanza)
    ensures |stanza.Items()| < MAX_STANZA_ITEMS && stanza.Tag() >= XWING_TAG
    ensures stanza.Tag() == XWING_TAG <==> stanza.XWing?
    ensures stanza.Unknown? ==> forall i :: 0 <= i < |stanza.unknownFields| ==>
            |stanza.unknownFields[i]| <= MAX_EXTENSION_LEN
  {
  }

  lemma XWingItems(stanza: Stanza, rest: Bytes)
    requires StanzaFits(stanza) && stanza.XWing?
    ensures GetXWing(PutAll(PutBytes, stanza.Items(), rest)) == Ok((stanza, rest))
  {
    var s1 := PutBytes(stanza.wrappedCek, rest);
    assert stanza.Items()[1..] == [stanza.wrappedCek];
    assert [stanza.wrappedCek][1..] == [];
    assert PutAll(PutBytes, [stanza.wrappedCek], rest) == s1;
    assert PutAll(PutBytes, stanza.Items(), rest) == PutBytes(stanza.encapsulation, s1);
    BytesRoundTrip(stanza.encapsulation, s1);
    BytesRoundTrip(stanza.wrappedCek, rest);
    hide PutBytes, ReadBytes;
  }

  lemma FieldsRoundTrip(fields: Fields, rest: Bytes)
    requires forall i :: 0 <= i < |fields| ==> |fields[i]| <= MAX_EXTENSION_LEN
    ensures GetAll(GetField, |fields|, PutAll(PutBytes, fields, rest)) == Ok((fields, rest))
  {
    hide PutBytes, ReadBytes, PutAll, GetAll;
    forall field | field in fields
      ensures Inverts(GetField, PutBytes, field)
    {
      forall after: Bytes
        ensures GetField(PutBytes(field, after)) == Ok((field, after))
      {
        BytesRoundTrip(field, after);
      }
    }
    AllRoundTrip(GetField, PutBytes, fields, rest);
  }

  lemma IdentityItemsRoundTrip(h: ProtectedHeader, rest: Bytes)
    requires |h.extensions| <= MAX_EXTENSIONS
    ensures GetIdentity(PutIdentity(h, rest)) == Ok((|h.extensions|, h.objectId, rest))
  {
    hide PutUint, PutBytes, PutMap, ReadUint, ReadBytes, ReadCount;
    var s3 := PutBytes(h.objectId, rest);
    var s2 := PutUint(2, s3);
    var s1 := PutUint(SUITE, s2);
    MapRoundTrip(5 + |h.extensions|, PutUint(1, s1));
    UintRoundTrip(1, 0x100, s1);
    UintRoundTrip(SUITE, 0x1_0000, s2);
    UintRoundTrip(2, 0x100, s3);
    BytesRoundTrip(h.objectId, rest);
  }

  lemma RecipientsRoundTrip(h: ProtectedHeader, rest: Bytes)
    requires 0 < |h.recipients| <= MAX_RECIPIENTS
    requires forall i :: 0 <= i < |h.recipients| ==> StanzaFits(h.recipients[i])
    ensures GetRecipients(PutRecipients(h, rest)) == Ok((h.recipients, rest))
  {
    hide PutStanza, GetStanza, StanzaFits, PutUint, PutArray, ReadUint, ReadCount, PutAll, GetAll;
    var s2 := PutAll(PutStanza, h.recipients, rest);
    UintRoundTrip(3, 0x100, PutArray(|h.recipients|, s2));
    ArrayRoundTrip(|h.recipients|, s2);
    forall stanza | stanza in h.recipients
      ensures Inverts(GetStanza, PutStanza, stanza)
    {
      StanzaInverts(stanza);
    }
    AllRoundTrip(GetStanza, PutStanza, h.recipients, rest);
  }

  lemma SealedRoundTrip(h: ProtectedHeader, rest: Bytes)
    requires MetadataLengthOk(|h.encryptedMetadata|) && |h.signatures| <= MAX_SIGNATURES
    requires forall i :: 0 <= i < |h.signatures| ==> SignatureFits(h.signatures[i])
    ensures GetSealed(PutSealed(h, rest)) == Ok((h.encryptedMetadata, h.signatures, rest))
  {
    hide PutSignature, GetSignature, SignatureFits, PutUint, PutArray, PutBytes, ReadUint, ReadCount, ReadBytes, PutAll,
      GetAll;
    var s4 := PutAll(PutSignature, h.signatures, rest);
    var s3 := PutArray(|h.signatures|, s4);
    var s2 := PutUint(5, s3);
    UintRoundTrip(4, 0x100, PutBytes(h.encryptedMetadata, s2));
    BytesRoundTrip(h.encryptedMetadata, s2);
    UintRoundTrip(5, 0x100, s3);
    ArrayRoundTrip(|h.signatures|, s4);
    forall stanza | stanza in h.signatures
      ensures Inverts(GetSignature, PutSignature, stanza)
    {
      forall after: Bytes
        ensures GetSignature(PutSignature(stanza, after)) == Ok((stanza, after))
      {
        SignatureRoundTrip(stanza, after);
      }
    }
    AllRoundTrip(GetSignature, PutSignature, h.signatures, rest);
  }

  /** Decoding undoes encoding for every header the encoder accepts. */
  lemma HeaderRoundTrip(h: ProtectedHeader)
    requires Encoded(h).Ok?
    ensures Decoded(Encoded(h).value) == Ok(h)
  {
    hide PutIdentity, PutRecipients, PutSealed, GetIdentity, GetRecipients, GetSealed, GetExtensions, PutExtension,
      PutAll, StanzaFits, SignatureFits;
    var s3 := PutAll(PutExtension, h.extensions, []);
    var s2 := PutSealed(h, s3);
    var s1 := PutRecipients(h, s2);
    IdentityItemsRoundTrip(h, s1);
    RecipientsRoundTrip(h, s2);
    SealedRoundTrip(h, s3);
    ExtensionsRoundTrip(h.extensions, 5, []);
  }

  /** Whatever is accepted is the one encoding of what it decodes to, unknown stanzas included. */
  lemma HeaderCanonical(s: Bytes)
    requires Decoded(s).Ok?
    ensures Encoded(Decoded(s).value) == Ok(s)
  {
    hide GetIdentity, GetRecipients, GetSealed, GetExtensions, Encoded;
  }

  // ---------------------------------------------------------------- the outer header

  function PutOuter(protected: Blob, mac: Digest): Bytes {
    PutArray(2, PutBytes(protected, PutBytes(mac, [])))
  }

  function EncodedOuter(protected: Blob, mac: Digest): Result<Bytes, FormatError> {
    if HeaderLengthOk(|protected|) && HeaderLengthOk(|PutOuter(protected, mac)|) then Ok(PutOuter(protected, mac))
    else Err(HeaderTooLarge)
  }

  function DecodedOuter(s: Bytes): Result<(Blob, Digest), FormatError> {
    if !HeaderLengthOk(|s|) then Err(HeaderTooLarge)
    else
      match ReadLength(s, ARRAY)
      case None => Err(MalformedHeader)
      case Some((items, s1)) =>
        if items != Some(2) then Err(MalformedHeader)
        else
          var (protected, s2) :- GetBytes(s1);
          var (mac, rest) :- GetBytes(s2);
          if |mac| != 32 then Err(MalformedHeader)
          else
            match Canonical(s, rest, EncodedOuter(protected, mac))
            case Fail(error) => Err(error)
            case Pass => Ok((protected, mac))
  }

  /** The protected bytes and their MAC come back, and nothing else decodes. */
  lemma OuterRoundTrip(protected: Blob, mac: Digest, s: Bytes)
    ensures EncodedOuter(protected, mac) == Ok(s) <==> DecodedOuter(s) == Ok((protected, mac))
  {
    if EncodedOuter(protected, mac) == Ok(s) {
      ArrayRoundTrip(2, PutBytes(protected, PutBytes(mac, [])));
      BytesRoundTrip(protected, PutBytes(mac, []));
      BytesRoundTrip(mac, []);
    }
    hide PutBytes, PutArray, ReadBytes, ReadLength;
  }
}
