/** The metadata sealed inside a container and its wire form (crates/hide-format/src/codec.rs). */
module MetadataCodec {
  import opened Bytes
  import opened Cbor
  import opened CborLists
  import opened Extensions
  import opened Results

  const MAX_TEXT_LEN := 255

  type Utf8Text = s: Blob | Utf8(s)

  datatype Metadata = Metadata(
    filename: Option<Utf8Text>,
    mediaType: Option<Utf8Text>,
    signature: Option<SignatureStanza>,
    extensions: seq<Extension>)

  const EMPTY: Metadata := Metadata(None, None, None, [])

  // ---------------------------------------------------------------- what may be written

  function Upper(s: Bytes): Bytes {
    seq(|s|, i requires 0 <= i < |s| => if 97 <= s[i] <= 122 then s[i] - 32 else s[i])
  }

  /** Device names Windows reserves, with any extension. */
  predicate Reserved(stem: Bytes) {
    var upper := Upper(stem);
    || upper == Ascii("CON") || upper == Ascii("PRN") || upper == Ascii("AUX") || upper == Ascii("NUL")
    || (|upper| == 4 && (Ascii("COM") <= upper || Ascii("LPT") <= upper) && 49 <= upper[3] <= 57)
  }

  predicate ValidFilename(name: Bytes) {
    && 0 < |name| <= MAX_TEXT_LEN
    && name != Ascii(".") && name != Ascii("..")
    && name[|name| - 1] != 46 && name[|name| - 1] != 32
    && !Reserved(name[..FirstIndex(name, 46)])
    && forall i :: 0 <= i < |name| ==> !ControlAt(name, i) && name[i] !in Ascii("<>:\"/\\|?*")
  }

  predicate ValidMediaType(text: Bytes) {
    0 < |text| <= MAX_TEXT_LEN && forall i :: 0 <= i < |text| ==> 32 <= text[i] <= 126
  }

  predicate MetadataOk(m: Metadata) {
    && ExtensionsOk(m.extensions)
    && (m.filename.Some? ==> ValidFilename(m.filename.value))
    && (m.mediaType.Some? ==> ValidMediaType(m.mediaType.value))
    && (m.signature.Some? ==> SignatureFits(m.signature.value))
  }

  // ---------------------------------------------------------------- encoding

  function One(present: bool): nat {
    if present then 1 else 0
  }

  function Count(m: Metadata): nat {
    One(m.filename.Some?) + One(m.mediaType.Some?) + One(m.signature.Some?) + |m.extensions|
  }

  function PutOptionalText(field: byte, text: Option<Utf8Text>, rest: Bytes): Bytes {
    match text
    case None => rest
    case Some(t) => PutUint(field, PutText(t, rest))
  }

  function PutOptionalSignature(signature: Option<SignatureStanza>, rest: Bytes): Bytes {
    match signature
    case None => rest
    case Some(stanza) => PutUint(3, PutSignature(stanza, rest))
  }

  function PutItems(m: Metadata): Bytes {
    PutOptionalText(1, m.filename, PutOptionalText(2, m.mediaType,
      PutOptionalSignature(m.signature, PutAll(PutExtension, m.extensions, []))))
  }

  function Encoded(m: Metadata): Result<Bytes, FormatError> {
    if !MetadataOk(m) then Err(InvalidMetadata)
    else Ok(PutMap(Count(m), PutItems(m)))
  }

  function Unsigned(m: Metadata): Metadata {
    m.(signature := None)
  }

  /** What a signature covers: the metadata as it was before one was attached. */
  function SigningBase(m: Metadata): Result<Bytes, FormatError> {
    Encoded(Unsigned(m))
  }

  lemma TextRuns(field: byte, text: Option<Utf8Text>, rest: Bytes)
    ensures PutOptionalText(field, text, rest) == PutOptionalText(field, text, []) + rest
  {
    hide PutUint, PutText, Utf8;
    if text.Some? {
      assert [] + rest == rest;
      TextAppends(text.value, [], rest);
      UintAppends(field, PutText(text.value, []), rest);
    }
  }

  lemma SignatureRuns(signature: Option<SignatureStanza>, rest: Bytes)
    ensures PutOptionalSignature(signature, rest) == PutOptionalSignature(signature, []) + rest
  {
    hide PutUint, PutSignature;
    if signature.Some? {
      SignatureAppends(signature.value, rest);
      UintAppends(3, PutSignature(signature.value, []), rest);
    }
  }

  lemma ItemRuns(m: Metadata)
    requires |m.extensions| <= MAX_EXTENSIONS
    ensures PutMap(Count(m), PutItems(m))
         == PutMap(Count(m), []) + PutOptionalText(1, m.filename, []) + PutOptionalText(2, m.mediaType, [])
            + PutOptionalSignature(m.signature, []) + PutAll(PutExtension, m.extensions, [])
  {
    hide PutOptionalText, PutOptionalSignature, PutExtension, PutAll, HeadBytes;
    var extensions := PutAll(PutExtension, m.extensions, []);
    var signed := PutOptionalSignature(m.signature, extensions);
    SignatureRuns(m.signature, extensions);
    TextRuns(2, m.mediaType, signed);
    TextRuns(1, m.filename, PutOptionalText(2, m.mediaType, signed));
  }

  lemma {:induction false} ExtensionsLength(extensions: seq<Extension>)
    requires forall i :: 0 <= i < |extensions| ==> |extensions[i].value| <= MAX_EXTENSION_LEN
    ensures |PutAll(PutExtension, extensions, [])| <= 65554 * |extensions|
    decreases |extensions|
  {
    if extensions != [] {
      ExtensionsLength(extensions[1..]);
    }
  }

  /** Metadata that can be written is short. */
  lemma EncodedLength(m: Metadata)
    ensures Encoded(m).Ok? ==> |Encoded(m).value| < 1_100_000
  {
    if MetadataOk(m) {
      ExtensionsLength(m.extensions);
      TextsShort(m);
      hide PutAll, ValidFilename, ValidMediaType, ExtensionsOk, Utf8;
      FirstKey(m.extensions);
    }
  }

  /** Writes item after item, checking each as it comes. */
  method Encode(m: Metadata) returns (result: Result<Bytes, FormatError>)
    ensures result == Encoded(m)
  {
    hide ExtensionsOk, ValidFilename, ValidMediaType, SignatureFits, PutItems, PutMap, PutOptionalText,
      PutOptionalSignature, PutExtension, PutAll;
    var ok := CheckExtensions(m.extensions);
    if !ok {
      return Err(InvalidMetadata);
    }
    ExtensionsFew(m.extensions);
    ItemRuns(m);
    ExtensionsPrepend();
    var out := PutMap(Count(m), []);
    if m.filename.Some? && !ValidFilename(m.filename.value) {
      return Err(InvalidMetadata);
    }
    out := out + PutOptionalText(1, m.filename, []);
    if m.mediaType.Some? && !ValidMediaType(m.mediaType.value) {
      return Err(InvalidMetadata);
    }
    out := out + PutOptionalText(2, m.mediaType, []);
    if m.signature.Some? && !SignatureFits(m.signature.value) {
      return Err(InvalidMetadata);
    }
    out := out + PutOptionalSignature(m.signature, []);
    out := WriteAll(PutExtension, m.extensions, out);
    return Ok(out);
  }

  // ---------------------------------------------------------------- decoding

  /** How far the named fields go: metadata so far, entries left, the last key, and the rest. */
  datatype Progress = Progress(metadata: Metadata, remaining: nat, previous: byte, rest: Bytes)

  /** One named field, or None where the run of extensions begins. */
  function GetField(p: Progress): (next: Result<Option<Progress>, FormatError>)
    requires p.remaining > 0
    ensures next.Ok? && next.value.Some? ==> next.value.value.remaining == p.remaining - 1
  {
    match GetUint(p.rest, 0x1_0000_0000_0000_0000)
    case Err(error) => Err(error)
    case Ok((field, s)) =>
      if field > 3 then Ok(None)
      else if field <= p.previous || field == 0 then Err(InvalidMetadata)
      else if field == 3 then
        match GetSignature(s)
        case Err(_) => Err(InvalidMetadata)
        case Ok((stanza, rest)) =>
          Ok(Some(Progress(p.metadata.(signature := Some(stanza)), p.remaining - 1, field, rest)))
      else
        match ReadText(s)
        case None => Err(MalformedHeader)
        case Some((text, rest)) =>
          if |text| > MAX_TEXT_LEN then Err(InvalidMetadata)
          else
            var m := if field == 1 then p.metadata.(filename := Some(text)) else p.metadata.(mediaType := Some(text));
            Ok(Some(Progress(m, p.remaining - 1, field, rest)))
  }

  function GetFields(p: Progress): Result<Progress, FormatError>
    decreases p.remaining
  {
    if p.remaining == 0 then Ok(p)
    else
      match GetField(p)
      case Err(error) => Err(error)
      case Ok(None) => Ok(p)
      case Ok(Some(next)) => GetFields(next)
  }

  /** The map of fields and extensions, and what follows it. */
  function Parse(s: Bytes): Result<(Metadata, Bytes), FormatError> {
    match ReadLength(s, MAP)
    case None => Err(MalformedHeader)
    case Some((None, _)) => Err(InvalidMetadata)
    case Some((Some(count), body)) =>
      if count > 3 + MAX_EXTENSIONS then Err(InvalidMetadata)
      else
        match GetFields(Progress(EMPTY, count, 0, body))
        case Err(error) => Err(error)
        case Ok(p) => WithExtensions(p, GetExtensions(p.rest, p.remaining, p.previous))
  }

  function WithExtensions(p: Progress, read: Result<(seq<Extension>, Bytes), FormatError>)
    : Result<(Metadata, Bytes), FormatError>
  {
    match read
    case Err(error) => Err(if error == UnsupportedFeature then error else InvalidMetadata)
    case Ok((extensions, rest)) => Ok((p.metadata.(extensions := extensions), rest))
  }

  function Decoded(s: Bytes): Result<Metadata, FormatError> {
    if |s| > MAX_METADATA_LEN then Err(InvalidMetadata)
    else
      match Parse(s)
      case Err(error) => Err(error)
      case Ok((m, rest)) =>
        match Encoded(m)
        case Err(error) => Err(error)
        case Ok(again) => if rest != [] || again != s then Err(NonCanonical) else Ok(m)
  }

  /** The decoder's loop over fields, then over extensions. */
  method Decode(s: Bytes) returns (result: Result<Metadata, FormatError>)
    ensures result == Decoded(s)
  {
    hide GetField, GetExtensions, Encoded, ReadLength;
    if |s| > MAX_METADATA_LEN {
      return Err(InvalidMetadata);
    }
    var head := ReadLength(s, MAP);
    if head.None? {
      return Err(MalformedHeader);
    }
    var (entries, body) := head.value;
    if entries.None? || entries.value > 3 + MAX_EXTENSIONS {
      return Err(InvalidMetadata);
    }
    var p := Progress(EMPTY, entries.value, 0, body);
    while p.remaining > 0
      invariant GetFields(p) == GetFields(Progress(EMPTY, entries.value, 0, body))
      invariant p.remaining <= entries.value
      decreases p.remaining
    {
      var next := GetField(p);
      if next.Err? {
        return Err(next.error);
      }
      if next.value.None? {
        break;
      }
      p := next.value.value;
    }
    var read := DecodeExtensions(p.rest, p.remaining, p.previous);
    var parsed := WithExtensions(p, read);
    if parsed.Err? {
      return Err(parsed.error);
    }
    var (m, rest) := parsed.value;
    var again := Encode(m);
    if again.Err? {
      return Err(again.error);
    }
    return if rest != [] || again.value != s then Err(NonCanonical) else Ok(m);
  }

  // ---------------------------------------------------------------- the round trip

  lemma TextStep(field: byte, text: Utf8Text, p: Progress)
    requires 1 <= field <= 2 && |text| <= MAX_TEXT_LEN && p.previous < field
    ensures var before := Progress(p.metadata, p.remaining + 1, p.previous, PutUint(field, PutText(text, p.rest)));
            var m := if field == 1 then p.metadata.(filename := Some(text)) else p.metadata.(mediaType := Some(text));
            GetFields(before) == GetFields(Progress(m, p.remaining, field, p.rest))
  {
    hide PutUint, PutText, ReadUint, ReadText, Utf8;
    UintRoundTrip(field, 0x1_0000_0000_0000_0000, PutText(text, p.rest));
    TextRoundTrip(text, p.rest);
    assert Utf8(text);
  }

  lemma SignatureStep(stanza: SignatureStanza, p: Progress)
    requires SignatureFits(stanza) && p.previous < 3
    ensures var before := Progress(p.metadata, p.remaining + 1, p.previous, PutUint(3, PutSignature(stanza, p.rest)));
            GetFields(before) == GetFields(Progress(p.metadata.(signature := Some(stanza)), p.remaining, 3, p.rest))
  {
    hide PutUint, PutSignature, GetSignature, ReadUint;
    UintRoundTrip(3, 0x1_0000_0000_0000_0000, PutSignature(stanza, p.rest));
    SignatureRoundTrip(stanza, p.rest);
  }

  /** The run of extensions ends the named fields. */
  lemma {:induction false} ExtensionsStop(p: Progress, extensions: seq<Extension>)
    requires ExtensionsOk(extensions) && p.remaining == |extensions| && p.rest == PutAll(PutExtension, extensions, [])
    ensures GetFields(p) == Ok(p)
  {
    hide PutUint, ReadUint;
    if extensions != [] {
      var tail := PutBytes(extensions[0].value, PutAll(PutExtension, extensions[1..], []));
      UintRoundTrip(extensions[0].key, 0x1_0000_0000_0000_0000, tail);
      assert p.rest == PutUint(extensions[0].key, tail);
    }
  }

  /** What the named fields of a metadata leave to be read. */
  lemma FieldsRoundTrip(m: Metadata)
    requires MetadataOk(m)
    ensures var tail := PutAll(PutExtension, m.extensions, []);
            var p := GetFields(Progress(EMPTY, Count(m), 0, PutItems(m)));
            && p.Ok? && p.value.previous <= 3 && p.value.remaining == |m.extensions| && p.value.rest == tail
            && p.value.metadata == m.(extensions := [])
  {
    hide GetFields, PutUint, PutText, PutSignature, PutExtension, PutAll, ExtensionsOk, ValidFilename, ValidMediaType,
      SignatureFits, Utf8;
    TextsShort(m);
    var tail := PutAll(PutExtension, m.extensions, []);
    var signed := PutOptionalSignature(m.signature, tail);
    var typed := PutOptionalText(2, m.mediaType, signed);
    var n := |m.extensions|;
    var k := One(m.signature.Some?) + n;
    var j := One(m.mediaType.Some?) + k;
    var a := EMPTY.(filename := m.filename);
    var b := a.(mediaType := m.mediaType);
    var pa: byte := One(m.filename.Some?);
    var pb: byte := if m.mediaType.Some? then 2 else pa;
    var pc: byte := if m.signature.Some? then 3 else pb;
    if m.filename.Some? {
      TextStep(1, m.filename.value, Progress(EMPTY, j, 0, typed));
    }
    if m.mediaType.Some? {
      TextStep(2, m.mediaType.value, Progress(a, k, pa, signed));
    }
    if m.signature.Some? {
      SignatureStep(m.signature.value, Progress(b, n, pb, tail));
    }
    ExtensionsStop(Progress(b.(signature := m.signature), n, pc, tail), m.extensions);
  }

  lemma TextsShort(m: Metadata)
    requires MetadataOk(m)
    ensures m.filename.Some? ==> |m.filename.value| <= MAX_TEXT_LEN
    ensures m.mediaType.Some? ==> |m.mediaType.value| <= MAX_TEXT_LEN
  {
    hide Reserved, Utf8, ControlAt;
  }

  lemma FirstKey(extensions: seq<Extension>)
    requires ExtensionsOk(extensions)
    ensures |extensions| <= MAX_EXTENSIONS && (extensions != [] ==> extensions[0].key > 3)
  {
  }

  /** Parsing undoes encoding, whatever the length. */
  lemma ParseRoundTrip(m: Metadata)
    requires Encoded(m).Ok?
    ensures Parse(Encoded(m).value) == Ok((m, []))
  {
    hide GetFields, GetExtensions, ExtensionsOk, PutItems, PutMap, ReadLength, ReadHead, HeadBytes, ValidFilename,
      ValidMediaType, SignatureFits;
    FirstKey(m.extensions);
    MapHead(Count(m), PutItems(m));
    FieldsRoundTrip(m);
    var p := GetFields(Progress(EMPTY, Count(m), 0, PutItems(m))).value;
    ExtensionsRoundTrip(m.extensions, p.previous, []);
  }

  lemma MapHead(n: u64, rest: Bytes)
    ensures ReadLength(PutMap(n, rest), MAP) == Some((Some(n), rest))
  {
    HeadRoundTrip(MAP, n, rest);
  }

  /** Every encodable metadata comes back exactly when it is not too long to be read. */
  lemma MetadataRoundTrip(m: Metadata)
    requires Encoded(m).Ok?
    ensures Decoded(Encoded(m).value)
            == if |Encoded(m).value| <= MAX_METADATA_LEN then Ok(m) else Err(InvalidMetadata)
  {
    ParseRoundTrip(m);
    hide Parse, Encoded;
  }

  /** Whatever is accepted is the one encoding of what it decodes to. */
  lemma MetadataCanonical(s: Bytes)
    requires Decoded(s).Ok?
    ensures Encoded(Decoded(s).value) == Ok(s) && |s| <= MAX_METADATA_LEN
  {
    hide Parse, Encoded;
  }

  /** The signing base fixes everything but the signature. */
  lemma SigningBaseInjective(a: Metadata, b: Metadata)
    requires SigningBase(a).Ok? && SigningBase(a) == SigningBase(b)
    ensures Unsigned(a) == Unsigned(b)
  {
    ParseRoundTrip(Unsigned(a));
    ParseRoundTrip(Unsigned(b));
    hide Parse, Encoded;
  }
}
