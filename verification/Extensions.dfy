/** Ignorable extensions and signature stanzas, shared by header and metadata (crates/hide-format/src/codec.rs). */
module Extensions {
  import opened Bytes
  import opened Cbor
  import opened CborLists
  import opened Results
  import opened Signing

  const MAX_EXTENSIONS := 16
  const MAX_EXTENSION_LEN := 65536
  const FIRST_IGNORABLE_KEY := 64
  const MAX_METADATA_LEN := 262144

  type u16 = n: int | 0 <= n < 0x1_0000

  datatype FormatError =
    | MalformedHeader | NonCanonical | UnsupportedSuite | InvalidMetadata
    | InvalidContainer | UnsupportedVersion | UnsupportedFeature | HeaderTooLarge

  datatype Extension = Extension(key: u16, value: Blob)

  datatype SignatureStanza = SignatureStanza(verifyingKey: Blob, signature: Blob)

  // ---------------------------------------------------------------- reading items

  function GetUint(s: Bytes, limit: nat): Result<(u64, Bytes), FormatError> {
    match ReadUint(s, limit)
    case Some(item) => Ok(item)
    case None => Err(MalformedHeader)
  }

  function GetBytes(s: Bytes): Result<(Blob, Bytes), FormatError> {
    match ReadBytes(s)
    case Some(item) => Ok(item)
    case None => Err(MalformedHeader)
  }

  function GetCount(s: Bytes, major: Major): Result<(u64, Bytes), FormatError> {
    match ReadCount(s, major)
    case Some(item) => Ok(item)
    case None => Err(MalformedHeader)
  }

  /** A map key that must come next. */
  function GetKey(s: Bytes, expected: byte): Result<Bytes, FormatError> {
    match ReadUint(s, 0x100)
    case Some((found, rest)) => if found == expected then Ok(rest) else Err(MalformedHeader)
    case None => Err(MalformedHeader)
  }

  // ---------------------------------------------------------------- extensions

  function PutExtension(extension: Extension, rest: Bytes): Bytes {
    PutUint(extension.key, PutBytes(extension.value, rest))
  }

  /** Few enough, in ascending order of key, none below the ignorable range, none too long. */
  predicate ExtensionsOk(extensions: seq<Extension>) {
    && |extensions| <= MAX_EXTENSIONS
    && (forall i :: 0 <= i < |extensions| ==>
          FIRST_IGNORABLE_KEY <= extensions[i].key && |extensions[i].value| <= MAX_EXTENSION_LEN)
    && forall i, j :: 0 <= i < j < |extensions| ==> extensions[i].key < extensions[j].key
  }

  /** Looks at each neighbour only, which is enough. */
  method CheckExtensions(extensions: seq<Extension>) returns (ok: bool)
    ensures ok == ExtensionsOk(extensions)
  {
    if |extensions| > MAX_EXTENSIONS {
      return false;
    }
    var previous := 0;
    for i := 0 to |extensions|
      invariant ExtensionsOk(extensions[..i])
      invariant previous == if i == 0 then 0 else extensions[i - 1].key
    {
      var extension := extensions[i];
      if extension.key < FIRST_IGNORABLE_KEY || extension.key <= previous || |extension.value| > MAX_EXTENSION_LEN {
        assert i > 0 && extension.key <= previous ==> extensions[i - 1].key >= extensions[i].key;
        return false;
      }
      previous := extension.key;
    }
    assert extensions[..|extensions|] == extensions;
    return true;
  }

  /** One entry whose key must exceed `previous`; the critical range is refused by its own error. */
  function GetExtension(s: Bytes, previous: u64): Result<(Extension, Bytes), FormatError> {
    match GetUint(s, 0x1_0000_0000_0000_0000)
    case Err(error) => Err(error)
    case Ok((key, s1)) =>
      if key <= previous then Err(MalformedHeader)
      else if key < FIRST_IGNORABLE_KEY then Err(UnsupportedFeature)
      else if key >= 0x1_0000 then Err(MalformedHeader)
      else
        match GetBytes(s1)
        case Err(error) => Err(error)
        case Ok((value, rest)) =>
          if |value| > MAX_EXTENSION_LEN then Err(MalformedHeader) else Ok((Extension(key, value), rest))
  }

  function GetExtensions(s: Bytes, count: nat, previous: u64): Result<(seq<Extension>, Bytes), FormatError> {
    if count == 0 then Ok(([], s))
    else
      match GetExtension(s, previous)
      case Err(error) => Err(error)
      case Ok((extension, rest)) =>
        match GetExtensions(rest, count - 1, extension.key)
        case Err(error) => Err(error)
        case Ok((extensions, after)) => Ok(([extension] + extensions, after))
  }

  /** The decoder's loop, which keeps the last key it has seen. */
  method DecodeExtensions(s: Bytes, count: u64, lastCore: u64)
    returns (result: Result<(seq<Extension>, Bytes), FormatError>)
    ensures result == GetExtensions(s, count, lastCore)
  {
    hide GetExtension;
    var extensions: seq<Extension>, rest := [], s;
    var previous: u64 := lastCore;
    FollowingNothing(GetExtensions(s, count, lastCore));
    for k := 0 to count
      invariant GetExtensions(s, count, lastCore) == Following(extensions, GetExtensions(rest, count - k, previous))
    {
      var next := GetExtension(rest, previous);
      if next.Err? {
        return Err(next.error);
      }
      var (extension, after) := next.value;
      FollowingStep(extensions, extension, GetExtensions(after, count - k - 1, extension.key));
      extensions, rest, previous := extensions + [extension], after, extension.key;
    }
    assert extensions + [] == extensions;
    return Ok((extensions, rest));
  }

  lemma ExtensionRoundTrip(extension: Extension, previous: u64, rest: Bytes)
    requires FIRST_IGNORABLE_KEY <= extension.key && previous < extension.key && |extension.value| <= MAX_EXTENSION_LEN
    ensures GetExtension(PutExtension(extension, rest), previous) == Ok((extension, rest))
  {
    UintRoundTrip(extension.key, 0x1_0000_0000_0000_0000, PutBytes(extension.value, rest));
    BytesRoundTrip(extension.value, rest);
    hide PutUint, PutBytes, ReadUint, ReadBytes;
  }

  /** A key between the core keys and the ignorable range is refused as critical, never skipped. */
  lemma CriticalKeyRefused(extensions: seq<Extension>, previous: u64, rest: Bytes)
    requires extensions != [] && previous < extensions[0].key < FIRST_IGNORABLE_KEY
    ensures GetExtensions(PutAll(PutExtension, extensions, rest), |extensions|, previous) == Err(UnsupportedFeature)
  {
    var tail := PutBytes(extensions[0].value, PutAll(PutExtension, extensions[1..], rest));
    UintRoundTrip(extensions[0].key, 0x1_0000_0000_0000_0000, tail);
    hide PutUint, ReadUint;
  }

  lemma {:induction false} ExtensionsRoundTrip(extensions: seq<Extension>, previous: u64, rest: Bytes)
    requires ExtensionsOk(extensions) && (extensions != [] ==> previous < extensions[0].key)
    ensures GetExtensions(PutAll(PutExtension, extensions, rest), |extensions|, previous) == Ok((extensions, rest))
    decreases |extensions|
  {
    hide PutExtension, GetExtension;
    if extensions != [] {
      var tail := extensions[1..];
      ExtensionRoundTrip(extensions[0], previous, PutAll(PutExtension, tail, rest));
      assert tail != [] ==> tail[0] == extensions[1];
      ExtensionsRoundTrip(tail, extensions[0].key, rest);
      assert extensions == [extensions[0]] + tail;
    }
  }

  // ---------------------------------------------------------------- signatures

  function PutSignature(stanza: SignatureStanza, rest: Bytes): Bytes {
    PutArray(3, PutUint(1, PutBytes(stanza.verifyingKey, PutBytes(stanza.signature, rest))))
  }

  predicate SignatureFits(stanza: SignatureStanza) {
    |stanza.verifyingKey| == VERIFYING_KEY_LENGTH && |stanza.signature| == SIGNATURE_LENGTH
  }

  function GetSignature(s: Bytes): Result<(SignatureStanza, Bytes), FormatError> {
    match ReadLength(s, ARRAY)
    case None => Err(MalformedHeader)
    case Some((items, s1)) =>
      if items != Some(3) then Err(UnsupportedFeature)
      else
        match GetUint(s1, 0x100)
        case Err(error) => Err(error)
        case Ok((kind, s2)) => if kind != 1 then Err(UnsupportedFeature) else GetSignatureFields(s2)
  }

  function GetSignatureFields(s: Bytes): Result<(SignatureStanza, Bytes), FormatError> {
    match GetBytes(s)
    case Err(error) => Err(error)
    case Ok((verifyingKey, s1)) =>
      match GetBytes(s1)
      case Err(error) => Err(error)
      case Ok((signature, rest)) =>
        var stanza := SignatureStanza(verifyingKey, signature);
        if SignatureFits(stanza) then Ok((stanza, rest)) else Err(MalformedHeader)
  }

  lemma SignatureRoundTrip(stanza: SignatureStanza, rest: Bytes)
    requires SignatureFits(stanza)
    ensures GetSignature(PutSignature(stanza, rest)) == Ok((stanza, rest))
  {
    var s2 := PutBytes(stanza.signature, rest);
    var s1 := PutBytes(stanza.verifyingKey, s2);
    ArrayRoundTrip(3, PutUint(1, s1));
    UintRoundTrip(1, 0x100, s1);
    BytesRoundTrip(stanza.verifyingKey, s2);
    BytesRoundTrip(stanza.signature, rest);
    hide PutUint, PutBytes, PutArray, ReadUint, ReadBytes, ReadLength;
  }

  // ---------------------------------------------------------------- written one after another

  lemma SignatureAppends(stanza: SignatureStanza, rest: Bytes)
    ensures PutSignature(stanza, rest) == PutSignature(stanza, []) + rest
  {
    hide PutUint, PutArray, PutBytes;
    var a := PutBytes(stanza.signature, []);
    var b := PutBytes(stanza.verifyingKey, a);
    assert [] + rest == rest;
    BytesAppends(stanza.signature, [], rest);
    BytesAppends(stanza.verifyingKey, a, rest);
    UintAppends(1, b, rest);
    ArrayAppends(3, PutUint(1, b), rest);
  }

  lemma ExtensionAppends(extension: Extension, rest: Bytes)
    ensures PutExtension(extension, rest) == PutExtension(extension, []) + rest
  {
    hide PutUint, PutBytes;
    assert [] + rest == rest;
    BytesAppends(extension.value, [], rest);
    UintAppends(extension.key, PutBytes(extension.value, []), rest);
  }

  lemma ExtensionsFew(extensions: seq<Extension>)
    requires ExtensionsOk(extensions)
    ensures |extensions| <= MAX_EXTENSIONS
  {
  }

  lemma ExtensionsPrepend()
    ensures Prepends(PutExtension)
  {
    hide PutExtension;
    forall extension: Extension, rest: Bytes
      ensures PutExtension(extension, rest) == PutExtension(extension, []) + rest
    {
      ExtensionAppends(extension, rest);
    }
  }
}
