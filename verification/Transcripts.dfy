/**
 Preambles, and the message a container's signature covers (crates/hide-format/src/lib.rs,
 crates/hide-object/src/lib.rs).
 */
module Transcripts {
  import opened Bytes
  import opened CborLists
  import opened Extensions
  import opened Hashing
  import opened HeaderCodec
  import opened Results
  import opened Signing

  const MAGIC: Bytes := [0x48, 0x49, 0x44, 0x45, 13, 10, 26, 10]
  const PREAMBLE_LEN := 16
  const FLAG_SIGNED: byte := 1
  const LEGACY_SIGNED_MINOR: byte := 2
  const SIGNING_CONTEXT: Blob := Ascii("HIDE/1.0 container")
  const LEGACY_SIGNING_CONTEXT: Blob := Ascii("HIDE/0.5 container")

  // ---------------------------------------------------------------- the preamble

  datatype Preamble = Preamble(headerLen: nat, minor: byte, flags: byte) {
    predicate IsLegacy() {
      minor == LEGACY_SIGNED_MINOR
    }

    predicate IsSigned() {
      IsLegacy() || flags % 2 == 1
    }

    /** Everything but the header length, which no signature in the header can cover. */
    function SignedPrefix(): (prefix: Bytes)
      ensures |prefix| == 12
    {
      MAGIC + [0, minor, 1, flags]
    }

    function Encode(): (s: Bytes)
      ensures |s| == PREAMBLE_LEN
    {
      SignedPrefix() + BigEndian(headerLen, 4)
    }
  }

  function FromParts(headerLen: nat, minor: byte, flags: byte): Result<Preamble, FormatError> {
    if minor == 0 then Err(UnsupportedVersion)
    else if flags > FLAG_SIGNED || (minor == LEGACY_SIGNED_MINOR && flags != 0) then Err(UnsupportedFeature)
    else if headerLen == 0 || headerLen > MAX_HEADER_LEN then Err(HeaderTooLarge)
    else Ok(Preamble(headerLen, minor, flags))
  }

  function DecodePreamble(s: Bytes): Result<Preamble, FormatError> {
    if |s| != PREAMBLE_LEN || s[..8] != MAGIC then Err(InvalidContainer)
    else if s[8] != 0 then Err(UnsupportedVersion)
    else if s[10] != 1 then Err(UnsupportedFeature)
    else FromParts(FromBigEndian(s[12..]), s[9], s[11])
  }

  /** Exactly the preambles that pass the checks survive the wire, each in one form. */
  lemma PreambleRoundTrip(p: Preamble, s: Bytes)
    ensures DecodePreamble(s) == Ok(p) <==> s == p.Encode() && FromParts(p.headerLen, p.minor, p.flags) == Ok(p)
  {
    WordBounds();
    if s == p.Encode() && FromParts(p.headerLen, p.minor, p.flags) == Ok(p) {
      FromToBigEndian(p.headerLen, 4);
      assert s[12..] == BigEndian(p.headerLen, 4) && s[..8] == MAGIC;
    }
    if DecodePreamble(s) == Ok(p) {
      ToFromBigEndian(s[12..]);
      hide BigEndian, FromBigEndian;
      assert s == s[..8] + s[8..12] + s[12..];
      assert s[8..12] == [0, p.minor, 1, p.flags];
    }
  }

  // ---------------------------------------------------------------- the transcript

  function PutField(field: Blob, rest: Bytes): Bytes {
    Field(field) + rest
  }

  function PutStanzaBytes(stanza: Stanza, rest: Bytes): Bytes {
    U64(stanza.Tag()) + (U64(|stanza.Items()|) + PutAll(PutField, stanza.Items(), rest))
  }

  function PutExtensionBytes(extension: Extension, rest: Bytes): Bytes {
    BigEndian(extension.key, 2) + PutField(extension.value, rest)
  }

  /** Header lists are far shorter than any count that could wrap. */
  predicate Countable(h: ProtectedHeader) {
    |h.recipients| < 0x1_0000_0000_0000_0000 && |h.extensions| < 0x1_0000_0000_0000_0000
  }

  /** The end both forms share: the metadata base and what was encrypted. */
  function Tail(base: Blob, plaintextHash: Digest, plaintextLen: u64): Bytes {
    PutField(base, plaintextHash + U64(plaintextLen))
  }

  function CurrentTranscript(p: Preamble, h: ProtectedHeader, base: Blob, plaintextHash: Digest, plaintextLen: u64)
    : Bytes
    requires Countable(h)
  {
    Ascii("HIDE/1.0 transcript") + (p.SignedPrefix() + (BigEndian(SUITE, 2) + (h.objectId
      + (U64(|h.recipients|) + PutAll(PutStanzaBytes, h.recipients,
          U64(|h.extensions|) + PutAll(PutExtensionBytes, h.extensions, Tail(base, plaintextHash, plaintextLen)))))))
  }

  /** X-Wing stanzas are written without lengths; others are left out. */
  function PutXWing(stanza: Stanza, rest: Bytes): Bytes {
    if stanza.XWing? then stanza.encapsulation + (stanza.wrappedCek + rest) else rest
  }

  function LegacyTranscript(h: ProtectedHeader, base: Blob, plaintextHash: Digest, plaintextLen: u64): Bytes
    requires Countable(h)
  {
    Ascii("HIDE/0.5 transcript") + (BigEndian(SUITE, 2) + (h.objectId
      + (U64(|h.recipients|) + PutAll(PutXWing, h.recipients, Tail(base, plaintextHash, plaintextLen)))))
  }

  function Transcript(p: Preamble, h: ProtectedHeader, base: Blob, plaintextHash: Digest, plaintextLen: u64): Bytes
    requires Countable(h)
  {
    if p.IsLegacy() then LegacyTranscript(h, base, plaintextHash, plaintextLen)
    else CurrentTranscript(p, h, base, plaintextHash, plaintextLen)
  }

  // ---------------------------------------------------------------- building it

  lemma {:induction false} FieldsAppend(fields: seq<Blob>, rest: Bytes)
    ensures PutAll(PutField, fields, rest) == PutAll(PutField, fields, []) + rest
    decreases |fields|
  {
    hide Field;
    if fields == [] {
      assert [] + rest == rest;
    } else {
      FieldsAppend(fields[1..], rest);
    }
  }

  lemma StanzaBytesAppend(stanza: Stanza, rest: Bytes)
    ensures PutStanzaBytes(stanza, rest) == PutStanzaBytes(stanza, []) + rest
  {
    FieldsAppend(stanza.Items(), rest);
    hide PutAll, U64;
  }

  /** Appends field after field of one stanza, each behind its length. */
  method AppendStanza(stanza: Stanza, message: Bytes) returns (out: Bytes)
    ensures out == message + PutStanzaBytes(stanza, [])
  {
    hide U64;
    var fields := stanza.Items();
    out := message + U64(stanza.Tag()) + U64(|fields|);
    assert fields[0..] == fields;
    for k := 0 to |fields|
      invariant message + PutStanzaBytes(stanza, []) == out + PutAll(PutField, fields[k..], [])
    {
      assert fields[k..][1..] == fields[k + 1..];
      out := out + U64(|fields[k]|) + fields[k];
    }
  }

  method AppendStanzas(stanzas: seq<Stanza>, message: Bytes) returns (out: Bytes)
    ensures out == message + PutAll(PutStanzaBytes, stanzas, [])
  {
    hide PutStanzaBytes;
    out := message;
    assert stanzas[0..] == stanzas;
    for k := 0 to |stanzas|
      invariant message + PutAll(PutStanzaBytes, stanzas, []) == out + PutAll(PutStanzaBytes, stanzas[k..], [])
    {
      assert stanzas[k..][1..] == stanzas[k + 1..];
      StanzaBytesAppend(stanzas[k], PutAll(PutStanzaBytes, stanzas[k + 1..], []));
      out := AppendStanza(stanzas[k], out);
    }
  }

  method AppendExtensions(extensions: seq<Extension>, message: Bytes) returns (out: Bytes)
    ensures out == message + PutAll(PutExtensionBytes, extensions, [])
  {
    hide U64, BigEndian;
    out := message;
    assert extensions[0..] == extensions;
    for k := 0 to |extensions|
      invariant message + PutAll(PutExtensionBytes, extensions, [])
              == out + PutAll(PutExtensionBytes, extensions[k..], [])
    {
      assert extensions[k..][1..] == extensions[k + 1..];
      out := out + BigEndian(extensions[k].key, 2) + U64(|extensions[k].value|) + extensions[k].value;
    }
  }

  lemma {:induction false} StanzasAppend(stanzas: seq<Stanza>, rest: Bytes)
    ensures PutAll(PutStanzaBytes, stanzas, rest) == PutAll(PutStanzaBytes, stanzas, []) + rest
    decreases |stanzas|
  {
    hide PutStanzaBytes;
    if stanzas == [] {
      assert [] + rest == rest;
    } else {
      var more := PutAll(PutStanzaBytes, stanzas[1..], []);
      StanzasAppend(stanzas[1..], rest);
      StanzaBytesAppend(stanzas[0], more + rest);
      StanzaBytesAppend(stanzas[0], more);
    }
  }

  lemma {:induction false} ExtensionsAppend(extensions: seq<Extension>, rest: Bytes)
    ensures PutAll(PutExtensionBytes, extensions, rest) == PutAll(PutExtensionBytes, extensions, []) + rest
    decreases |extensions|
  {
    hide U64, BigEndian;
    if extensions == [] {
      assert [] + rest == rest;
    } else {
      ExtensionsAppend(extensions[1..], rest);
    }
  }

  /** The current form, field by field. */
  method BuildTranscript(p: Preamble, h: ProtectedHeader, base: Blob, plaintextHash: Digest, plaintextLen: u64)
    returns (message: Bytes)
    requires Countable(h)
    ensures message == CurrentTranscript(p, h, base, plaintextHash, plaintextLen)
  {
    hide PutStanzaBytes, PutExtensionBytes, PutAll, U64, BigEndian, Field;
    message := Ascii("HIDE/1.0 transcript") + p.SignedPrefix() + BigEndian(SUITE, 2) + h.objectId + U64(|h.recipients|);
    message := AppendStanzas(h.recipients, message);
    message := message + U64(|h.extensions|);
    message := AppendExtensions(h.extensions, message);
    var tail := Tail(base, plaintextHash, plaintextLen);
    ExtensionsAppend(h.extensions, tail);
    StanzasAppend(h.recipients, U64(|h.extensions|) + PutAll(PutExtensionBytes, h.extensions, tail));
    message := message + Field(base) + plaintextHash + U64(plaintextLen);
  }

  // ---------------------------------------------------------------- what it commits to

  lemma TailSplit(base: Blob, hash: Digest, len: u64, base': Blob, hash': Digest, len': u64)
    requires Tail(base, hash, len) == Tail(base', hash', len')
    ensures base == base' && hash == hash' && len == len'
  {
    FieldSplit(base, hash + U64(len), base', hash' + U64(len'));
    SplitEqual(hash, U64(len), hash', U64(len'));
    U64Injective(len, len');
  }

  lemma {:induction false} FieldsSplit(fields: seq<Blob>, rest: Bytes, fields': seq<Blob>, rest': Bytes)
    requires |fields| == |fields'| && PutAll(PutField, fields, rest) == PutAll(PutField, fields', rest')
    ensures fields == fields' && rest == rest'
    decreases |fields|
  {
    if fields != [] {
      var more, more' := PutAll(PutField, fields[1..], rest), PutAll(PutField, fields'[1..], rest');
      FieldSplit(fields[0], more, fields'[0], more');
      FieldsSplit(fields[1..], rest, fields'[1..], rest');
      assert fields == [fields[0]] + fields[1..] && fields' == [fields'[0]] + fields'[1..];
    }
  }

  lemma StanzaSplit(a: Stanza, rest: Bytes, b: Stanza, rest': Bytes)
    requires PutStanzaBytes(a, rest) == PutStanzaBytes(b, rest')
    ensures a.Tag() == b.Tag() && a.Items() == b.Items() && rest == rest'
  {
    var fields, fields' := PutAll(PutField, a.Items(), rest), PutAll(PutField, b.Items(), rest');
    SplitEqual(U64(a.Tag()), U64(|a.Items()|) + fields, U64(b.Tag()), U64(|b.Items()|) + fields');
    SplitEqual(U64(|a.Items()|), fields, U64(|b.Items()|), fields');
    U64Injective(a.Tag(), b.Tag());
    U64Injective(|a.Items()|, |b.Items()|);
    FieldsSplit(a.Items(), rest, b.Items(), rest');
  }

  /** Stanza by stanza, the same tag and the same fields. */
  predicate SameStanzas(a: seq<Stanza>, b: seq<Stanza>) {
    |a| == |b| && forall i :: 0 <= i < |a| ==> a[i].Tag() == b[i].Tag() && a[i].Items() == b[i].Items()
  }

  lemma {:induction false} StanzasSplit(a: seq<Stanza>, rest: Bytes, b: seq<Stanza>, rest': Bytes)
    requires |a| == |b| && PutAll(PutStanzaBytes, a, rest) == PutAll(PutStanzaBytes, b, rest')
    ensures SameStanzas(a, b) && rest == rest'
    decreases |a|
  {
    hide PutStanzaBytes;
    if a != [] {
      StanzaSplit(a[0], PutAll(PutStanzaBytes, a[1..], rest), b[0], PutAll(PutStanzaBytes, b[1..], rest'));
      StanzasSplit(a[1..], rest, b[1..], rest');
      forall i | 0 <= i < |a| ensures a[i].Tag() == b[i].Tag() && a[i].Items() == b[i].Items() {
        if i > 0 {
          assert a[i] == a[1..][i - 1] && b[i] == b[1..][i - 1];
        }
      }
    }
  }

  lemma {:induction false} ExtensionsSplit(a: seq<Extension>, rest: Bytes, b: seq<Extension>, rest': Bytes)
    requires |a| == |b| && PutAll(PutExtensionBytes, a, rest) == PutAll(PutExtensionBytes, b, rest')
    ensures a == b && rest == rest'
    decreases |a|
  {
    if a != [] {
      var more, more' := PutAll(PutExtensionBytes, a[1..], rest), PutAll(PutExtensionBytes, b[1..], rest');
      SplitEqual(BigEndian(a[0].key, 2), PutField(a[0].value, more), BigEndian(b[0].key, 2),
                 PutField(b[0].value, more'));
      FieldSplit(a[0].value, more, b[0].value, more');
      WordBounds();
      FromToBigEndian(a[0].key, 2);
      FromToBigEndian(b[0].key, 2);
      ExtensionsSplit(a[1..], rest, b[1..], rest');
      assert a == [a[0]] + a[1..] && b == [b[0]] + b[1..];
    }
  }

  /** Stanzas that fit their types are told apart by tag and fields alone. */
  lemma FittingStanzasEqual(a: seq<Stanza>, b: seq<Stanza>)
    requires SameStanzas(a, b)
    requires forall i :: 0 <= i < |a| ==> StanzaFits(a[i]) && StanzaFits(b[i])
    ensures a == b
  {
    forall i | 0 <= i < |a| ensures a[i] == b[i] {
      assert StanzaFits(a[i]) && StanzaFits(b[i]);
      assert a[i].Items() == b[i].Items();
      if a[i].XWing? {
        assert a[i].Items()[0] == a[i].encapsulation && a[i].Items()[1] == a[i].wrappedCek;
        assert b[i].Items()[0] == b[i].encapsulation && b[i].Items()[1] == b[i].wrappedCek;
      }
    }
  }

  /** One transcript, one container: versions, flags, recipients, extensions, metadata and plaintext. */
  lemma CurrentInjective(p: Preamble, h: ProtectedHeader, base: Blob, hash: Digest, len: u64,
                         p': Preamble, h': ProtectedHeader, base': Blob, hash': Digest, len': u64)
    requires Countable(h) && Countable(h')
    requires CurrentTranscript(p, h, base, hash, len) == CurrentTranscript(p', h', base', hash', len')
    ensures p.minor == p'.minor && p.flags == p'.flags
    ensures h.objectId == h'.objectId && SameStanzas(h.recipients, h'.recipients) && h.extensions == h'.extensions
    ensures base == base' && hash == hash' && len == len'
  {
    var z, z' := Tail(base, hash, len), Tail(base', hash', len');
    var e, e' := PutAll(PutExtensionBytes, h.extensions, z), PutAll(PutExtensionBytes, h'.extensions, z');
    var d, d' := U64(|h.extensions|) + e, U64(|h'.extensions|) + e';
    var r, r' := PutAll(PutStanzaBytes, h.recipients, d), PutAll(PutStanzaBytes, h'.recipients, d');
    var c, c' := U64(|h.recipients|) + r, U64(|h'.recipients|) + r';
    hide PutStanzaBytes, PutExtensionBytes, PutAll, U64, BigEndian, SameStanzas, Tail;
    var text, suite := Ascii("HIDE/1.0 transcript"), BigEndian(SUITE, 2);
    SplitEqual(text, p.SignedPrefix() + (suite + (h.objectId + c)),
               text, p'.SignedPrefix() + (suite + (h'.objectId + c')));
    SplitEqual(p.SignedPrefix(), suite + (h.objectId + c), p'.SignedPrefix(), suite + (h'.objectId + c'));
    SplitEqual(suite, h.objectId + c, suite, h'.objectId + c');
    SplitEqual(h.objectId, c, h'.objectId, c');
    SplitEqual(U64(|h.recipients|), r, U64(|h'.recipients|), r');
    U64Injective(|h.recipients|, |h'.recipients|);
    StanzasSplit(h.recipients, d, h'.recipients, d');
    SplitEqual(U64(|h.extensions|), e, U64(|h'.extensions|), e');
    U64Injective(|h.extensions|, |h'.extensions|);
    ExtensionsSplit(h.extensions, z, h'.extensions, z');
    TailSplit(base, hash, len, base', hash', len');
    assert p.SignedPrefix()[9] == p.minor && p'.SignedPrefix()[9] == p'.minor;
    assert p.SignedPrefix()[11] == p.flags && p'.SignedPrefix()[11] == p'.flags;
  }

  // ---------------------------------------------------------------- the legacy form

  /** What a reader lets through under minor 2: known recipients only, and no extensions. */
  predicate LegacyAdmitted(h: ProtectedHeader) {
    h.extensions == [] && forall i :: 0 <= i < |h.recipients| ==> h.recipients[i].XWing?
  }

  predicate StanzasFit(h: ProtectedHeader) {
    forall i :: 0 <= i < |h.recipients| ==> StanzaFits(h.recipients[i])
  }

  lemma {:induction false} XWingsSplit(a: seq<Stanza>, rest: Bytes, b: seq<Stanza>, rest': Bytes)
    requires |a| == |b| && PutAll(PutXWing, a, rest) == PutAll(PutXWing, b, rest')
    requires forall i :: 0 <= i < |a| ==> a[i].XWing? && b[i].XWing? && StanzaFits(a[i]) && StanzaFits(b[i])
    ensures a == b && rest == rest'
    decreases |a|
  {
    if a != [] {
      var more, more' := PutAll(PutXWing, a[1..], rest), PutAll(PutXWing, b[1..], rest');
      SplitEqual(a[0].encapsulation, a[0].wrappedCek + more, b[0].encapsulation, b[0].wrappedCek + more');
      SplitEqual(a[0].wrappedCek, more, b[0].wrappedCek, more');
      XWingsSplit(a[1..], rest, b[1..], rest');
      assert a == [a[0]] + a[1..] && b == [b[0]] + b[1..];
    }
  }

  /** On the headers it is used for, the legacy transcript fixes them too. */
  lemma LegacyInjective(h: ProtectedHeader, base: Blob, hash: Digest, len: u64,
                        h': ProtectedHeader, base': Blob, hash': Digest, len': u64)
    requires Countable(h) && Countable(h') && StanzasFit(h) && StanzasFit(h')
    requires LegacyAdmitted(h) && LegacyAdmitted(h')
    requires LegacyTranscript(h, base, hash, len) == LegacyTranscript(h', base', hash', len')
    ensures h.objectId == h'.objectId && h.recipients == h'.recipients && h.extensions == h'.extensions
    ensures base == base' && hash == hash' && len == len'
  {
    var z, z' := Tail(base, hash, len), Tail(base', hash', len');
    var r, r' := PutAll(PutXWing, h.recipients, z), PutAll(PutXWing, h'.recipients, z');
    var c, c' := U64(|h.recipients|) + r, U64(|h'.recipients|) + r';
    hide PutXWing, PutAll, U64, BigEndian, Tail, StanzaFits;
    var text, suite := Ascii("HIDE/0.5 transcript"), BigEndian(SUITE, 2);
    SplitEqual(text, suite + (h.objectId + c), text, suite + (h'.objectId + c'));
    SplitEqual(suite, h.objectId + c, suite, h'.objectId + c');
    SplitEqual(h.objectId, c, h'.objectId, c');
    SplitEqual(U64(|h.recipients|), r, U64(|h'.recipients|), r');
    U64Injective(|h.recipients|, |h'.recipients|);
    XWingsSplit(h.recipients, z, h'.recipients, z');
    TailSplit(base, hash, len, base', hash', len');
  }

  function FirstUnknown(stanzas: seq<Stanza>): (i: nat)
    requires exists j :: 0 <= j < |stanzas| && !stanzas[j].XWing?
    ensures i < |stanzas| && stanzas[i].Unknown?
  {
    if stanzas[0].Unknown? then 0 else 1 + FirstUnknown(stanzas[1..])
  }

  /** Another header with the same legacy transcript, for every header the guard keeps out. */
  function Twin(h: ProtectedHeader): (twin: ProtectedHeader)
    requires StanzasFit(h) && !LegacyAdmitted(h)
    ensures twin != h
  {
    if h.extensions != [] then h.(extensions := [])
    else
      var i := FirstUnknown(h.recipients);
      var other := Unknown(if h.recipients[i].unknownTag == 2 then 3 else 2, []);
      assert h.recipients[i := other][i] != h.recipients[i];
      h.(recipients := h.recipients[i := other])
  }

  lemma {:induction false} UnknownUnseen(a: seq<Stanza>, i: nat, other: Stanza, rest: Bytes)
    requires i < |a| && a[i].Unknown? && other.Unknown?
    ensures PutAll(PutXWing, a[i := other], rest) == PutAll(PutXWing, a, rest)
    decreases |a|
  {
    if i > 0 {
      UnknownUnseen(a[1..], i - 1, other, rest);
      assert a[i := other][1..] == a[1..][i - 1 := other];
    } else {
      assert a[i := other][1..] == a[1..];
    }
  }

  /** The guard is exact: without it, the legacy transcript would not tell two headers apart. */
  lemma LegacyNeedsGuard(h: ProtectedHeader, base: Blob, hash: Digest, len: u64)
    requires Countable(h) && StanzasFit(h) && !LegacyAdmitted(h)
    ensures Countable(Twin(h)) && StanzasFit(Twin(h)) && Twin(h) != h
    ensures LegacyTranscript(Twin(h), base, hash, len) == LegacyTranscript(h, base, hash, len)
  {
    var twin := Twin(h);
    if h.extensions == [] {
      var i := FirstUnknown(h.recipients);
      UnknownUnseen(h.recipients, i, twin.recipients[i], Tail(base, hash, len));
    }
  }

  /** No message is a transcript of both forms, so neither signature passes for the other. */
  lemma FormsDiffer(p: Preamble, h: ProtectedHeader, base: Blob, hash: Digest, len: u64,
                    h': ProtectedHeader, base': Blob, hash': Digest, len': u64)
    requires Countable(h) && Countable(h')
    ensures CurrentTranscript(p, h, base, hash, len) != LegacyTranscript(h', base', hash', len')
  {
    hide PutStanzaBytes, PutExtensionBytes, PutXWing, PutAll, U64, BigEndian, Tail;
    assert CurrentTranscript(p, h, base, hash, len)[5] == Ascii("HIDE/1.0 transcript")[5];
    assert LegacyTranscript(h', base', hash', len')[5] == Ascii("HIDE/0.5 transcript")[5];
  }
}
