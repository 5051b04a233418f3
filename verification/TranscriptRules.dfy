/** Preambles and signed messages byte by byte (crates/hide-format/src/lib.rs, crates/hide-object/src/lib.rs). */
module TranscriptRules {
  import opened Bytes
  import opened CborLists
  import opened Extensions
  import opened Hashing
  import opened HeaderCodec
  import opened Results
  import opened Signing
  import opened Transcripts
  import opened WireForms

  // ---------------------------------------------------------------- the preamble

  /** The magic, version 0.`minor`, profile 1, the flags, and the length of the header. */
  function PreambleForm(headerLen: u64, minor: byte, flags: byte): Bytes {
    [0x48, 0x49, 0x44, 0x45, 0x0d, 0x0a, 0x1a, 0x0a] + [0, minor, 1, flags] + U64(headerLen)[4..]
  }

  /** One flag, which minor 2 may not use, and at most 1 MiB of header. */
  predicate LegalPreamble(p: Preamble) {
    && 1 <= p.minor && p.flags <= 1 && (p.minor == 2 ==> p.flags == 0)
    && 1 <= p.headerLen <= 1048576
  }

  lemma PreambleExactly(s: Bytes, p: Preamble)
    ensures DecodePreamble(s) == Ok(p) <==> LegalPreamble(p) && s == PreambleForm(p.headerLen, p.minor, p.flags)
  {
    PreambleRoundTrip(p, s);
    if LegalPreamble(p) {
      LastFour(p.headerLen);
      assert p.Encode() == PreambleForm(p.headerLen, p.minor, p.flags) by { hide U64, BigEndian; }
    }
    hide DecodePreamble, Preamble.Encode, PreambleForm;
  }

  /** Signed is what says so, and everything under minor 2. */
  lemma SignedExactly(p: Preamble)
    requires p.flags <= 1
    ensures p.IsSigned() <==> p.minor == 2 || p.flags == 1
  {
  }

  // ---------------------------------------------------------------- the message a signature covers

  function LengthFirst(s: Blob): Bytes {
    U64(|s|) + s
  }

  /** Tag, number of fields, and each field behind its length. */
  function StanzaFields(stanza: Stanza): Bytes {
    match stanza
    case XWing(encapsulation, wrappedCek) => U64(1) + U64(2) + LengthFirst(encapsulation) + LengthFirst(wrappedCek)
    case Unknown(tag, fields) => U64(tag) + U64(|fields|) + Joined(LengthFirst, fields)
  }

  function ExtensionFields(extension: Extension): Bytes {
    [extension.key / 256, extension.key % 256] + LengthFirst(extension.value)
  }

  /** Everything of a container that its signature stands for, in one run of bytes. */
  function MessageForm(p: Preamble, h: ProtectedHeader, base: Blob, hash: Digest, length: u64): Bytes
    requires Countable(h)
  {
    Ascii("HIDE/1.0 transcript") + [0x48, 0x49, 0x44, 0x45, 0x0d, 0x0a, 0x1a, 0x0a, 0, p.minor, 1, p.flags]
    + [0, 1] + h.objectId
    + U64(|h.recipients|) + Joined(StanzaFields, h.recipients)
    + U64(|h.extensions|) + Joined(ExtensionFields, h.extensions)
    + LengthFirst(base) + hash + U64(length)
  }

  function XWingFields(stanza: Stanza): Bytes {
    if stanza.XWing? then stanza.encapsulation + stanza.wrappedCek else []
  }

  /** What minor 2 signed: neither version and flags nor extensions. */
  function LegacyForm(h: ProtectedHeader, base: Blob, hash: Digest, length: u64): Bytes
    requires Countable(h)
  {
    Ascii("HIDE/0.5 transcript") + [0, 1] + h.objectId + U64(|h.recipients|) + Joined(XWingFields, h.recipients)
    + LengthFirst(base) + hash + U64(length)
  }

  lemma {:induction false} FieldsAreForms(fields: seq<Blob>, rest: Bytes)
    ensures PutAll(PutField, fields, rest) == Joined(LengthFirst, fields) + rest
  {
    hide LengthFirst, U64, Joined;
    forall field: Blob, more: Bytes | field in fields ensures PutField(field, more) == LengthFirst(field) + more {
      FieldForm(field, more);
    }
    AllForm(PutField, LengthFirst, fields, rest);
  }

  lemma FieldForm(field: Blob, rest: Bytes)
    ensures PutField(field, rest) == LengthFirst(field) + rest
  {
  }

  lemma StanzaIsFields(stanza: Stanza, rest: Bytes)
    ensures PutStanzaBytes(stanza, rest) == StanzaFields(stanza) + rest
  {
    FieldsAreForms(stanza.Items(), rest);
    if stanza.XWing? {
      TwoFields(stanza.encapsulation, stanza.wrappedCek);
    }
    hide U64, PutAll, LengthFirst, Joined;
  }

  lemma TwoFields(a: Blob, b: Blob)
    ensures Joined(LengthFirst, [a, b]) == LengthFirst(a) + LengthFirst(b)
  {
    hide LengthFirst;
    assert [a, b][1..] == [b] && [b][1..] == [];
    assert Joined(LengthFirst, [b]) == LengthFirst(b);
  }

  lemma ExtensionIsFields(extension: Extension, rest: Bytes)
    ensures PutExtensionBytes(extension, rest) == ExtensionFields(extension) + rest
  {
    assert BigEndian(extension.key, 2) == [extension.key / 256, extension.key % 256] by { TwoBytes(extension.key); }
    FieldForm(extension.value, rest);
    hide BigEndian, LengthFirst, PutField;
  }

  lemma TwoBytes(n: u16)
    ensures BigEndian(n, 2) == [n / 256, n % 256]
  {
    assert BigEndian(n, 2) == (BigEndian(n / 256 / 256, 0) + [n / 256 % 256]) + [n % 256];
  }

  lemma StanzasAreFields(stanzas: seq<Stanza>, rest: Bytes)
    ensures PutAll(PutStanzaBytes, stanzas, rest) == Joined(StanzaFields, stanzas) + rest
    ensures PutAll(PutXWing, stanzas, rest) == Joined(XWingFields, stanzas) + rest
  {
    hide PutStanzaBytes, StanzaFields, Joined, PutAll;
    forall stanza: Stanza, more: Bytes | stanza in stanzas
      ensures PutStanzaBytes(stanza, more) == StanzaFields(stanza) + more
      ensures PutXWing(stanza, more) == XWingFields(stanza) + more
    {
      StanzaIsFields(stanza, more);
    }
    AllForm(PutStanzaBytes, StanzaFields, stanzas, rest);
    AllForm(PutXWing, XWingFields, stanzas, rest);
  }

  lemma ExtensionsAreFields(extensions: seq<Extension>, rest: Bytes)
    ensures PutAll(PutExtensionBytes, extensions, rest) == Joined(ExtensionFields, extensions) + rest
  {
    hide PutExtensionBytes, ExtensionFields, Joined, PutAll;
    forall extension: Extension, more: Bytes | extension in extensions
      ensures PutExtensionBytes(extension, more) == ExtensionFields(extension) + more
    {
      ExtensionIsFields(extension, more);
    }
    AllForm(PutExtensionBytes, ExtensionFields, extensions, rest);
  }

  lemma Nested(a: Bytes, b: Bytes, c: Bytes, d: Bytes, e: Bytes, rest: Bytes)
    ensures a + (b + (c + (d + (e + rest)))) == a + b + c + d + e + rest
  {
  }

  lemma CurrentIsForm(p: Preamble, h: ProtectedHeader, base: Blob, hash: Digest, length: u64)
    requires Countable(h)
    ensures CurrentTranscript(p, h, base, hash, length) == MessageForm(p, h, base, hash, length)
  {
    hide U64, BigEndian, PutAll, LengthFirst, Joined, Ascii, PutField;
    var tail := Tail(base, hash, length);
    var extensions := U64(|h.extensions|) + PutAll(PutExtensionBytes, h.extensions, tail);
    FieldForm(base, hash + U64(length));
    TwoBytes(1);
    ExtensionsAreFields(h.extensions, tail);
    StanzasAreFields(h.recipients, extensions);
    var a, b, n, m := Joined(StanzaFields, h.recipients), Joined(ExtensionFields, h.extensions), U64(|h.recipients|),
      U64(|h.extensions|);
    var prefix := [0x48, 0x49, 0x44, 0x45, 0x0d, 0x0a, 0x1a, 0x0a, 0, p.minor, 1, p.flags];
    assert p.SignedPrefix() == prefix;
    Nested(Ascii("HIDE/1.0 transcript"), prefix, [0, 1], h.objectId, n, a + extensions);
    assert extensions == m + b + LengthFirst(base) + hash + U64(length);
    hide StanzaFields, ExtensionFields, Tail, Preamble.SignedPrefix;
  }

  lemma LegacyIsForm(h: ProtectedHeader, base: Blob, hash: Digest, length: u64)
    requires Countable(h)
    ensures LegacyTranscript(h, base, hash, length) == LegacyForm(h, base, hash, length)
  {
    hide U64, BigEndian, PutAll, LengthFirst, Joined, Ascii, PutField;
    var tail := Tail(base, hash, length);
    FieldForm(base, hash + U64(length));
    TwoBytes(1);
    StanzasAreFields(h.recipients, tail);
    Nested(Ascii("HIDE/0.5 transcript"), [0, 1], h.objectId, U64(|h.recipients|), Joined(XWingFields, h.recipients),
           tail);
    assert tail == LengthFirst(base) + hash + U64(length);
    hide XWingFields, Tail;
  }

  /** The signed message of a container, under either form. */
  lemma TranscriptIsForm(p: Preamble, h: ProtectedHeader, base: Blob, hash: Digest, length: u64)
    requires Countable(h)
    ensures Transcript(p, h, base, hash, length)
         == if p.minor == 2 then LegacyForm(h, base, hash, length) else MessageForm(p, h, base, hash, length)
  {
    CurrentIsForm(p, h, base, hash, length);
    LegacyIsForm(h, base, hash, length);
    hide CurrentTranscript, LegacyTranscript, LegacyForm, MessageForm;
  }
}
