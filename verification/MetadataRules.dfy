/** Exactly which metadata may be written or read, and its bytes (crates/hide-format/src/codec.rs). */
module MetadataRules {
  import opened Bytes
  import opened Cbor
  import opened CborLists
  import opened ExtensionRules
  import opened Extensions
  import opened MetadataCodec
  import opened Results
  import opened Signing
  import opened WireForms

  // ---------------------------------------------------------------- a name that is one path component

  /** The text is this word, in any letter case. */
  predicate Spells(text: Bytes, word: string) {
    |text| == |word|
    && forall i :: 0 <= i < |word| ==>
         text[i] == word[i] as int || ('A' <= word[i] <= 'Z' && text[i] == word[i] as int + 32)
  }

  /** CON, PRN, AUX, NUL, COM1 to COM9 and LPT1 to LPT9. */
  predicate DeviceName(text: Bytes) {
    || Spells(text, "CON") || Spells(text, "PRN") || Spells(text, "AUX") || Spells(text, "NUL")
    || (|text| == 4 && (Spells(text[..3], "COM") || Spells(text[..3], "LPT"))
        && text[3] in {49, 50, 51, 52, 53, 54, 55, 56, 57})
  }

  /** No control character: none below 32, not 127, and not the two bytes of U+0080 to U+009F. */
  predicate NoControls(name: Bytes) {
    && (forall i :: 0 <= i < |name| ==> name[i] >= 32 && name[i] != 127)
    && forall i :: 0 <= i < |name| - 1 && name[i] == 0xc2 ==> name[i + 1] < 0x80 || name[i + 1] > 0x9f
  }

  /** One path component that every common system takes as it is. */
  predicate SafeName(name: Bytes) {
    && 1 <= |name| <= 255 && name != [46] && name != [46, 46]
    && name[|name| - 1] !in {46, 32}
    && NoControls(name)
    && (forall i :: 0 <= i < |name| ==> name[i] !in {47, 92, 60, 62, 58, 34, 124, 63, 42})
    && forall n :: 0 <= n <= |name| && 46 !in name[..n] && (n < |name| ==> name[n] == 46) ==> !DeviceName(name[..n])
  }

  lemma UpperSpells(text: Bytes, word: string)
    requires forall i :: 0 <= i < |word| ==> 'A' <= word[i] <= 'Z'
    ensures Upper(text) == Ascii(word) <==> Spells(text, word)
  {
    if Upper(text) == Ascii(word) {
      forall i | 0 <= i < |word|
        ensures text[i] == word[i] as int || text[i] == word[i] as int + 32
      {
        assert Upper(text)[i] == Ascii(word)[i];
      }
    }
  }

  lemma ReservedIsDevice(stem: Bytes)
    ensures Reserved(stem) <==> DeviceName(stem)
  {
    UpperSpells(stem, "CON");
    UpperSpells(stem, "PRN");
    UpperSpells(stem, "AUX");
    UpperSpells(stem, "NUL");
    if |stem| == 4 {
      assert Upper(stem)[..3] == Upper(stem[..3]);
      UpperSpells(stem[..3], "COM");
      UpperSpells(stem[..3], "LPT");
      assert Ascii("COM") <= Upper(stem) <==> Upper(stem)[..3] == Ascii("COM");
      assert Ascii("LPT") <= Upper(stem) <==> Upper(stem)[..3] == Ascii("LPT");
      assert 49 <= Upper(stem)[3] <= 57 <==> 49 <= stem[3] <= 57;
    }
    hide Upper, Spells, Ascii;
  }

  lemma ForbiddenBytes(b: byte)
    ensures b in Ascii("<>:\"/\\|?*") <==> b in {47, 92, 60, 62, 58, 34, 124, 63, 42}
  {
    assert Ascii("<>:\"/\\|?*") == [60, 62, 58, 34, 47, 92, 124, 63, 42];
  }

  /** The part before the first dot. */
  lemma StemExactly(name: Bytes)
    ensures DeviceName(name[..FirstIndex(name, 46)])
       <==> exists n :: 0 <= n <= |name| && 46 !in name[..n] && (n < |name| ==> name[n] == 46) && DeviceName(name[..n])
  {
    var k := FirstIndex(name, 46);
    hide DeviceName, FirstIndex;
    if n :| 0 <= n <= |name| && 46 !in name[..n] && (n < |name| ==> name[n] == 46) && DeviceName(name[..n]) {
      assert n <= k;
    }
    assert 46 !in name[..k];
  }

  lemma FilenameExactly(name: Bytes)
    ensures ValidFilename(name) <==> SafeName(name)
  {
    forall b: byte ensures b in Ascii("<>:\"/\\|?*") <==> b in {47, 92, 60, 62, 58, 34, 124, 63, 42} {
      ForbiddenBytes(b);
    }
    assert Ascii(".") == [46] && Ascii("..") == [46, 46];
    StemExactly(name);
    ReservedIsDevice(name[..FirstIndex(name, 46)]);
    hide DeviceName, Reserved, Ascii, FirstIndex;
  }

  // ---------------------------------------------------------------- everything else that is checked

  predicate Writable(m: Metadata) {
    && (m.filename.Some? ==> SafeName(m.filename.value))
    && (m.mediaType.Some? ==>
          && 1 <= |m.mediaType.value| <= 255
          && forall i :: 0 <= i < |m.mediaType.value| ==> 32 <= m.mediaType.value[i] <= 126)
    && (m.signature.Some? ==> |m.signature.value.verifyingKey| == 1984 && |m.signature.value.signature| == 3373)
    && LegalExtensions(m.extensions)
  }

  lemma OkIsWritable(m: Metadata)
    ensures MetadataOk(m) <==> Writable(m)
  {
    if m.filename.Some? {
      FilenameExactly(m.filename.value);
    }
    ExtensionsExactly(m.extensions);
    hide ValidFilename, SafeName, ExtensionsOk, LegalExtensions, Utf8;
  }

  // ---------------------------------------------------------------- the bytes

  /** A map of field 1, 2 and 3 where present, and then the extensions. */
  function MetadataForm(m: Metadata): Bytes
    requires |m.extensions| <= 16
  {
    Item(5, (if m.filename.Some? then 1 else 0) + (if m.mediaType.Some? then 1 else 0)
            + (if m.signature.Some? then 1 else 0) + |m.extensions|)
    + (if m.filename.Some? then [1] + TextString(m.filename.value) else [])
    + (if m.mediaType.Some? then [2] + TextString(m.mediaType.value) else [])
    + (if m.signature.Some? then [3] + SignatureForm(m.signature.value) else [])
    + Joined(ExtensionForm, m.extensions)
  }

  lemma TextIsForm(field: byte, text: Option<Utf8Text>, rest: Bytes)
    requires field in {1, 2}
    ensures PutOptionalText(field, text, rest)
         == (if text.Some? then [field] + TextString(text.value) else []) + rest
  {
    hide PutUint, PutText, Item, TextString, Utf8;
    SmallItems();
    if text.Some? {
      UintForm(field, PutText(text.value, rest));
      TextForm(text.value, rest);
    }
  }

  lemma MetadataIsForm(m: Metadata)
    requires |m.extensions| <= 16
    ensures PutMap(Count(m), PutItems(m)) == MetadataForm(m)
  {
    hide PutUint, PutMap, PutAll, PutOptionalText, PutExtension, PutSignature, Item, TextString, Utf8,
      SignatureForm, ExtensionForm, Joined;
    var extensions := PutAll(PutExtension, m.extensions, []);
    var signed := PutOptionalSignature(m.signature, extensions);
    var typed := PutOptionalText(2, m.mediaType, signed);
    ExtensionsAreForms(m.extensions, []);
    assert Joined(ExtensionForm, m.extensions) + [] == Joined(ExtensionForm, m.extensions);
    SmallItems();
    if m.signature.Some? {
      UintForm(3, PutSignature(m.signature.value, extensions));
      SignatureIsForm(m.signature.value, extensions);
    }
    TextIsForm(2, m.mediaType, signed);
    TextIsForm(1, m.filename, typed);
    MapForm(Count(m), PutItems(m));
  }

  // ---------------------------------------------------------------- exactly what is written and read

  lemma EncodedExactly(m: Metadata)
    ensures Encoded(m) == if Writable(m) then Ok(MetadataForm(m)) else Err(InvalidMetadata)
  {
    OkIsWritable(m);
    hide MetadataOk, SafeName, MetadataForm, PutMap, Count, PutItems, Utf8;
    if Writable(m) {
      MetadataIsForm(m);
    }
  }

  /** Bytes are read as `m` if and only if `m` may be written, they are its one form, and there are few enough. */
  lemma DecodedExactly(s: Bytes, m: Metadata)
    ensures Decoded(s) == Ok(m) <==> Writable(m) && s == MetadataForm(m) && |s| <= 262144
  {
    EncodedExactly(m);
    hide Encoded, Writable, MetadataForm, Decoded, Utf8;
    if Decoded(s).Ok? {
      MetadataCanonical(s);
      EncodedExactly(Decoded(s).value);
    }
    if Encoded(m).Ok? {
      MetadataRoundTrip(m);
    }
  }

  /** As far as the filename goes: metadata may be written just when it could be without one, and its name is safe. */
  lemma FilenameDecides(m: Metadata)
    ensures Encoded(m).Ok?
       <==> Encoded(m.(filename := None)).Ok? && (m.filename.Some? ==> SafeName(m.filename.value))
  {
    EncodedExactly(m);
    EncodedExactly(m.(filename := None));
    hide Encoded, SafeName, MetadataForm, LegalExtensions, Utf8;
  }

  /** No name is read but a safe one. */
  lemma ReadNameIsSafe(s: Bytes)
    requires Decoded(s).Ok? && Decoded(s).value.filename.Some?
    ensures SafeName(Decoded(s).value.filename.value)
  {
    DecodedExactly(s, Decoded(s).value);
    hide Decoded, SafeName, MetadataForm, Utf8;
  }
}
