/** Extensions and signature stanzas, byte by byte (crates/hide-format/src/codec.rs). */
module ExtensionRules {
  import opened Bytes
  import opened Cbor
  import opened CborLists
  import opened Extensions
  import opened WireForms

  predicate LegalExtensions(extensions: seq<Extension>) {
    && |extensions| <= 16
    && (forall i :: 0 <= i < |extensions| ==> extensions[i].key >= 64 && |extensions[i].value| <= 65536)
    && forall i :: 0 <= i < |extensions| - 1 ==> extensions[i].key < extensions[i + 1].key
  }

  lemma {:induction false} Ascending(extensions: seq<Extension>, i: nat, j: nat)
    requires LegalExtensions(extensions) && i < j < |extensions|
    ensures extensions[i].key < extensions[j].key
    decreases j
  {
    if i + 1 < j {
      Ascending(extensions, i, j - 1);
    }
  }

  lemma ExtensionsExactly(extensions: seq<Extension>)
    ensures ExtensionsOk(extensions) <==> LegalExtensions(extensions)
  {
    if LegalExtensions(extensions) {
      forall i, j | 0 <= i < j < |extensions| ensures extensions[i].key < extensions[j].key {
        Ascending(extensions, i, j);
      }
    }
  }

  function ExtensionForm(extension: Extension): Bytes {
    Item(0, extension.key) + ByteString(extension.value)
  }

  function SignatureForm(stanza: SignatureStanza): Bytes {
    [0x83, 1] + ByteString(stanza.verifyingKey) + ByteString(stanza.signature)
  }

  lemma SmallItems()
    ensures Item(0, 1) == [1] && Item(0, 2) == [2] && Item(0, 3) == [3] && Item(0, 4) == [4] && Item(0, 5) == [5]
    ensures Item(4, 3) == [0x83]
  {
  }

  lemma ExtensionIsForm(extension: Extension, rest: Bytes)
    ensures PutExtension(extension, rest) == ExtensionForm(extension) + rest
  {
    hide PutUint, PutBytes, Item, ByteString;
    UintForm(extension.key, PutBytes(extension.value, rest));
    BytesForm(extension.value, rest);
  }

  lemma SignatureIsForm(stanza: SignatureStanza, rest: Bytes)
    ensures PutSignature(stanza, rest) == SignatureForm(stanza) + rest
  {
    hide PutUint, PutBytes, PutArray, Item, ByteString;
    var s2 := PutBytes(stanza.signature, rest);
    var s1 := PutBytes(stanza.verifyingKey, s2);
    SmallItems();
    ArrayForm(3, PutUint(1, s1));
    UintForm(1, s1);
    BytesForm(stanza.verifyingKey, s2);
    BytesForm(stanza.signature, rest);
  }

  lemma ExtensionsAreForms(extensions: seq<Extension>, rest: Bytes)
    ensures PutAll(PutExtension, extensions, rest) == Joined(ExtensionForm, extensions) + rest
  {
    hide PutExtension, ExtensionForm, Joined;
    forall extension: Extension, more: Bytes | extension in extensions
      ensures PutExtension(extension, more) == ExtensionForm(extension) + more
    {
      ExtensionIsForm(extension, more);
    }
    AllForm(PutExtension, ExtensionForm, extensions, rest);
  }
}
