/** Entries of an identity log, and what they sign and link (crates/hide-identity/src/lib.rs). */
module IdentityEntries {
  import opened Bytes
  import opened Hashing
  import opened Signing

  const ENTRY_CONTEXT: Blob := Ascii("HIDE/0.6 identity entry")
  const MAX_LABEL_BYTES := 256

  /** The 32 zero bytes that stand before the first entry. */
  const NO_LINK: Digest := Zeros(32)

  /** Labels are kept as their UTF-8 bytes. */
  datatype Event =
    | Create(device: Blob, labelText: Blob)
    | Enrol(device: Blob, labelText: Blob)
    | Revoke(target: Digest)
    | Recover(device: Blob, labelText: Blob)
  {
    function Tag(): byte {
      match this
      case Create(_, _) => 1
      case Enrol(_, _) => 2
      case Revoke(_) => 3
      case Recover(_, _) => 4
    }
  }

  datatype Entry = Entry(sequence: u64, event: Event, signer: Digest, link: Digest, signature: Blob)

  function DeviceId(h: Hasher, key: Bytes): Digest {
    h(DeviceIdInput(key))
  }

  function DeviceIdInput(key: Bytes): Bytes {
    Ascii("HIDE/0.6 device id") + key
  }

  function EventFields(event: Event): (fields: Bytes)
    ensures |fields| < 0x4000_0000_0000_0010
  {
    match event
    case Revoke(target) => Field(target)
    case _ => Field(event.device) + Field(event.labelText)
  }

  /** What an entry's signature covers: fixed-width fields, then length-prefixed ones. */
  function SignedBytes(previous: Digest, sequence: u64, event: Event, signer: Digest): (signed: Bytes)
    ensures |signed| < 0x1_0000_0000_0000_0000
  {
    previous + U64(sequence) + [event.Tag()] + signer + EventFields(event)
  }

  function LinkInput(signed: Bytes, signature: Blob): Bytes
    requires |signed| < 0x1_0000_0000_0000_0000
  {
    Ascii("HIDE/0.6 identity link") + Field(signed) + Field(signature)
  }

  /** The hash input behind an entry that follows `previous`. */
  function EntryInput(previous: Digest, entry: Entry): Bytes {
    LinkInput(SignedBytes(previous, entry.sequence, entry.event, entry.signer), entry.signature)
  }

  lemma EventFieldsInjective(a: Event, b: Event)
    requires a.Tag() == b.Tag()
    requires EventFields(a) == EventFields(b)
    ensures a == b
  {
    if a.Revoke? {
      assert Field(a.target) + [] == Field(a.target) && Field(b.target) + [] == Field(b.target);
      FieldSplit(a.target, [], b.target, []);
    } else {
      FieldSplit(a.device, Field(a.labelText), b.device, Field(b.labelText));
      assert Field(a.labelText) + [] == Field(a.labelText) && Field(b.labelText) + [] == Field(b.labelText);
      FieldSplit(a.labelText, [], b.labelText, []);
    }
  }

  /** No combination of fields of one kind of event reads as another. */
  lemma SignedBytesInjective(p: Digest, n: u64, e: Event, s: Digest, p': Digest, n': u64, e': Event, s': Digest)
    requires SignedBytes(p, n, e, s) == SignedBytes(p', n', e', s')
    ensures p == p' && n == n' && e == e' && s == s'
  {
    var head, head' := p + U64(n) + [e.Tag()] + s, p' + U64(n') + [e'.Tag()] + s';
    SplitEqual(head, EventFields(e), head', EventFields(e'));
    SplitEqual(p + U64(n) + [e.Tag()], s, p' + U64(n') + [e'.Tag()], s');
    SplitEqual(p + U64(n), [e.Tag()], p' + U64(n'), [e'.Tag()]);
    SplitEqual(p, U64(n), p', U64(n'));
    U64Injective(n, n');
    assert [e.Tag()][0] == [e'.Tag()][0];
    EventFieldsInjective(e, e');
  }

  lemma LinkInputInjective(signed: Bytes, signature: Blob, signed': Bytes, signature': Blob)
    requires |signed| < 0x1_0000_0000_0000_0000 && |signed'| < 0x1_0000_0000_0000_0000
    requires LinkInput(signed, signature) == LinkInput(signed', signature')
    ensures signed == signed' && signature == signature'
  {
    var prefix := Ascii("HIDE/0.6 identity link");
    assert LinkInput(signed, signature) == prefix + (Field(signed) + Field(signature));
    assert LinkInput(signed', signature') == prefix + (Field(signed') + Field(signature'));
    SplitEqual(prefix, Field(signed) + Field(signature), prefix, Field(signed') + Field(signature'));
    FieldSplit(signed, Field(signature), signed', Field(signature'));
    assert Field(signature) + [] == Field(signature) && Field(signature') + [] == Field(signature');
    FieldSplit(signature, [], signature', []);
  }

  /** A link input fixes the predecessor's link and the whole entry but the link itself. */
  lemma EntryInputInjective(p: Digest, a: Entry, p': Digest, b: Entry)
    requires EntryInput(p, a) == EntryInput(p', b)
    ensures p == p' && a.(link := b.link) == b
  {
    LinkInputInjective(SignedBytes(p, a.sequence, a.event, a.signer), a.signature,
                       SignedBytes(p', b.sequence, b.event, b.signer), b.signature);
    SignedBytesInjective(p, a.sequence, a.event, a.signer, p', b.sequence, b.event, b.signer);
  }
}
