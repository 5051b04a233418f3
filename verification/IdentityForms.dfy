/** An identity log byte by byte, and exactly which bytes are read as one (crates/hide-identity/src/lib.rs). */
module IdentityForms {
  import opened Bytes
  import opened Cbor
  import opened IdentityCodec
  import opened IdentityEntries
  import opened Memberships
  import opened Results
  import opened WireForms

  /** The items of an entry behind an array head, which says seven or, in older files, six. */
  function ItemsForm(entry: Entry): Bytes {
    Item(0, entry.sequence) + EventForm(entry.event)
    + ByteString(entry.signer) + ByteString(entry.link) + ByteString(entry.signature)
  }

  function EventForm(event: Event): Bytes {
    match event
    case Create(device, name) => [1] + ByteString(device) + TextString(name)
    case Enrol(device, name) => [2] + ByteString(device) + TextString(name)
    case Revoke(target) => [3] + ByteString(target) + [0x60]
    case Recover(device, name) => [4] + ByteString(device) + TextString(name)
  }

  function EntryForm(entry: Entry): Bytes {
    [0x87] + ItemsForm(entry)
  }

  function OldEntryForm(entry: Entry): Bytes {
    [0x86] + ItemsForm(entry)
  }

  function LogForm(entries: seq<Entry>): Bytes
    requires |entries| < 0x1_0000_0000_0000_0000
  {
    Item(4, |entries|) + Joined(EntryForm, entries)
  }

  function OldLogForm(entries: seq<Entry>): Bytes
    requires |entries| < 0x1_0000_0000_0000_0000
  {
    Item(4, |entries|) + Joined(OldEntryForm, entries)
  }

  /** A signature of the one length there is, and a name that is text and short enough. */
  predicate LegalEntry(entry: Entry) {
    && |entry.signature| == 3373
    && (entry.event.Revoke? || (|entry.event.labelText| <= 256 && Utf8(entry.event.labelText)))
  }

  lemma SmallHeads()
    ensures Item(0, 1) == [1] && Item(0, 2) == [2] && Item(0, 3) == [3] && Item(0, 4) == [4]
    ensures TextString([]) == [0x60] && Item(4, 6) == [0x86] && Item(4, 7) == [0x87]
  {
    assert Item(3, 0) == [0x60];
  }

  lemma EventIsForm(event: Event, rest: Bytes)
    ensures PutUint(event.Tag(), PutBytes(Payload(event), PutText(WireLabel(event), rest))) == EventForm(event) + rest
  {
    hide PutUint, PutBytes, PutText, Item, ByteString, TextString;
    SmallHeads();
    var s2 := PutText(WireLabel(event), rest);
    TextForm(WireLabel(event), rest);
    BytesForm(Payload(event), s2);
    UintForm(event.Tag(), PutBytes(Payload(event), s2));
    Behind([event.Tag()], ByteString(Payload(event)), TextString(WireLabel(event)), rest);
  }

  lemma Behind(a: Bytes, b: Bytes, c: Bytes, rest: Bytes)
    ensures a + (b + (c + rest)) == a + b + c + rest
  {
  }

  lemma EntryIsForm(entry: Entry, framing: Framing, rest: Bytes)
    ensures PutEntry(entry, framing, rest)
         == (if framing.Current? then EntryForm(entry) else OldEntryForm(entry)) + rest
  {
    hide PutUint, PutBytes, PutText, PutArray, Item, ByteString, TextString;
    SmallHeads();
    var s7 := PutBytes(entry.signature, rest);
    var s6 := PutBytes(entry.link, s7);
    var s5 := PutBytes(entry.signer, s6);
    BytesForm(entry.signature, rest);
    BytesForm(entry.link, s7);
    BytesForm(entry.signer, s6);
    EventIsForm(entry.event, s5);
    var s2 := PutUint(entry.event.Tag(), PutBytes(Payload(entry.event), PutText(WireLabel(entry.event), s5)));
    UintForm(entry.sequence, s2);
    ArrayForm(framing.Header(), PutUint(entry.sequence, s2));
    hide EventForm;
    assert PutUint(entry.sequence, s2) == ItemsForm(entry) + rest;
    hide ItemsForm;
  }

  lemma {:induction false} EntriesAreForms(entries: seq<Entry>, framing: Framing)
    ensures PutEntries(entries, Uniform(|entries|, framing), [])
         == if framing.Current? then Joined(EntryForm, entries) else Joined(OldEntryForm, entries)
    decreases |entries|
  {
    hide PutEntry, EntryForm, OldEntryForm;
    if entries != [] {
      var rest := PutEntries(entries[1..], Uniform(|entries| - 1, framing), []);
      assert Uniform(|entries|, framing)[1..] == Uniform(|entries| - 1, framing);
      EntriesAreForms(entries[1..], framing);
      EntryIsForm(entries[0], framing, rest);
    }
  }

  lemma EncodedIsForm(entries: seq<Entry>, framing: Framing)
    requires |entries| < 0x1_0000_0000_0000_0000
    ensures Encoded(entries, framing) == if framing.Current? then LogForm(entries) else OldLogForm(entries)
  {
    EntriesAreForms(entries, framing);
    ArrayForm(|entries|, PutEntries(entries, Uniform(|entries|, framing), []));
    hide PutEntries, PutArray, Item, Joined;
  }

  lemma FitsExactly(entry: Entry)
    ensures EntryFits(entry) <==> LegalEntry(entry)
  {
    assert Utf8([]);
    hide Utf8;
  }

  /**
   Bytes are read as a log if and only if it has at most a hundred thousand entries, each of them legal,
   and they are its form with heads of seven throughout, or with heads of six throughout.
   */
  lemma DecodedExactly(s: Bytes, entries: seq<Entry>)
    ensures Decoded(s) == Ok(entries)
       <==> && |entries| <= 100_000 && (forall i :: 0 <= i < |entries| ==> LegalEntry(entries[i]))
            && (s == LogForm(entries) || s == OldLogForm(entries))
  {
    hide Decoded, Encoded, LogForm, OldLogForm, EntryFits, LegalEntry;
    forall i | 0 <= i < |entries| ensures EntryFits(entries[i]) <==> LegalEntry(entries[i]) {
      FitsExactly(entries[i]);
    }
    if Decoded(s) == Ok(entries) {
      var framing := IdentityCanonical(s);
      EncodedIsForm(entries, framing);
    }
    if WithinLimits(entries) {
      EncodedIsForm(entries, Current);
      EncodedIsForm(entries, Legacy);
      IdentityRoundTrip(entries, Current);
      IdentityRoundTrip(entries, Legacy);
    }
  }
}
