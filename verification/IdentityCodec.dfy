/** The wire form of an identity log, in its two framings (crates/hide-identity/src/lib.rs). */
module IdentityCodec {
  import opened Bytes
  import opened Cbor
  import opened Hashing
  import opened IdentityEntries
  import opened IdentityLogs
  import opened Memberships
  import opened Results
  import opened Signing

  /** Versions 0.6 to 0.8 declared six items and wrote seven. */
  datatype Framing = Current | Legacy {
    function Header(): u64 {
      if Current? then 7 else 6
    }
  }

  // ---------------------------------------------------------------- encoding

  function Payload(event: Event): Blob {
    if event.Revoke? then event.target else event.device
  }

  function WireLabel(event: Event): Blob {
    if event.Revoke? then [] else event.labelText
  }

  /** One entry, in front of the bytes that follow it. */
  function PutEntry(entry: Entry, framing: Framing, rest: Bytes): Bytes {
    PutArray(framing.Header(), PutUint(entry.sequence, PutUint(entry.event.Tag(),
      PutBytes(Payload(entry.event), PutText(WireLabel(entry.event),
        PutBytes(entry.signer, PutBytes(entry.link, PutBytes(entry.signature, rest))))))))
  }

  /** Entries in front of `rest`, each in its own framing. */
  function PutEntries(entries: seq<Entry>, framings: seq<Framing>, rest: Bytes): Bytes
    requires |framings| == |entries|
  {
    if entries == [] then rest
    else PutEntry(entries[0], framings[0], PutEntries(entries[1..], framings[1..], rest))
  }

  function Uniform(n: nat, framing: Framing): (framings: seq<Framing>)
    ensures |framings| == n
  {
    seq(n, _ => framing)
  }

  function Encoded(entries: seq<Entry>, framing: Framing): Bytes
    requires |entries| < 0x1_0000_0000_0000_0000
  {
    PutArray(|entries|, PutEntries(entries, Uniform(|entries|, framing), []))
  }

  lemma PutEntryAppends(entry: Entry, framing: Framing, rest: Bytes)
    ensures PutEntry(entry, framing, rest) == PutEntry(entry, framing, []) + rest
  {
    var b := PutBytes(entry.link, PutBytes(entry.signature, []));
    assert PutBytes(entry.signature, rest) == PutBytes(entry.signature, []) + rest;
    assert PutBytes(entry.link, PutBytes(entry.signature, rest)) == b + rest;
    assert PutBytes(entry.signer, b + rest) == PutBytes(entry.signer, b) + rest;
    var c := PutBytes(entry.signer, b);
    assert PutText(WireLabel(entry.event), c + rest) == PutText(WireLabel(entry.event), c) + rest;
    var d := PutText(WireLabel(entry.event), c);
    assert PutBytes(Payload(entry.event), d + rest) == PutBytes(Payload(entry.event), d) + rest;
    var e := PutBytes(Payload(entry.event), d);
    assert PutUint(entry.event.Tag(), e + rest) == PutUint(entry.event.Tag(), e) + rest;
    var f := PutUint(entry.event.Tag(), e);
    assert PutUint(entry.sequence, f + rest) == PutUint(entry.sequence, f) + rest;
    var g := PutUint(entry.sequence, f);
    assert PutArray(framing.Header(), g + rest) == PutArray(framing.Header(), g) + rest;
  }

  lemma PutEntriesStep(entries: seq<Entry>, framings: seq<Framing>, k: nat)
    requires k < |entries| == |framings|
    ensures PutEntries(entries[k..], framings[k..], [])
         == PutEntry(entries[k], framings[k], []) + PutEntries(entries[k + 1..], framings[k + 1..], [])
  {
    PutEntryAppends(entries[k], framings[k], PutEntries(entries[k + 1..], framings[k + 1..], []));
    assert entries[k..][1..] == entries[k + 1..] && framings[k..][1..] == framings[k + 1..];
    hide PutEntry;
  }

  lemma EncodedEnds(entries: seq<Entry>, framing: Framing)
    requires |entries| < 0x1_0000_0000_0000_0000
    ensures var framings := Uniform(|entries|, framing);
            && Encoded(entries, framing) == PutArray(|entries|, []) + PutEntries(entries[0..], framings[0..], [])
            && PutEntries(entries[|entries|..], framings[|entries|..], []) == []
            && forall k :: 0 <= k < |framings| ==> framings[k] == framing
  {
    var framings := Uniform(|entries|, framing);
    assert entries[0..] == entries && framings[0..] == framings;
    hide PutEntry, HeadBytes;
  }

  /** Writes entry after entry, as the encoder does. */
  method EncodeFramed(entries: seq<Entry>, framing: Framing) returns (out: Bytes)
    requires |entries| < 0x1_0000_0000_0000_0000
    ensures out == Encoded(entries, framing)
  {
    hide *;
    out := PutArray(|entries|, []);
    ghost var framings := Uniform(|entries|, framing);
    EncodedEnds(entries, framing);
    for k := 0 to |entries|
      invariant Encoded(entries, framing) == out + PutEntries(entries[k..], framings[k..], [])
    {
      PutEntriesStep(entries, framings, k);
      out := out + PutEntry(entries[k], framing, []);
    }
  }

  // ---------------------------------------------------------------- decoding

  function EventOf(tag: u64, payload: Blob, labelText: Blob): Option<Event> {
    if tag == 1 then Some(Event.Create(payload, labelText))
    else if tag == 2 then Some(Event.Enrol(payload, labelText))
    else if tag == 3 then if |payload| == 32 then Some(Event.Revoke(payload)) else None
    else if tag == 4 then Some(Event.Recover(payload, labelText))
    else None
  }

  /** One entry off the front of `s`, in the framing seen so far if one has been seen. */
  function DecodeEntry(s: Bytes, seen: Option<Framing>): Result<(Entry, Framing, Bytes), IdentityError> {
    match ReadCount(s, ARRAY)
    case None => Err(Malformed)
    case Some((header, afterHeader)) =>
      if header != 7 && header != 6 then Err(Malformed)
      else
        var framing := if header == 7 then Current else Legacy;
        if seen.Some? && seen.value != framing then Err(Malformed)
        else
          match DecodeFields(afterHeader)
          case Err(error) => Err(error)
          case Ok((entry, rest)) => Ok((entry, framing, rest))
  }

  /** The seven items of an entry, whatever its header said. */
  function DecodeFields(s: Bytes): Result<(Entry, Bytes), IdentityError> {
    match ReadUint(s, 0x1_0000_0000_0000_0000)
    case None => Err(Malformed)
    case Some((sequence, s1)) =>
      match ReadUint(s1, 0x100)
      case None => Err(Malformed)
      case Some((tag, s2)) =>
        match ReadBytes(s2)
        case None => Err(Malformed)
        case Some((payload, s3)) =>
          match ReadText(s3)
          case None => Err(Malformed)
          case Some((labelText, s4)) =>
            if |labelText| > MAX_LABEL_BYTES then Err(LabelTooLong)
            else
              match EventOf(tag, payload, labelText)
              case None => Err(Malformed)
              case Some(event) => DecodeTail(sequence, event, s4)
  }

  function DecodeTail(sequence: u64, event: Event, s: Bytes): Result<(Entry, Bytes), IdentityError> {
    match ReadBytes(s)
    case None => Err(Malformed)
    case Some((signer, s1)) =>
      if |signer| != 32 then Err(Malformed)
      else
        match ReadBytes(s1)
        case None => Err(Malformed)
        case Some((link, s2)) =>
          if |link| != 32 then Err(Malformed)
          else
            match ReadBytes(s2)
            case None => Err(Malformed)
            case Some((signature, rest)) =>
              if |signature| != SIGNATURE_LENGTH then Err(Malformed)
              else Ok((Entry(sequence, event, signer, link, signature), rest))
  }

  /** `count` more entries after those in `entries`; also the framing they agree on and what is left. */
  function DecodeEntries(count: nat, entries: seq<Entry>, seen: Option<Framing>, s: Bytes)
    : Result<(seq<Entry>, Option<Framing>, Bytes), IdentityError>
    decreases count
  {
    if count == 0 then Ok((entries, seen, s))
    else
      match DecodeEntry(s, seen)
      case Err(error) => Err(error)
      case Ok((entry, framing, rest)) => DecodeEntries(count - 1, entries + [entry], Some(framing), rest)
  }

  function FramingOr(seen: Option<Framing>): Framing {
    if seen.Some? then seen.value else Current
  }

  function Decoded(s: Bytes): Result<seq<Entry>, IdentityError> {
    match ReadCount(s, ARRAY)
    case None => Err(Malformed)
    case Some((count, body)) =>
      if count > MAX_ENTRIES then Err(TooManyEntries(count))
      else
        match DecodeEntries(count, [], None, body)
        case Err(error) => Err(error)
        case Ok((entries, seen, rest)) =>
          if rest != [] then Err(Malformed)
          else if |entries| >= 0x1_0000_0000_0000_0000 || Encoded(entries, FramingOr(seen)) != s then Err(Malformed)
          else Ok(entries)
  }

  /** The decoder's loop over its cursor. */
  method DecodeLoop(count: u64, body: Bytes)
    returns (result: Result<(seq<Entry>, Option<Framing>, Bytes), IdentityError>)
    ensures result == DecodeEntries(count, [], None, body)
  {
    hide DecodeEntry;
    var rest := body;
    var entries: seq<Entry> := [];
    var framing: Option<Framing> := None;
    for k := 0 to count
      invariant DecodeEntries(count, [], None, body) == DecodeEntries(count - k, entries, framing, rest)
    {
      var decoded := DecodeEntry(rest, framing);
      if decoded.Err? {
        return Err(decoded.error);
      }
      var (entry, its, after) := decoded.value;
      entries, framing, rest := entries + [entry], Some(its), after;
    }
    return Ok((entries, framing, rest));
  }

  method Decode(s: Bytes) returns (result: Result<seq<Entry>, IdentityError>)
    ensures result == Decoded(s)
  {
    var head := ReadCount(s, ARRAY);
    if head.None? {
      return Err(Malformed);
    }
    var (count, rest) := head.value;
    if count > MAX_ENTRIES {
      return Err(TooManyEntries(count));
    }
    var decoded := DecodeLoop(count, rest);
    if decoded.Err? {
      return Err(decoded.error);
    }
    var (entries, framing, after) := decoded.value;
    if after != [] {
      return Err(Malformed);
    }
    if |entries| >= 0x1_0000_0000_0000_0000 {
      return Err(Malformed);
    }
    var again := EncodeFramed(entries, FramingOr(framing));
    if again != s {
      return Err(Malformed);
    }
    return Ok(entries);
  }

  // ---------------------------------------------------------------- round trip and canonicity

  predicate EntryFits(entry: Entry) {
    && |entry.signature| == SIGNATURE_LENGTH
    && LabelFits(entry.event)
    && Utf8(WireLabel(entry.event))
  }

  lemma AllFitAppend(entries: seq<Entry>, entry: Entry)
    requires AllFit(entries) && EntryFits(entry)
    ensures AllFit(entries + [entry])
  {
    hide EntryFits;
  }

  predicate AllFit(entries: seq<Entry>) {
    forall k :: 0 <= k < |entries| ==> EntryFits(entries[k])
  }

  /** What every log a writer can hold satisfies. */
  predicate WithinLimits(entries: seq<Entry>) {
    |entries| <= MAX_ENTRIES && AllFit(entries)
  }

  lemma FieldsRoundTrip(entry: Entry, rest: Bytes)
    requires EntryFits(entry)
    ensures DecodeFields(PutUint(entry.sequence, PutUint(entry.event.Tag(),
              PutBytes(Payload(entry.event), PutText(WireLabel(entry.event),
                PutBytes(entry.signer, PutBytes(entry.link, PutBytes(entry.signature, rest))))))))
         == Ok((entry, rest))
  {
    hide HeadBytes, ReadHead, ReadUint, ReadBytes, ReadText, PutUint, PutBytes, PutText, Utf8;
    var s7 := PutBytes(entry.signature, rest);
    var s6 := PutBytes(entry.link, s7);
    var s5 := PutBytes(entry.signer, s6);
    var s4 := PutText(WireLabel(entry.event), s5);
    var s3 := PutBytes(Payload(entry.event), s4);
    var s2 := PutUint(entry.event.Tag(), s3);
    UintRoundTrip(entry.sequence, 0x1_0000_0000_0000_0000, s2);
    UintRoundTrip(entry.event.Tag(), 0x100, s3);
    BytesRoundTrip(Payload(entry.event), s4);
    TextRoundTrip(WireLabel(entry.event), s5);
    BytesRoundTrip(entry.signer, s6);
    BytesRoundTrip(entry.link, s7);
    BytesRoundTrip(entry.signature, rest);
    assert DecodeTail(entry.sequence, entry.event, s5) == Ok((entry, rest));
    assert EventOf(entry.event.Tag(), Payload(entry.event), WireLabel(entry.event)) == Some(entry.event);
  }

  /** An entry reads back in its framing, unless another framing came before. */
  lemma EntryRoundTrip(entry: Entry, framing: Framing, seen: Option<Framing>, rest: Bytes)
    requires EntryFits(entry)
    ensures DecodeEntry(PutEntry(entry, framing, rest), seen)
         == if seen.Some? && seen.value != framing then Err(Malformed) else Ok((entry, framing, rest))
  {
    hide HeadBytes, ReadHead, ReadCount, ReadLength, PutArray, PutUint, PutBytes, PutText, Utf8, DecodeFields;
    FieldsRoundTrip(entry, rest);
    ArrayRoundTrip(framing.Header(), PutUint(entry.sequence, PutUint(entry.event.Tag(),
      PutBytes(Payload(entry.event), PutText(WireLabel(entry.event),
        PutBytes(entry.signer, PutBytes(entry.link, PutBytes(entry.signature, rest))))))));
  }

  predicate Agree(seen: Option<Framing>, framings: seq<Framing>) {
    forall i :: 0 <= i < |framings| ==> framings[i] == if seen.Some? then seen.value else framings[0]
  }

  /** Entries written in any framings read back exactly when the framings agree. */
  lemma {:induction false} EntriesRoundTrip(
      done: seq<Entry>, entries: seq<Entry>, framings: seq<Framing>, seen: Option<Framing>, rest: Bytes)
    requires |framings| == |entries| && AllFit(entries)
    ensures DecodeEntries(|entries|, done, seen, PutEntries(entries, framings, rest))
         == if !Agree(seen, framings) then Err(Malformed)
            else Ok((done + entries, if entries == [] then seen else Some(framings[0]), rest))
    decreases |entries|
  {
    hide PutEntry, DecodeEntry, EntryFits;
    if entries == [] {
      assert done + entries == done;
    } else {
      var tail := framings[1..];
      EntryRoundTrip(entries[0], framings[0], seen, PutEntries(entries[1..], tail, rest));
      EntriesRoundTrip(done + [entries[0]], entries[1..], tail, Some(framings[0]), rest);
      assert done + [entries[0]] + entries[1..] == done + entries;
      AgreeStep(seen, framings);
    }
  }

  lemma AgreeStep(seen: Option<Framing>, framings: seq<Framing>)
    requires framings != []
    ensures Agree(seen, framings)
        <==> !(seen.Some? && seen.value != framings[0]) && Agree(Some(framings[0]), framings[1..])
  {
    var first := if seen.Some? then seen.value else framings[0];
    if Agree(seen, framings) {
      assert framings[0] == first;
    }
    if Agree(Some(framings[0]), framings[1..]) && first == framings[0] {
      forall i | 0 <= i < |framings|
        ensures framings[i] == first
      {
        assert i > 0 ==> framings[1..][i - 1] == framings[i];
      }
    }
  }

  /** In either framing, decoding undoes encoding for every log within the limits. */
  lemma IdentityRoundTrip(entries: seq<Entry>, framing: Framing)
    requires WithinLimits(entries)
    ensures Decoded(Encoded(entries, framing)) == Ok(entries)
  {
    var framings := Uniform(|entries|, framing);
    var body := PutEntries(entries, framings, []);
    var seen := if entries == [] then None else Some(framing);
    ArrayRoundTrip(|entries|, body);
    EntriesRoundTrip([], entries, framings, None, []);
    assert Agree(None, framings) && [] + entries == entries;
    assert entries == [] ==> Uniform(|entries|, framing) == Uniform(|entries|, Current);
    assert Encoded(entries, FramingOr(seen)) == Encoded(entries, framing);
    hide *;
    DecodedWhen(Encoded(entries, framing), |entries|, body, entries, seen);
  }

  /** The checks around the loop, for an input whose loop succeeds. */
  lemma DecodedWhen(s: Bytes, count: u64, body: Bytes, entries: seq<Entry>, seen: Option<Framing>)
    requires |entries| == count <= MAX_ENTRIES
    requires ReadCount(s, ARRAY) == Some((count, body))
    requires DecodeEntries(count, [], None, body) == Ok((entries, seen, []))
    requires Encoded(entries, FramingOr(seen)) == s
    ensures Decoded(s) == Ok(entries)
  {
    hide DecodeEntries, ReadCount, Encoded, FramingOr;
  }

  /** A log whose entries are framed differently is refused, wherever the change happens. */
  lemma MixedFramingsRefused(entries: seq<Entry>, framings: seq<Framing>, i: nat, j: nat)
    requires WithinLimits(entries) && |framings| == |entries|
    requires i < j < |framings| && framings[i] != framings[j]
    ensures Decoded(PutArray(|entries|, PutEntries(entries, framings, []))) == Err(Malformed)
  {
    ArrayRoundTrip(|entries|, PutEntries(entries, framings, []));
    EntriesRoundTrip([], entries, framings, None, []);
    hide PutEntries, DecodeEntries, ReadCount, PutArray, EntryFits;
    assert !Agree(None, framings);
  }

  lemma DecodedEntryFits(s: Bytes, seen: Option<Framing>)
    requires DecodeEntry(s, seen).Ok?
    ensures EntryFits(DecodeEntry(s, seen).value.0)
  {
    hide ReadCount, ReadUint, ReadBytes;
    assert Utf8([]);
  }

  lemma DecodeEntriesStep(count: nat, entries: seq<Entry>, seen: Option<Framing>, s: Bytes)
    requires DecodeEntries(count, entries, seen, s).Ok?
    ensures count == 0 ==> DecodeEntries(count, entries, seen, s) == Ok((entries, seen, s))
    ensures count > 0 ==>
              && DecodeEntry(s, seen).Ok?
              && var (entry, framing, rest) := DecodeEntry(s, seen).value;
                 DecodeEntries(count, entries, seen, s)
                   == DecodeEntries(count - 1, entries + [entry], Some(framing), rest)
  {
    hide DecodeEntry;
  }

  lemma {:induction false} DecodedEntriesFit(count: nat, entries: seq<Entry>, seen: Option<Framing>, s: Bytes)
    requires DecodeEntries(count, entries, seen, s).Ok? && AllFit(entries)
    ensures var decoded := DecodeEntries(count, entries, seen, s).value.0;
            |decoded| == |entries| + count && AllFit(decoded)
    decreases count
  {
    hide *;
    DecodeEntriesStep(count, entries, seen, s);
    if count > 0 {
      DecodedEntryFits(s, seen);
      AllFitAppend(entries, DecodeEntry(s, seen).value.0);
      var (entry, framing, rest) := DecodeEntry(s, seen).value;
      DecodedEntriesFit(count - 1, entries + [entry], Some(framing), rest);
    }
  }

  /** One history, one encoding per framing: what is accepted is the encoding of what it decodes to. */
  lemma IdentityCanonical(s: Bytes) returns (framing: Framing)
    requires Decoded(s).Ok?
    ensures WithinLimits(Decoded(s).value) && s == Encoded(Decoded(s).value, framing)
  {
    hide DecodeEntries, ReadCount, EntryFits;
    var (count, body) := ReadCount(s, ARRAY).value;
    DecodedEntriesFit(count, [], None, body);
    framing := FramingOr(DecodeEntries(count, [], None, body).value.1);
  }
}
