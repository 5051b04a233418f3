/** The layout of a sealed epoch store, before any cryptography (crates/hide-keyring/src/epoch_store.rs). */
module EpochStoreFormat {
  import opened Aead
  import opened Bytes
  import opened Cbor
  import opened CborLists
  import opened Hashing
  import opened Results

  const MAGIC: Bytes := Ascii("HIDE-EPK")
  const VERSION: byte := 1
  const HEADER_LEN := 70
  const TRAILER_LEN := 28
  const MAX_ENTRIES := 65_536
  const MAX_ENTRY_BYTES := 73
  const MAX_BODY_LEN := 5 + MAX_ENTRIES * MAX_ENTRY_BYTES
  const MAX_FILE_LEN := HEADER_LEN + MAX_BODY_LEN + TRAILER_LEN

  type u32 = n: int | 0 <= n < 0x1_0000_0000

  type Tag = s: Bytes | |s| == TAG_LEN witness Zeros(16)

  type Sealed = s: Bytes | |s| == 48 witness Zeros(48)

  datatype KeyringError =
    | NotAnEpochStore
    | TooManyEntries(limit: nat)
    | UnsupportedVersion(found: nat)
    | MalformedStore
    | UnreasonableParameters
    | WrongPassphrase
    | PassphraseTooShort(minimum: nat)

  // ---------------------------------------------------------------- Argon2 parameters

  datatype Argon2Params = Argon2Params(parallelism: byte, memory: u32, iterations: u32)

  const WRITER := Argon2Params(1, 19 * 1024, 2)

  predicate Reasonable(p: Argon2Params) {
    && 1 <= p.parallelism <= 4
    && 8 * 1024 <= p.memory <= 256 * 1024
    && 1 <= p.iterations <= 64
    && p.memory / 8 >= p.parallelism
  }

  function EncodeParams(p: Argon2Params): (s: Bytes)
    ensures |s| == 9
  {
    [p.parallelism] + BigEndian(p.memory, 4) + BigEndian(p.iterations, 4)
  }

  function U32At(s: Bytes): u32
    requires |s| == 4
  {
    WordBounds();
    ToFromBigEndian(s);
    FromBigEndian(s)
  }

  function ParseParams(s: Bytes): Result<Argon2Params, KeyringError>
    requires |s| == 9
  {
    var p := Argon2Params(s[0], U32At(s[1..5]), U32At(s[5..9]));
    if Reasonable(p) then Ok(p) else Err(UnreasonableParameters)
  }

  lemma ParamsRoundTrip(p: Argon2Params)
    requires Reasonable(p)
    ensures ParseParams(EncodeParams(p)) == Ok(p)
  {
    WordBounds();
    FromToBigEndian(p.memory, 4);
    FromToBigEndian(p.iterations, 4);
    var s := EncodeParams(p);
    assert s[1..5] == BigEndian(p.memory, 4) && s[5..9] == BigEndian(p.iterations, 4);
  }

  lemma ParamsCanonical(s: Bytes)
    requires |s| == 9 && ParseParams(s).Ok?
    ensures EncodeParams(ParseParams(s).value) == s && Reasonable(ParseParams(s).value)
  {
    ToFromBigEndian(s[1..5]);
    ToFromBigEndian(s[5..9]);
    assert s == [s[0]] + s[1..5] + s[5..9];
  }

  // ---------------------------------------------------------------- the body

  datatype RawEntry = RawEntry(number: u64, nonce: Nonce, sealed: Sealed)

  function PutEntry(entry: RawEntry, rest: Bytes): Bytes {
    PutArray(3, PutUint(entry.number, PutBytes(entry.nonce, PutBytes(entry.sealed, rest))))
  }

  function EncodedBody(entries: seq<RawEntry>): Bytes
    requires |entries| < 0x1_0000_0000_0000_0000
  {
    PutArray(|entries|, PutAll(PutEntry, entries, []))
  }

  predicate AscendingEntries(entries: seq<RawEntry>) {
    forall i, j :: 0 <= i < j < |entries| ==> entries[i].number < entries[j].number
  }

  function GetEntry(s: Bytes): Result<(RawEntry, Bytes), KeyringError> {
    match ReadCount(s, ARRAY)
    case None => Err(MalformedStore)
    case Some((fields, s0)) =>
      if fields != 3 then Err(MalformedStore)
      else
        match ReadUint(s0, 0x1_0000_0000_0000_0000)
        case None => Err(MalformedStore)
        case Some((number, s1)) =>
          match ReadBytes(s1)
          case None => Err(MalformedStore)
          case Some((nonce, s2)) =>
            if |nonce| != 12 then Err(MalformedStore)
            else
              match ReadBytes(s2)
              case None => Err(MalformedStore)
              case Some((sealed, rest)) =>
                if |sealed| != 48 then Err(MalformedStore) else Ok((RawEntry(number, nonce, sealed), rest))
  }

  function DecodedBody(body: Bytes): Result<seq<RawEntry>, KeyringError> {
    match ReadCount(body, ARRAY)
    case None => Err(MalformedStore)
    case Some((count, items)) =>
      if count > MAX_ENTRIES then Err(TooManyEntries(MAX_ENTRIES))
      else
        match GetAll(GetEntry, count, items)
        case Err(_) => Err(MalformedStore)
        case Ok((entries, rest)) =>
          if !AscendingEntries(entries) || rest != [] then Err(MalformedStore)
          else if |entries| >= 0x1_0000_0000_0000_0000 || EncodedBody(entries) != body then Err(MalformedStore)
          else Ok(entries)
  }

  method EncodeBody(entries: seq<RawEntry>) returns (out: Bytes)
    requires |entries| < 0x1_0000_0000_0000_0000
    ensures out == EncodedBody(entries)
  {
    EntryPrepends();
    hide PutEntry;
    out := WriteAll(PutEntry, entries, PutArray(|entries|, []));
  }

  /** Reads entries one by one, refusing the first whose number does not rise. */
  method DecodeBody(body: Bytes) returns (result: Result<seq<RawEntry>, KeyringError>)
    ensures result == DecodedBody(body)
  {
    hide GetEntry, ReadCount, EncodedBody;
    var head := ReadCount(body, ARRAY);
    if head.None? {
      return Err(MalformedStore);
    }
    var (count, items) := head.value;
    if count > MAX_ENTRIES {
      return Err(TooManyEntries(MAX_ENTRIES));
    }
    var read := ReadAscending(count, items);
    if read.None? {
      return Err(MalformedStore);
    }
    var (entries, rest) := read.value;
    if rest != [] || |entries| >= 0x1_0000_0000_0000_0000 {
      return Err(MalformedStore);
    }
    var canonical := EncodeBody(entries);
    if canonical != body {
      return Err(MalformedStore);
    }
    return Ok(entries);
  }

  /** The entries read, if there are that many and their numbers rise. */
  function Rising(read: Result<(seq<RawEntry>, Bytes), KeyringError>): Option<(seq<RawEntry>, Bytes)> {
    if read.Ok? && AscendingEntries(read.value.0) then Some(read.value) else None
  }

  method ReadAscending(count: nat, s: Bytes) returns (result: Option<(seq<RawEntry>, Bytes)>)
    ensures result == Rising(GetAll(GetEntry, count, s))
  {
    hide GetEntry;
    var entries: seq<RawEntry>, rest := [], s;
    var previous: Option<u64> := None;
    FollowingNothing(GetAll(GetEntry, count, s));
    for k := 0 to count
      invariant GetAll(GetEntry, count, s) == Following(entries, GetAll(GetEntry, count - k, rest))
      invariant AscendingEntries(entries)
      invariant previous == if entries == [] then None else Some(entries[|entries| - 1].number)
    {
      var next := GetEntry(rest);
      if next.Err? {
        return None;
      }
      var (entry, after) := next.value;
      FollowingStep(entries, entry, GetAll(GetEntry, count - k - 1, after));
      if previous.Some? && entry.number <= previous.value {
        NotRising(entries, entry, GetAll(GetEntry, count - k - 1, after));
        return None;
      }
      entries, rest, previous := entries + [entry], after, Some(entry.number);
    }
    assert entries + [] == entries;
    return Some((entries, rest));
  }

  lemma NotRising(entries: seq<RawEntry>, entry: RawEntry, more: Result<(seq<RawEntry>, Bytes), KeyringError>)
    requires entries != [] && entry.number <= entries[|entries| - 1].number
    ensures Rising(Following(entries + [entry], more)) == None
  {
    if more.Ok? {
      var all := entries + [entry] + more.value.0;
      assert all[|entries| - 1] == entries[|entries| - 1] && all[|entries|] == entry;
    }
  }

  lemma EntryPrepends()
    ensures Prepends(PutEntry)
  {
    hide HeadBytes;
    forall entry: RawEntry, rest: Bytes
      ensures PutEntry(entry, rest) == PutEntry(entry, []) + rest
    {
      var b := PutBytes(entry.sealed, []);
      assert PutBytes(entry.sealed, rest) == b + rest;
      assert PutBytes(entry.nonce, b + rest) == PutBytes(entry.nonce, b) + rest;
      var c := PutBytes(entry.nonce, b);
      assert PutUint(entry.number, c + rest) == PutUint(entry.number, c) + rest;
      var d := PutUint(entry.number, c);
      assert PutArray(3, d + rest) == PutArray(3, d) + rest;
    }
  }

  lemma EntryInverts(entry: RawEntry)
    ensures Inverts(GetEntry, PutEntry, entry)
  {
    hide HeadBytes, ReadHead, ReadCount, ReadUint, ReadBytes, PutArray, PutUint, PutBytes;
    forall rest: Bytes
      ensures GetEntry(PutEntry(entry, rest)) == Ok((entry, rest))
    {
      var s2 := PutBytes(entry.sealed, rest);
      var s1 := PutBytes(entry.nonce, s2);
      BytesRoundTrip(entry.sealed, rest);
      BytesRoundTrip(entry.nonce, s2);
      UintRoundTrip(entry.number, 0x1_0000_0000_0000_0000, s1);
      ArrayRoundTrip(3, PutUint(entry.number, s1));
    }
  }

  lemma BodyRoundTrip(entries: seq<RawEntry>)
    requires |entries| <= MAX_ENTRIES && AscendingEntries(entries)
    ensures DecodedBody(EncodedBody(entries)) == Ok(entries)
  {
    hide PutEntry, GetEntry, ReadCount, PutArray;
    ArrayRoundTrip(|entries|, PutAll(PutEntry, entries, []));
    forall entry | entry in entries
      ensures Inverts(GetEntry, PutEntry, entry)
    {
      EntryInverts(entry);
    }
    AllRoundTrip(GetEntry, PutEntry, entries, []);
  }

  lemma DecodedBodyFits(body: Bytes)
    requires DecodedBody(body).Ok?
    ensures var entries := DecodedBody(body).value;
            |entries| <= MAX_ENTRIES && AscendingEntries(entries) && EncodedBody(entries) == body
  {
    hide GetEntry, ReadCount, EncodedBody, AscendingEntries;
    var (count, items) := ReadCount(body, ARRAY).value;
    AllSatisfy(GetEntry, (entry: RawEntry) => true, count, items);
  }

  /** An entry's size is fixed by its number alone. */
  function EntrySize(number: u64): (size: nat)
    ensures size <= MAX_ENTRY_BYTES
  {
    64 + |HeadBytes(UINT, number)|
  }

  lemma {:induction false} ItemsSize(entries: seq<RawEntry>)
    ensures |PutAll(PutEntry, entries, [])| <= |entries| * MAX_ENTRY_BYTES
    ensures entries != [] ==>
              |PutAll(PutEntry, entries, [])| == EntrySize(entries[0].number) + |PutAll(PutEntry, entries[1..], [])|
  {
    if entries != [] {
      ItemsSize(entries[1..]);
      var rest := PutAll(PutEntry, entries[1..], []);
      assert |PutEntry(entries[0], rest)| == EntrySize(entries[0].number) + |rest|;
    }
  }

  /** So a body of placeholders has exactly the length the sealed one will have. */
  lemma {:induction false} SizeDependsOnNumbers(a: seq<RawEntry>, b: seq<RawEntry>)
    requires |a| == |b| && forall i :: 0 <= i < |a| ==> a[i].number == b[i].number
    ensures |PutAll(PutEntry, a, [])| == |PutAll(PutEntry, b, [])|
  {
    ItemsSize(a);
    ItemsSize(b);
    if a != [] {
      SizeDependsOnNumbers(a[1..], b[1..]);
    }
  }

  lemma BodySize(entries: seq<RawEntry>)
    requires |entries| <= MAX_ENTRIES
    ensures |EncodedBody(entries)| <= MAX_BODY_LEN
  {
    ItemsSize(entries);
    assert |HeadBytes(ARRAY, |entries|)| <= 5;
  }

  // ---------------------------------------------------------------- the file

  datatype Layout = Layout(
    params: Argon2Params, salt: Salt, chainHead: Digest, header: Bytes, bodyLen: nat,
    entries: seq<RawEntry>, trailerNonce: Nonce, trailerTag: Tag)

  function EncodeHeader(params: Argon2Params, salt: Salt, chainHead: Digest, bodyLen: u32): (header: Bytes)
    ensures |header| == HEADER_LEN
  {
    MAGIC + [VERSION] + EncodeParams(params) + salt + chainHead + BigEndian(bodyLen, 4)
  }

  function SaltAt(s: Bytes, i: nat): Salt
    requires i + 16 <= |s|
  {
    s[i..i + 16]
  }

  function DigestAt(s: Bytes, i: nat): Digest
    requires i + 32 <= |s|
  {
    s[i..i + 32]
  }

  function NonceAt(s: Bytes, i: nat): Nonce
    requires i + 12 <= |s|
  {
    s[i..i + 12]
  }

  function TagAt(s: Bytes, i: nat): Tag
    requires i + TAG_LEN <= |s|
  {
    s[i..i + TAG_LEN]
  }

  function Parse(s: Bytes): (result: Result<Layout, KeyringError>)
    ensures result.Ok? ==> |s| == HEADER_LEN + result.value.bodyLen + TRAILER_LEN
  {
    if !(MAGIC <= s) then Err(NotAnEpochStore)
    else if |s| > MAX_FILE_LEN then Err(MalformedStore)
    else if |s| <= 8 then Err(MalformedStore)
    else if s[8] != VERSION then Err(UnsupportedVersion(s[8]))
    else if |s| < HEADER_LEN + TRAILER_LEN then Err(MalformedStore)
    else
      match ParseParams(s[9..18])
      case Err(error) => Err(error)
      case Ok(params) =>
        var bodyLen := U32At(s[66..70]);
        if bodyLen > MAX_BODY_LEN || |s| != HEADER_LEN + bodyLen + TRAILER_LEN then Err(MalformedStore)
        else ParseSized(s, params, bodyLen)
  }

  /** The fields of a file whose length is the one it declares. */
  function ParseSized(s: Bytes, params: Argon2Params, bodyLen: nat): (result: Result<Layout, KeyringError>)
    requires |s| == HEADER_LEN + bodyLen + TRAILER_LEN
    ensures result.Ok? ==> result.value.bodyLen == bodyLen
  {
    match DecodedBody(s[HEADER_LEN..HEADER_LEN + bodyLen])
    case Err(error) => Err(error)
    case Ok(entries) =>
      var at := HEADER_LEN + bodyLen;
      Ok(Layout(params, SaltAt(s, 18), DigestAt(s, 34), s[..HEADER_LEN], bodyLen, entries, NonceAt(s, at),
                TagAt(s, at + 12)))
  }

  /** The file a writer assembles from its parts. */
  function FileBytes(params: Argon2Params, salt: Salt, chainHead: Digest, entries: seq<RawEntry>, nonce: Nonce,
                     tag: Tag): Bytes
    requires |entries| <= MAX_ENTRIES
  {
    BodySize(entries);
    EncodeHeader(params, salt, chainHead, |EncodedBody(entries)|) + EncodedBody(entries) + nonce + tag
  }

  lemma HeaderParts(params: Argon2Params, salt: Salt, chainHead: Digest, bodyLen: u32)
    ensures var header := EncodeHeader(params, salt, chainHead, bodyLen);
            && header[0..8] == MAGIC && header[8] == VERSION && header[9..18] == EncodeParams(params)
            && SaltAt(header, 18) == salt && DigestAt(header, 34) == chainHead
               && header[66..70] == BigEndian(bodyLen, 4)
            && U32At(header[66..70]) == bodyLen
  {
    WordBounds();
    FromToBigEndian(bodyLen, 4);
    var header := EncodeHeader(params, salt, chainHead, bodyLen);
    assert header[66..70] == BigEndian(bodyLen, 4);
    hide BigEndian, FromBigEndian, EncodeParams, MAGIC;
  }

  /** What a writer assembles parses back into its parts, and never exceeds the file limit. */
  lemma FileRoundTrip(params: Argon2Params, salt: Salt, chainHead: Digest, entries: seq<RawEntry>, nonce: Nonce,
                      tag: Tag)
    requires Reasonable(params) && |entries| <= MAX_ENTRIES && AscendingEntries(entries)
    ensures var file := FileBytes(params, salt, chainHead, entries, nonce, tag);
            && |file| <= MAX_FILE_LEN
            && Parse(file) == Ok(Layout(params, salt, chainHead, file[..HEADER_LEN], |EncodedBody(entries)|, entries,
                                        nonce, tag))
  {
    hide EncodedBody, BigEndian, EncodeParams, EncodeHeader, FileBytes, MAGIC, U32At, ParseParams, DecodedBody, Parse,
         ParseSized, AscendingEntries, Reasonable, SaltAt, DigestAt, NonceAt, TagAt;
    BodyRoundTrip(entries);
    ParamsRoundTrip(params);
    FileBytesIs(params, salt, chainHead, entries, nonce, tag);
    var body := EncodedBody(entries);
    HeaderParts(params, salt, chainHead, |body|);
    var file := FileBytes(params, salt, chainHead, entries, nonce, tag);
    FileSlices(file, EncodeHeader(params, salt, chainHead, |body|), body, nonce, tag);
    ParseOfParts(file, params);
    ParseSizedOk(file, params, |body|, entries);
  }

  /** Where each part of a file lies. */
  lemma FileSlices(file: Bytes, header: Bytes, body: Bytes, nonce: Nonce, tag: Tag)
    requires |header| == HEADER_LEN && file == header + body + nonce + tag
    ensures |file| == HEADER_LEN + |body| + TRAILER_LEN
    ensures file[..HEADER_LEN] == header && file[HEADER_LEN..HEADER_LEN + |body|] == body
    ensures var at := HEADER_LEN + |body|; NonceAt(file, at) == nonce && TagAt(file, at + 12) == tag
    ensures forall i, j :: 0 <= i <= j <= HEADER_LEN ==> file[i..j] == header[i..j]
    ensures file[8] == header[8] && SaltAt(file, 18) == SaltAt(header, 18) && DigestAt(file, 34) == DigestAt(header, 34)
  {
  }

  lemma ParseSizedOk(file: Bytes, params: Argon2Params, bodyLen: nat, entries: seq<RawEntry>)
    requires |file| == HEADER_LEN + bodyLen + TRAILER_LEN
    requires DecodedBody(file[HEADER_LEN..HEADER_LEN + bodyLen]) == Ok(entries)
    ensures var at := HEADER_LEN + bodyLen;
            ParseSized(file, params, bodyLen)
            == Ok(Layout(params, SaltAt(file, 18), DigestAt(file, 34), file[..HEADER_LEN], bodyLen, entries,
                         NonceAt(file, at), TagAt(file, at + 12)))
  {
  }

  lemma ParseOfParts(file: Bytes, params: Argon2Params)
    requires HEADER_LEN + TRAILER_LEN <= |file| <= MAX_FILE_LEN
    requires file[0..8] == MAGIC && file[8] == VERSION && ParseParams(file[9..18]) == Ok(params)
    requires U32At(file[66..70]) <= MAX_BODY_LEN && |file| == HEADER_LEN + U32At(file[66..70]) + TRAILER_LEN
    ensures Parse(file) == ParseSized(file, params, U32At(file[66..70]))
  {
    hide ParseParams, U32At, ParseSized, MAGIC;
    assert MAGIC <= file;
  }

  /** What acceptance by the parser says about the input. */
  lemma ParseFacts(s: Bytes)
    requires Parse(s).Ok?
    ensures var l := Parse(s).value;
            && |s| == HEADER_LEN + l.bodyLen + TRAILER_LEN
            && s[..8] == MAGIC && s[8] == VERSION && ParseParams(s[9..18]) == Ok(l.params)
            && U32At(s[66..70]) == l.bodyLen
            && DecodedBody(s[HEADER_LEN..HEADER_LEN + l.bodyLen]) == Ok(l.entries)
            && l.salt == SaltAt(s, 18) && l.chainHead == DigestAt(s, 34)
            && l.trailerNonce == NonceAt(s, HEADER_LEN + l.bodyLen)
            && l.trailerTag == TagAt(s, HEADER_LEN + l.bodyLen + 12)
            && l.header == s[..HEADER_LEN]
  {
    assert |MAGIC| == 8;
    hide ParseParams, U32At, DecodedBody, MAGIC, SaltAt, DigestAt, NonceAt, TagAt;
  }

  /** Every file the parser accepts is exactly what a writer would assemble from what it read. */
  lemma FileCanonical(s: Bytes)
    requires Parse(s).Ok?
    ensures var l := Parse(s).value;
            && Reasonable(l.params) && |l.entries| <= MAX_ENTRIES && AscendingEntries(l.entries)
            && s == FileBytes(l.params, l.salt, l.chainHead, l.entries, l.trailerNonce, l.trailerTag)
            && |EncodedBody(l.entries)| == l.bodyLen
  {
    hide EncodedBody, BigEndian, EncodeParams, EncodeHeader, FileBytes, MAGIC, U32At, ParseParams, DecodedBody, Parse,
         ParseSized, AscendingEntries, Reasonable, SaltAt, DigestAt, NonceAt, TagAt;
    ParseFacts(s);
    var l := Parse(s).value;
    ParamsCanonical(s[9..18]);
    WidthOfU32(s[66..70]);
    DecodedBodyFits(s[HEADER_LEN..HEADER_LEN + l.bodyLen]);
    HeaderOfSlices(s);
    FileOfSlices(s, l.bodyLen);
    FileBytesIs(l.params, l.salt, l.chainHead, l.entries, l.trailerNonce, l.trailerTag);
  }

  lemma FileBytesIs(params: Argon2Params, salt: Salt, chainHead: Digest, entries: seq<RawEntry>, nonce: Nonce, tag: Tag)
    requires |entries| <= MAX_ENTRIES
    ensures |EncodedBody(entries)| <= MAX_BODY_LEN
    ensures var body := EncodedBody(entries);
            var header := MAGIC + [VERSION] + EncodeParams(params) + salt + chainHead + BigEndian(|body|, 4);
            && EncodeHeader(params, salt, chainHead, |body|) == header
            && FileBytes(params, salt, chainHead, entries, nonce, tag) == header + body + nonce + tag
  {
    BodySize(entries);
    hide EncodedBody, BigEndian, EncodeParams, MAGIC;
  }

  lemma WidthOfU32(s: Bytes)
    requires |s| == 4
    ensures BigEndian(U32At(s), 4) == s
  {
    ToFromBigEndian(s);
  }

  lemma HeaderOfSlices(s: Bytes)
    requires |s| >= HEADER_LEN
    ensures s[..HEADER_LEN] == s[..8] + [s[8]] + s[9..18] + SaltAt(s, 18) + DigestAt(s, 34) + s[66..70]
  {
  }

  lemma FileOfSlices(s: Bytes, bodyLen: nat)
    requires |s| == HEADER_LEN + bodyLen + TRAILER_LEN
    ensures var at := HEADER_LEN + bodyLen;
            s == s[..HEADER_LEN] + s[HEADER_LEN..at] + NonceAt(s, at) + TagAt(s, at + 12)
  {
  }
}
