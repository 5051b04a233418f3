/** The published form of an epoch chain (crates/hide-epoch/src/lib.rs). */
module EpochCodec {
  import opened Bytes
  import opened Cbor
  import opened CborLists
  import opened EpochChains
  import opened Results

  function PutRecord(record: EpochRecord, rest: Bytes): Bytes {
    PutArray(3, PutUint(record.number, PutBytes(record.publicKey, PutBytes(record.link, rest))))
  }

  function EncodedRecords(records: seq<EpochRecord>): Bytes
    requires |records| < 0x1_0000_0000_0000_0000
  {
    PutArray(|records|, PutAll(PutRecord, records, []))
  }

  function GetRecord(s: Bytes): Result<(EpochRecord, Bytes), EpochError> {
    match ReadCount(s, ARRAY)
    case None => Err(MalformedChain)
    case Some((fields, s0)) =>
      if fields != 3 then Err(MalformedChain)
      else
        match ReadUint(s0, 0x1_0000_0000_0000_0000)
        case None => Err(MalformedChain)
        case Some((number, s1)) =>
          match ReadBytes(s1)
          case None => Err(MalformedChain)
          case Some((publicKey, s2)) =>
            match ReadBytes(s2)
            case None => Err(MalformedChain)
            case Some((link, rest)) =>
              if |link| != 32 then Err(MalformedChain) else Ok((EpochRecord(number, publicKey, link), rest))
  }

  function DecodedRecords(s: Bytes): Result<seq<EpochRecord>, EpochError> {
    match ReadCount(s, ARRAY)
    case None => Err(MalformedChain)
    case Some((count, body)) =>
      if count > MAX_CHAIN_ENTRIES then Err(TooManyRecords(count))
      else
        match GetAll(GetRecord, count, body)
        case Err(error) => Err(error)
        case Ok((records, rest)) =>
          if rest != [] || |records| >= 0x1_0000_0000_0000_0000 || EncodedRecords(records) != s then Err(MalformedChain)
          else Ok(records)
  }

  method EncodeRecords(records: seq<EpochRecord>) returns (out: Bytes)
    requires |records| < 0x1_0000_0000_0000_0000
    ensures out == EncodedRecords(records)
  {
    RecordPrepends();
    hide PutRecord;
    out := WriteAll(PutRecord, records, PutArray(|records|, []));
  }

  method DecodeRecords(s: Bytes) returns (result: Result<seq<EpochRecord>, EpochError>)
    ensures result == DecodedRecords(s)
  {
    hide GetRecord, ReadCount, EncodedRecords;
    var head := ReadCount(s, ARRAY);
    if head.None? {
      return Err(MalformedChain);
    }
    var (count, body) := head.value;
    if count > MAX_CHAIN_ENTRIES {
      return Err(TooManyRecords(count));
    }
    var decoded := ReadAll(GetRecord, count, body);
    if decoded.Err? {
      return Err(decoded.error);
    }
    var (records, rest) := decoded.value;
    if rest != [] || |records| >= 0x1_0000_0000_0000_0000 {
      return Err(MalformedChain);
    }
    var again := EncodeRecords(records);
    if again != s {
      return Err(MalformedChain);
    }
    return Ok(records);
  }

  lemma RecordPrepends()
    ensures Prepends(PutRecord)
  {
    hide HeadBytes;
    forall record: EpochRecord, rest: Bytes
      ensures PutRecord(record, rest) == PutRecord(record, []) + rest
    {
      var b := PutBytes(record.link, []);
      assert PutBytes(record.link, rest) == b + rest;
      assert PutBytes(record.publicKey, b + rest) == PutBytes(record.publicKey, b) + rest;
      var c := PutBytes(record.publicKey, b);
      assert PutUint(record.number, c + rest) == PutUint(record.number, c) + rest;
      var d := PutUint(record.number, c);
      assert PutArray(3, d + rest) == PutArray(3, d) + rest;
    }
  }

  lemma RecordInverts(record: EpochRecord)
    ensures Inverts(GetRecord, PutRecord, record)
  {
    hide HeadBytes, ReadHead, ReadCount, ReadUint, ReadBytes, PutArray, PutUint, PutBytes;
    forall rest: Bytes
      ensures GetRecord(PutRecord(record, rest)) == Ok((record, rest))
    {
      var s2 := PutBytes(record.link, rest);
      var s1 := PutBytes(record.publicKey, s2);
      BytesRoundTrip(record.link, rest);
      BytesRoundTrip(record.publicKey, s2);
      UintRoundTrip(record.number, 0x1_0000_0000_0000_0000, s1);
      ArrayRoundTrip(3, PutUint(record.number, s1));
    }
  }

  /** Decoding undoes encoding for every chain within the limit. */
  lemma RecordsRoundTrip(records: seq<EpochRecord>)
    requires |records| <= MAX_CHAIN_ENTRIES
    ensures DecodedRecords(EncodedRecords(records)) == Ok(records)
  {
    hide PutRecord, GetRecord, ReadCount, PutArray;
    ArrayRoundTrip(|records|, PutAll(PutRecord, records, []));
    forall record | record in records
      ensures Inverts(GetRecord, PutRecord, record)
    {
      RecordInverts(record);
    }
    AllRoundTrip(GetRecord, PutRecord, records, []);
  }

  /** One history, one encoding. */
  lemma RecordsCanonical(s: Bytes)
    requires DecodedRecords(s).Ok?
    ensures |DecodedRecords(s).value| <= MAX_CHAIN_ENTRIES
    ensures EncodedRecords(DecodedRecords(s).value) == s
  {
    hide GetRecord, ReadCount, EncodedRecords;
    var (count, body) := ReadCount(s, ARRAY).value;
    AllSatisfy(GetRecord, (record: EpochRecord) => true, count, body);
  }
}
