/** How large a published history is (crates/hide-epoch/src/lib.rs, apps/hide-cli/src/main.rs). */
module EpochHistorySize {
  import opened Bytes
  import opened Cbor
  import opened CborLists
  import opened EpochChains
  import opened EpochCodec
  import opened EpochFiles
  import opened Hashing
  import opened Results

  /** The most epochs a history can hold and still be read back. */
  const MAX_LOADABLE := 13347

  function HeadSize(n: nat): nat {
    if n < 24 then 1 else if n < 0x100 then 2 else if n < 0x1_0000 then 3 else if n < 0x1_0000_0000 then 5 else 9
  }

  /** The records numbered 0 to `n - 1`, with their keys of 1216 bytes. */
  function RecordsSize(n: nat): nat {
    if n == 0 then 0 else RecordsSize(n - 1) + 1254 + HeadSize(n - 1)
  }

  function HistorySize(n: nat): nat {
    HeadSize(n) + RecordsSize(n)
  }

  lemma RecordSize(record: EpochRecord, rest: Bytes)
    requires |record.publicKey| == PUBLIC_KEY_LENGTH
    ensures |PutRecord(record, rest)| == 1254 + HeadSize(record.number) + |rest|
  {
    assert |HeadBytes(BYTES, 1216)| == 3 && |HeadBytes(BYTES, 32)| == 2 && |HeadBytes(ARRAY, 3)| == 1;
  }

  lemma {:induction false} RecordsSizeFrom(h: Hasher, records: seq<EpochRecord>, k: nat)
    requires CheckRecords(h, records) == Pass && k <= |records|
    ensures |PutAll(PutRecord, records[k..], [])| + RecordsSize(k) == RecordsSize(|records|)
    decreases |records| - k
  {
    hide PutRecord, CheckRecords, HeadSize;
    if k < |records| {
      RecordsSizeFrom(h, records, k + 1);
      RecordFacts(h, records, k);
      RecordSize(records[k], PutAll(PutRecord, records[k + 1..], []));
      assert records[k..][1..] == records[k + 1..];
    }
  }

  /** The size of a history depends on its length alone. */
  lemma SizeOfHistory(h: Hasher, records: seq<EpochRecord>)
    requires ChainVerdict(h, records) == Pass
    ensures |records| <= MAX_CHAIN_ENTRIES
    ensures |EncodedRecords(records)| == HistorySize(|records|)
  {
    hide CheckRecords, PutRecord;
    RecordsSizeFrom(h, records, 0);
    assert records[0..] == records;
  }

  lemma {:induction false} HistoryGrows(m: nat, n: nat)
    requires m < n
    ensures HistorySize(m) < HistorySize(n)
    decreases n
  {
    if m + 1 < n {
      HistoryGrows(m, n - 1);
    }
  }

  lemma {:induction false} ShortNumbers(n: nat)
    requires n <= 256
    ensures RecordsSize(n) == if n <= 24 then 1255 * n else 1256 * n - 24
  {
    if n > 0 {
      ShortNumbers(n - 1);
    }
  }

  /** From 256 records up to 65536, each further one takes 1257 bytes. */
  lemma {:induction false} LongNumbers(n: nat)
    requires 256 <= n <= 0x1_0000
    ensures RecordsSize(n) == 1257 * n - 280
  {
    if n == 256 {
      ShortNumbers(n);
    } else {
      LongNumbers(n - 1);
    }
  }

  /** A verified history can be read back if and only if it has at most 13347 epochs. */
  lemma ReadBackExactly(h: Hasher, records: seq<EpochRecord>)
    requires ChainVerdict(h, records) == Pass
    ensures |EncodedRecords(records)| <= MAX_LOG_FILE <==> |records| <= MAX_LOADABLE
  {
    SizeOfHistory(h, records);
    hide EncodedRecords, ChainVerdict, RecordsSize;
    LongNumbers(MAX_LOADABLE);
    LongNumbers(MAX_LOADABLE + 1);
    if |records| < MAX_LOADABLE {
      HistoryGrows(|records|, MAX_LOADABLE);
    }
    if |records| > MAX_LOADABLE + 1 {
      HistoryGrows(MAX_LOADABLE + 1, |records|);
    }
  }
}
