/** Exactly which chains verify, restore and are read (crates/hide-epoch/src/lib.rs). */
module EpochRules {
  import opened Bytes
  import opened Cbor
  import opened CborLists
  import opened EpochChains
  import opened EpochCodec
  import opened Hashing
  import opened Results
  import opened WireForms

  // ---------------------------------------------------------------- the public chain

  /** What the record at `k` is linked by. */
  function LinkForm(records: seq<EpochRecord>, k: nat): Bytes
    requires k < |records| && k < 0x1_0000_0000_0000_0000
  {
    Ascii("HIDE/0.6 epoch chain") + (if k == 0 then seq(32, _ => 0) else records[k - 1].link) + U64(k)
    + U64(|records[k].publicKey|) + records[k].publicKey
  }

  /** The verdict on the record at `k`; of several reasons the first counts. */
  function RecordRule(h: Hasher, records: seq<EpochRecord>, k: nat): Outcome<EpochError>
    requires k < |records| && k < 0x1_0000_0000_0000_0000
  {
    if records[k].number != k then Fail(BrokenChain(k, records[k].number))
    else if |records[k].publicKey| != 1216 then Fail(WrongKeyLength(k, |records[k].publicKey|))
    else if records[k].link != h(LinkForm(records, k)) then Fail(BrokenHash(k))
    else Pass
  }

  predicate Chained(h: Hasher, records: seq<EpochRecord>, k: nat)
    requires k <= |records| && k <= 0x1_0000_0000_0000_0000
  {
    forall i :: 0 <= i < k ==> RecordRule(h, records, i) == Pass
  }

  lemma RuleIsCheck(h: Hasher, records: seq<EpochRecord>, k: nat)
    requires k < |records| && k < 0x1_0000_0000_0000_0000
    ensures CheckRecord(h, records[..k], records[k]) == RecordRule(h, records, k)
  {
    var previous := HeadOf(records[..k]);
    assert previous == if k == 0 then seq(32, _ => 0) else records[k - 1].link;
    assert records[k].number == k ==>
      ChainInput(previous, records[k].number, records[k].publicKey) == LinkForm(records, k);
    hide ChainInput, LinkForm;
  }

  lemma {:induction false} CheckedExactly(h: Hasher, records: seq<EpochRecord>, k: nat)
    requires k <= |records| && k <= 0x1_0000_0000_0000_0000
    ensures CheckRecords(h, records[..k]) == Pass <==> Chained(h, records, k)
    ensures k < |records| && k < 0x1_0000_0000_0000_0000 && Chained(h, records, k) ==>
              CheckRecords(h, records[..k + 1]) == RecordRule(h, records, k)
    decreases k
  {
    hide CheckRecord, RecordRule;
    if k > 0 {
      CheckedExactly(h, records, k - 1);
      RuleIsCheck(h, records, k - 1);
      assert records[..k][..k - 1] == records[..k - 1];
    }
    if k < |records| && k < 0x1_0000_0000_0000_0000 {
      RuleIsCheck(h, records, k);
      assert records[..k + 1][..k] == records[..k];
    }
  }

  /** A chain verifies if and only if it has at most a million records and each meets its rule. */
  lemma VerifiedExactly(h: Hasher, records: seq<EpochRecord>)
    ensures ChainVerdict(h, records) == Pass
       <==> |records| <= 1_000_000 && forall k :: 0 <= k < |records| ==> RecordRule(h, records, k) == Pass
  {
    if |records| <= 1_000_000 {
      CheckedExactly(h, records, |records|);
      assert records[..|records|] == records;
    }
    hide CheckRecords, RecordRule;
  }

  /** Otherwise it is refused for the first record that does not, for the reason its rule gives. */
  lemma RefusedExactly(h: Hasher, records: seq<EpochRecord>, k: nat)
    requires k < |records| <= 1_000_000 && Chained(h, records, k) && RecordRule(h, records, k).Fail?
    ensures ChainVerdict(h, records) == RecordRule(h, records, k)
  {
    hide CheckRecords, RecordRule;
    CheckedExactly(h, records, k);
    FaultPersists(h, records, k + 1);
  }

  /** The record a chain grows by: the next number, the seed's public key, and the link over both. */
  lemma NextExactly(h: Hasher, keyOf: KeyOf, records: seq<EpochRecord>, seed: Seed)
    requires |records| < 0x1_0000_0000_0000_0000
    ensures var longer := records + [NextRecord(h, keyOf, records, seed)];
            && longer[|records|].number == |records| && longer[|records|].publicKey == keyOf(seed)
            && longer[|records|].link == h(LinkForm(longer, |records|))
  {
    var longer := records + [NextRecord(h, keyOf, records, seed)];
    assert HeadOf(records) == if records == [] then seq(32, _ => 0) else longer[|records| - 1].link;
    assert ChainInput(HeadOf(records), |records|, keyOf(seed)) == LinkForm(longer, |records|);
  }

  // ---------------------------------------------------------------- secrets put back in their places

  /** Each secret is for a record of the chain, is that record's, and is the only one for it. */
  predicate Fitting(keyOf: KeyOf, records: seq<EpochRecord>, supplied: seq<(u64, Seed)>) {
    && (forall j :: 0 <= j < |supplied| ==>
          supplied[j].0 < |records| && keyOf(supplied[j].1) == records[supplied[j].0].publicKey)
    && forall i, j :: 0 <= i < j < |supplied| ==> supplied[i].0 != supplied[j].0
  }

  /** None of the places is taken. */
  predicate Free(held: seq<Option<Seed>>, supplied: seq<(u64, Seed)>) {
    forall j :: 0 <= j < |supplied| && supplied[j].0 < |held| ==> held[supplied[j].0].None?
  }

  lemma {:induction false} PlacedExactly(keyOf: KeyOf, records: seq<EpochRecord>, held: seq<Option<Seed>>,
                                         supplied: seq<(u64, Seed)>)
    requires |held| == |records|
    ensures Place(keyOf, records, held, supplied).Ok? <==> Fitting(keyOf, records, supplied) && Free(held, supplied)
    decreases |supplied|
  {
    if supplied != [] {
      var (number, seed) := supplied[0];
      var rest := supplied[1..];
      assert forall j :: 0 <= j < |rest| ==> rest[j] == supplied[j + 1];
      if number < |records| && keyOf(seed) == records[number].publicKey && held[number].None? {
        var after := held[number := Some(seed)];
        PlacedExactly(keyOf, records, after, rest);
        if Fitting(keyOf, records, rest) && Free(after, rest) {
          forall j | 1 <= j < |supplied| ensures supplied[j].0 != number && held[supplied[j].0].None? {
            assert rest[j - 1] == supplied[j];
          }
        }
        if Fitting(keyOf, records, supplied) && Free(held, supplied) {
          assert Fitting(keyOf, records, rest) && Free(after, rest);
        }
      }
    }
  }

  /**
   A chain is restored if and only if it verifies and is not empty and the secrets fit; then each
   record holds the secret that was supplied for it, and no other does.
   */
  lemma RestoredExactly(h: Hasher, keyOf: KeyOf, records: seq<EpochRecord>, supplied: seq<(u64, Seed)>)
    ensures Restored(h, keyOf, records, supplied).Ok?
       <==> ChainVerdict(h, records) == Pass && records != [] && Fitting(keyOf, records, supplied)
    ensures Restored(h, keyOf, records, supplied).Ok? ==>
              var held := Restored(h, keyOf, records, supplied).value;
              && |held| == |records|
              && forall i, seed :: 0 <= i < |records| ==> (held[i] == Some(seed) <==> (i, seed) in supplied)
  {
    hide ChainVerdict, Place;
    PlacedExactly(keyOf, records, NoSecrets(|records|), supplied);
    if Restored(h, keyOf, records, supplied).Ok? {
      var held := Restored(h, keyOf, records, supplied).value;
      PlaceMeaning(keyOf, records, NoSecrets(|records|), supplied);
      forall i, seed | 0 <= i < |records| ensures held[i] == Some(seed) <==> (i, seed) in supplied {
        if (i, seed) in supplied {
          var j :| 0 <= j < |supplied| && supplied[j] == (i, seed);
        }
      }
    }
  }

  // ---------------------------------------------------------------- the published form

  function RecordForm(record: EpochRecord): Bytes {
    [0x83] + Item(0, record.number) + ByteString(record.publicKey) + [0x58, 32] + record.link
  }

  function HistoryForm(records: seq<EpochRecord>): Bytes
    requires |records| < 0x1_0000_0000_0000_0000
  {
    Item(4, |records|) + Joined(RecordForm, records)
  }

  lemma DigestForm(d: Digest)
    ensures ByteString(d) == [0x58, 32] + d && Item(4, 3) == [0x83]
  {
  }

  lemma RecordIsForm(record: EpochRecord, rest: Bytes)
    ensures PutRecord(record, rest) == RecordForm(record) + rest
  {
    hide PutUint, PutBytes, PutArray, Item, ByteString;
    DigestForm(record.link);
    var s2 := PutBytes(record.link, rest);
    var s1 := PutBytes(record.publicKey, s2);
    BytesForm(record.link, rest);
    BytesForm(record.publicKey, s2);
    UintForm(record.number, s1);
    ArrayForm(3, PutUint(record.number, s1));
  }

  lemma HistoryIsForm(records: seq<EpochRecord>)
    requires |records| < 0x1_0000_0000_0000_0000
    ensures EncodedRecords(records) == HistoryForm(records)
  {
    hide PutRecord, RecordForm, PutArray, Item, PutAll, Joined;
    forall record: EpochRecord, rest: Bytes | record in records
      ensures PutRecord(record, rest) == RecordForm(record) + rest
    {
      RecordIsForm(record, rest);
    }
    AllForm(PutRecord, RecordForm, records, []);
    ArrayForm(|records|, PutAll(PutRecord, records, []));
    assert Joined(RecordForm, records) + [] == Joined(RecordForm, records);
  }

  /** Bytes are read as a history if and only if it has at most a million records and they are its one form. */
  lemma DecodedExactly(s: Bytes, records: seq<EpochRecord>)
    ensures DecodedRecords(s) == Ok(records) <==> |records| <= 1_000_000 && s == HistoryForm(records)
  {
    hide DecodedRecords, EncodedRecords, HistoryForm;
    if DecodedRecords(s) == Ok(records) {
      RecordsCanonical(s);
      HistoryIsForm(records);
    }
    if |records| <= 1_000_000 {
      HistoryIsForm(records);
      RecordsRoundTrip(records);
    }
  }
}
