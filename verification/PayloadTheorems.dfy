/** What the payload stream guarantees (crates/hide-object/src/lib.rs). */
module PayloadTheorems {
  import opened Aead
  import opened Bytes
  import opened Hashing
  import opened Payloads
  import opened Results
  import opened Streams

  const MAX_PLAINTEXT := MAX_CHUNKS * CHUNK_LEN

  /** Whether a plaintext has a record numbered `k`. */
  predicate HasRecord(plain: Bytes, k: nat) {
    k * CHUNK_LEN < |plain| || k == 0
  }

  function RestAt(plain: Bytes, k: nat): (rest: Bytes)
    requires HasRecord(plain, k)
    ensures |rest| == |plain| - k * CHUNK_LEN
  {
    plain[k * CHUNK_LEN..]
  }

  function KindOf(rest: Bytes): byte {
    if |rest| <= CHUNK_LEN then FINAL else DATA
  }

  function ChunkOf(rest: Bytes): Bytes {
    rest[..Min(CHUNK_LEN, |rest|)]
  }

  // ---------------------------------------------------------------- the round trip

  /** The records of this plaintext open to their chunks. */
  ghost predicate Faithful(o: Object, plain: Bytes) {
    && Tagged(o.cipher)
    && forall k: nat | HasRecord(plain, k) :: RecordOpens(o, k, RestAt(plain, k))
  }

  predicate RecordOpens(o: Object, counter: nat, rest: Bytes) {
    ChunkOpens(o, counter, KindOf(rest), ChunkOf(rest))
  }

  predicate ChunkOpens(o: Object, counter: nat, kind: byte, chunk: Bytes) {
    var sealed := SealChunk(o, counter, kind, chunk);
    |sealed| == |chunk| + TAG_LEN && OpenChunk(o, counter, kind, sealed) == Some(chunk)
  }

  /** What the head of a record says, whatever follows it. */
  lemma HeadReads(kind: byte, sealed: Bytes, after: Bytes)
    requires |sealed| <= RECORD_LEN
    ensures var s := RecordHead(kind, |sealed|) + sealed + after;
            && |s| >= 5 + |sealed| && s[0] == kind && FromBigEndian(s[1..5]) == |sealed|
            && s[5..][..|sealed|] == sealed && s[5..][|sealed|..] == after
  {
    var s := RecordHead(kind, |sealed|) + sealed + after;
    WordBounds();
    FromToBigEndian(|sealed|, 4);
    hide BigEndian, FromBigEndian;
    assert s[1..5] == BigEndian(|sealed|, 4);
    assert s[5..] == sealed + after;
  }

  lemma ChunkRoundTrip(o: Object, counter: nat, kind: byte, chunk: Bytes, after: Bytes)
    requires ChunkOpens(o, counter, kind, chunk)
    requires if kind == DATA then |chunk| == CHUNK_LEN
             else kind == FINAL && |chunk| <= CHUNK_LEN && (counter > 0 ==> chunk != [])
    ensures NextRecord(o, Record(o, counter, kind, chunk) + after, counter) == Ok((kind, chunk, after))
  {
    hide SealChunk, RecordHead, FromBigEndian;
    HeadReads(kind, SealChunk(o, counter, kind, chunk), after);
  }

  /** A record is read back as it was written, and what follows it is left alone. */
  lemma RecordRoundTrip(o: Object, counter: nat, rest: Bytes, after: Bytes)
    requires RecordOpens(o, counter, rest) && (counter > 0 ==> rest != [])
    ensures NextRecord(o, Record(o, counter, KindOf(rest), ChunkOf(rest)) + after, counter)
            == Ok((KindOf(rest), ChunkOf(rest), after))
  {
    hide ChunkOpens, NextRecord, Record;
    ChunkRoundTrip(o, counter, KindOf(rest), ChunkOf(rest), after);
  }

  /** Reading undoes writing exactly up to the chunk limit; beyond it the object is refused. */
  lemma {:induction false} StreamRoundTripFrom(o: Object, plain: Bytes, counter: nat)
    requires Faithful(o, plain) && counter <= MAX_CHUNKS && HasRecord(plain, counter)
    ensures var rest, room := RestAt(plain, counter), (MAX_CHUNKS - counter) * CHUNK_LEN;
            Unstream(o, Stream(o, rest, counter), counter)
            == if |rest| <= room then Staged(Pass, rest) else Staged(Fail(ObjectTooLarge), rest[..room])
    decreases |plain| - counter
  {
    hide Unstream, Stream, NextRecord, Record, RecordOpens;
    var rest := RestAt(plain, counter);
    if counter == MAX_CHUNKS {
      NoMoreRecords(o, Stream(o, rest, counter));
    } else {
      StreamStep(o, rest, counter);
      UnstreamStep(o, Stream(o, rest, counter), counter);
      assert RecordOpens(o, counter, rest);
      if |rest| <= CHUNK_LEN {
        assert rest[..|rest|] == rest;
        RecordRoundTrip(o, counter, rest, []);
      } else {
        var more := RestAt(plain, counter + 1);
        assert more == rest[CHUNK_LEN..];
        RecordRoundTrip(o, counter, rest, Stream(o, more, counter + 1));
        StreamRoundTripFrom(o, plain, counter + 1);
        var room := (MAX_CHUNKS - counter - 1) * CHUNK_LEN;
        assert rest == rest[..CHUNK_LEN] + more;
        assert |more| > room ==> rest[..CHUNK_LEN] + more[..room] == rest[..room + CHUNK_LEN];
      }
    }
  }

  /** Every plaintext within the limit comes back, and no longer one is ever accepted. */
  lemma StreamRoundTrip(o: Object, plain: Bytes)
    requires Faithful(o, plain)
    ensures Unstream(o, Stream(o, plain, 0), 0)
            == if |plain| <= MAX_PLAINTEXT then Staged(Pass, plain)
               else Staged(Fail(ObjectTooLarge), plain[..MAX_PLAINTEXT])
  {
    hide Unstream, Stream, Faithful;
    StreamRoundTripFrom(o, plain, 0);
    assert RestAt(plain, 0) == plain;
  }

  /** A cipher that undoes its own sealing is faithful to every plaintext. */
  lemma CorrectIsFaithful(o: Object, plain: Bytes)
    requires Correct(o.cipher)
    ensures Faithful(o, plain)
  {
    hide RecordNonce, ChunkAad, KindOf, ChunkOf;
  }

  // ---------------------------------------------------------------- exactness

  function SealedRecord(o: Object, counter: nat, rest: Bytes): (Nonce, Bytes, Bytes) {
    var kind, chunk := KindOf(rest), ChunkOf(rest);
    (RecordNonce(counter, kind), ChunkAad(o, counter, kind, |chunk|), chunk)
  }

  /** Everything a writer of one plaintext seals under the payload key. */
  ghost function SealedBy(o: Object, plain: Bytes): iset<(Nonce, Bytes, Bytes)> {
    iset k: nat | HasRecord(plain, k) :: SealedRecord(o, k, RestAt(plain, k))
  }

  lemma IdealIsFaithful(o: Object, plain: Bytes)
    requires Ideal(o.cipher, o.key, SealedBy(o, plain))
    ensures Faithful(o, plain)
  {
    hide RecordNonce, ChunkAad, KindOf, ChunkOf;
    forall k: nat | HasRecord(plain, k) ensures RecordOpens(o, k, RestAt(plain, k)) {
      assert SealedRecord(o, k, RestAt(plain, k)) in SealedBy(o, plain);
    }
  }

  /** Two records of an object never share a nonce. */
  lemma NoncesDiffer(counter: nat, kind: byte, counter': nat, kind': byte)
    requires counter < MAX_CHUNKS && counter' < MAX_CHUNKS
    requires RecordNonce(counter, kind) == RecordNonce(counter', kind')
    ensures counter == counter' && (kind == FINAL <==> kind' == FINAL)
  {
    var n, n' := RecordNonce(counter, kind), RecordNonce(counter', kind');
    assert n[3..11] == BigEndian(counter, 8) && n'[3..11] == BigEndian(counter', 8);
    assert n[11] == n'[11];
    WordBounds();
    FromToBigEndian(counter, 8);
    FromToBigEndian(counter', 8);
  }

  /** A record that opens is, byte for byte, the one the writer put at that place. */
  lemma OpenedIsSealed(o: Object, plain: Bytes, s: Bytes, counter: nat)
    requires Ideal(o.cipher, o.key, SealedBy(o, plain))
    requires |plain| <= MAX_PLAINTEXT && counter < MAX_CHUNKS && NextRecord(o, s, counter).Ok?
    ensures HasRecord(plain, counter)
    ensures var rest := RestAt(plain, counter);
            var (kind, chunk, after) := NextRecord(o, s, counter).value;
            && kind == KindOf(rest) && chunk == ChunkOf(rest)
            && s == Record(o, counter, kind, chunk) + after
  {
    hide RecordNonce, ChunkAad, SealedBy, FromBigEndian, RecordHead;
    var (kind, chunk, after) := NextRecord(o, s, counter).value;
    var sealed := s[5..][..FromBigEndian(s[1..5])];
    assert OpenChunk(o, counter, kind, sealed) == Some(chunk);
    HeadOf(s, |sealed|);
    assert s == RecordHead(kind, |sealed|) + (sealed + after);
    PlaceOfRecord(o, plain, counter, kind, |sealed| - TAG_LEN, chunk);
  }

  /** What was sealed under a record's nonce is the chunk of that number. */
  lemma PlaceOfRecord(o: Object, plain: Bytes, counter: nat, kind: byte, length: nat, chunk: Bytes)
    requires |plain| <= MAX_PLAINTEXT && counter < MAX_CHUNKS && (kind == DATA || kind == FINAL)
    requires (RecordNonce(counter, kind), ChunkAad(o, counter, kind, length), chunk) in SealedBy(o, plain)
    ensures HasRecord(plain, counter)
    ensures kind == KindOf(RestAt(plain, counter)) && chunk == ChunkOf(RestAt(plain, counter))
  {
    hide RecordNonce, ChunkAad, ChunkOf;
    var triple := (RecordNonce(counter, kind), ChunkAad(o, counter, kind, length), chunk);
    var k: nat :| HasRecord(plain, k) && triple == SealedRecord(o, k, RestAt(plain, k));
    NoncesDiffer(counter, kind, k, KindOf(RestAt(plain, k)));
  }

  lemma HeadOf(s: Bytes, n: nat)
    requires |s| >= 5 && n == FromBigEndian(s[1..5])
    ensures s[..5] == RecordHead(s[0], n)
  {
    ToFromBigEndian(s[1..5]);
  }

  lemma {:induction false} ExactFrom(o: Object, plain: Bytes, s: Bytes, counter: nat)
    requires Ideal(o.cipher, o.key, SealedBy(o, plain))
    requires |plain| <= MAX_PLAINTEXT && HasRecord(plain, counter)
    ensures var rest, staged := RestAt(plain, counter), Unstream(o, s, counter);
            && (staged.verdict == Pass ==> s == Stream(o, rest, counter) && staged.plain == rest)
            && (staged.verdict != Pass ==> staged.plain <= rest && |staged.plain| % CHUNK_LEN == 0)
    decreases |s|
  {
    hide Unstream, Stream, NextRecord, Record, Ideal, SealedBy;
    var rest := RestAt(plain, counter);
    if counter >= MAX_CHUNKS {
      TooManyRecords(o, s, counter);
    } else {
      UnstreamStep(o, s, counter);
      if NextRecord(o, s, counter).Ok? {
        OpenedIsSealed(o, plain, s, counter);
        var (kind, chunk, after) := NextRecord(o, s, counter).value;
        StreamStep(o, rest, counter);
        if kind != FINAL {
          ExactFrom(o, plain, after, counter + 1);
          assert rest == chunk + RestAt(plain, counter + 1);
          assert RestAt(plain, counter + 1) == rest[CHUNK_LEN..];
        }
      }
    }
  }

  lemma TooManyRecords(o: Object, s: Bytes, counter: nat)
    requires counter >= MAX_CHUNKS
    ensures Unstream(o, s, counter) == Staged(Fail(ObjectTooLarge), [])
  {
  }

  /**
   Under an ideal cipher whose key sealed one plaintext, a stream is accepted only if it is byte
   for byte the one written, and a refused one has staged nothing but whole leading chunks.
   */
  lemma StreamExact(o: Object, plain: Bytes, s: Bytes)
    requires Ideal(o.cipher, o.key, SealedBy(o, plain)) && |plain| <= MAX_PLAINTEXT
    ensures Unstream(o, s, 0).verdict == Pass <==> s == Stream(o, plain, 0)
    ensures Unstream(o, s, 0).verdict == Pass ==> Unstream(o, s, 0).plain == plain
    ensures Unstream(o, s, 0).verdict != Pass ==>
              Unstream(o, s, 0).plain <= plain && |Unstream(o, s, 0).plain| % CHUNK_LEN == 0
  {
    hide Unstream, Stream, Ideal, SealedBy, Faithful;
    ExactFrom(o, plain, s, 0);
    IdealIsFaithful(o, plain);
    StreamRoundTrip(o, plain);
    assert RestAt(plain, 0) == plain;
  }
}
