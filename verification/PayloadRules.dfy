/** The payload stream in plain bytes: what is written, and what is accepted (crates/hide-object/src/lib.rs). */
module PayloadRules {
  import opened Aead
  import opened Bytes
  import opened Hashing
  import opened Payloads
  import PayloadTheorems
  import opened Results
  import opened WireForms

  /** A record is its kind, the length of its ciphertext, and that. */
  function RecordForm(last: bool, ciphertext: Bytes): Bytes
    requires |ciphertext| < 0x1_0000_0000
  {
    [if last then 2 else 1] + Word(|ciphertext|) + ciphertext
  }

  function NonceForm(k: u64, last: bool): Nonce {
    [0, 0, 0] + U64(k) + [if last then 1 else 0]
  }

  function AadForm(o: Object, k: u64, last: bool, length: u64): Bytes {
    Ascii("HIDE/0.1 chunk") + o.id + o.headerHash + U64(k) + [if last then 2 else 1] + Word(length)
  }

  function SealedForm(o: Object, k: u64, last: bool, chunk: Blob): Bytes {
    o.cipher.seal(o.key, NonceForm(k, last), AadForm(o, k, last, |chunk|), chunk)
  }

  /** The chunk a ciphertext holds at place `k`, if it opens there. */
  function ChunkAt(o: Object, k: u64, last: bool, ciphertext: Blob): Option<Bytes>
    requires |ciphertext| >= 16
  {
    o.cipher.open(o.key, NonceForm(k, last), AadForm(o, k, last, |ciphertext| - 16), ciphertext)
  }

  lemma NonceIsForm(k: u64, last: bool)
    ensures RecordNonce(k, if last then 2 else 1) == NonceForm(k, last)
  {
    hide U64, BigEndian;
    assert U64(k) == BigEndian(k, 8) by { WordIs(k); }
  }

  lemma AadIsForm(o: Object, k: u64, last: bool, length: u64)
    ensures ChunkAad(o, k, if last then 2 else 1, length) == AadForm(o, k, last, length)
  {
    WordIs(k);
    WordIs(length);
    hide U64, BigEndian, Word;
  }

  lemma RecordIsForm(o: Object, k: u64, last: bool, chunk: Blob)
    requires |SealedForm(o, k, last, chunk)| < 0x1_0000_0000
    ensures Record(o, k, if last then 2 else 1, chunk) == RecordForm(last, SealedForm(o, k, last, chunk))
  {
    NonceIsForm(k, last);
    AadIsForm(o, k, last, |chunk|);
    WordIs(|SealedForm(o, k, last, chunk)|);
    hide U64, Word, BigEndian, NonceForm, AadForm, RecordNonce, ChunkAad;
  }

  /** Records one after another, of which the last says so. */
  function Parcels(ciphertexts: seq<Bytes>): Bytes
    requires Short(ciphertexts)
  {
    if ciphertexts == [] then []
    else RecordForm(|ciphertexts| == 1, ciphertexts[0]) + Parcels(ciphertexts[1..])
  }

  predicate Short(ciphertexts: seq<Bytes>) {
    forall i :: 0 <= i < |ciphertexts| ==> |ciphertexts[i]| <= 65552
  }

  // ---------------------------------------------------------------- what is written

  /** How many records a plaintext takes: one for each 65536 bytes begun, and one for none. */
  function Records(length: nat): (n: nat)
    ensures n > 0
  {
    if length == 0 then 1 else (length + 65535) / 65536
  }

  function Piece(plain: Bytes, k: nat): (piece: Bytes)
    ensures |piece| <= 65536
  {
    if |plain| <= 65536 * k then []
    else if |plain| <= 65536 * (k + 1) then plain[65536 * k..]
    else plain[65536 * k..65536 * (k + 1)]
  }

  function Ciphertexts(o: Object, plain: Bytes): (ciphertexts: seq<Bytes>)
    requires |plain| <= 0x1_0000_0000_0000
    ensures |ciphertexts| == Records(|plain|)
  {
    seq(Records(|plain|), k requires 0 <= k < Records(|plain|) =>
      SealedForm(o, k, k == Records(|plain|) - 1, Piece(plain, k)))
  }

  lemma CiphertextsShort(o: Object, plain: Bytes)
    requires Tagged(o.cipher) && |plain| <= 0x1_0000_0000_0000
    ensures Short(Ciphertexts(o, plain))
  {
    hide Records, NonceForm, AadForm;
    forall i | 0 <= i < Records(|plain|) ensures |Ciphertexts(o, plain)[i]| <= 65552 {
    }
  }

  /** The records are those of the pieces, each sealed at its place. */
  lemma StreamIsForm(o: Object, plain: Bytes)
    requires Tagged(o.cipher) && |plain| <= 0x1_0000_0000_0000
    ensures Short(Ciphertexts(o, plain)) && Stream(o, plain, 0) == Parcels(Ciphertexts(o, plain))
  {
    CiphertextsShort(o, plain);
    StreamFrom(o, plain, 0);
    hide Ciphertexts, Stream, Parcels;
    assert plain[65536 * 0..] == plain;
    assert Ciphertexts(o, plain)[0..] == Ciphertexts(o, plain);
  }

  lemma {:induction false} StreamFrom(o: Object, plain: Bytes, k: nat)
    requires Tagged(o.cipher) && |plain| <= 0x1_0000_0000_0000
    requires k < Records(|plain|) && 65536 * k <= |plain| && Short(Ciphertexts(o, plain)[k..])
    ensures Stream(o, plain[65536 * k..], k) == Parcels(Ciphertexts(o, plain)[k..])
    decreases |plain| - 65536 * k
  {
    hide SealedForm, Record, RecordForm, Tagged;
    var rest, sealed := plain[65536 * k..], Ciphertexts(o, plain)[k..];
    var last := k == Records(|plain|) - 1;
    assert last <==> |rest| <= 65536;
    assert |sealed| == 1 <==> last;
    assert sealed[0] == SealedForm(o, k, last, Piece(plain, k));
    StreamStep(o, rest, k);
    assert Piece(plain, k) == if last then rest else rest[..65536];
    RecordIsForm(o, k, last, Piece(plain, k));
    assert sealed[1..] == Ciphertexts(o, plain)[k + 1..];
    if !last {
      assert rest[65536..] == plain[65536 * (k + 1)..];
      StreamFrom(o, plain, k + 1);
    } else {
      assert rest[..|rest|] == rest;
      assert Parcels([]) == [];
    }
  }

  // ---------------------------------------------------------------- what is accepted

  /**
   The ciphertexts open to the chunks, each at its place from `base` on: all but the last hold 65536
   bytes, and the last holds at least one unless it is the only record.
   */
  predicate OpenTo(o: Object, base: nat, ciphertexts: seq<Bytes>, chunks: seq<Bytes>) {
    && 0 < |ciphertexts| == |chunks| && base + |ciphertexts| <= 0x1_0000_0000
    && forall i :: 0 <= i < |ciphertexts| ==> OpensTo(o, base + i, i == |ciphertexts| - 1, ciphertexts[i], chunks[i])
  }

  predicate OpensTo(o: Object, k: u64, last: bool, ciphertext: Bytes, chunk: Bytes) {
    && 16 <= |ciphertext| <= 65552
    && (if last then |ciphertext| > 16 || k == 0 else |ciphertext| == 65552)
    && ChunkAt(o, k, last, ciphertext) == Some(chunk)
  }

  lemma OpensInModel(o: Object, k: u64, last: bool, ciphertext: Blob)
    requires |ciphertext| >= 16
    ensures ChunkAt(o, k, last, ciphertext) == OpenChunk(o, k, if last then 2 else 1, ciphertext)
  {
    NonceIsForm(k, last);
    AadIsForm(o, k, last, |ciphertext| - 16);
    hide NonceForm, AadForm, RecordNonce, ChunkAad;
  }

  lemma HeadForm(last: bool, ciphertext: Bytes, after: Bytes)
    requires |ciphertext| <= 65552
    ensures var s := RecordForm(last, ciphertext) + after;
            && |s| >= 5 + |ciphertext| && s[0] == (if last then 2 else 1) && FromBigEndian(s[1..5]) == |ciphertext|
            && s[5..][..|ciphertext|] == ciphertext && s[5..][|ciphertext|..] == after
  {
    WordIs(|ciphertext|);
    PayloadTheorems.HeadReads(if last then 2 else 1, ciphertext, after);
    hide FromBigEndian, BigEndian, Word;
  }

  /** A record that opens is read as its chunk. */
  lemma RecordReads(o: Object, k: u64, last: bool, ciphertext: Bytes, chunk: Bytes, after: Bytes)
    requires OpensTo(o, k, last, ciphertext, chunk)
    ensures NextRecord(o, RecordForm(last, ciphertext) + after, k) == Ok((if last then 2 else 1, chunk, after))
  {
    HeadForm(last, ciphertext, after);
    OpensInModel(o, k, last, ciphertext);
    hide RecordForm, FromBigEndian, OpenChunk, ChunkAt;
  }

  /** And nothing else is read. */
  lemma ReadIsRecord(o: Object, s: Bytes, k: u64) returns (last: bool, ciphertext: Bytes)
    requires NextRecord(o, s, k).Ok?
    ensures var (kind, chunk, rest) := NextRecord(o, s, k).value;
            && last == (kind == FINAL) && OpensTo(o, k, last, ciphertext, chunk)
            && s == RecordForm(last, ciphertext) + rest
  {
    hide OpenChunk, ChunkAt, BigEndian, FromBigEndian, U64;
    var sealed := FromBigEndian(s[1..5]);
    last := s[0] == 2;
    ciphertext := s[5..][..sealed];
    OpensInModel(o, k, last, ciphertext);
    ToFromBigEndian(s[1..5]);
    WordIs(sealed);
    assert s == [s[0]] + s[1..5] + ciphertext + s[5..][sealed..];
  }

  lemma {:induction false} AcceptedIsOpened(o: Object, s: Bytes, base: nat)
    returns (ciphertexts: seq<Bytes>, chunks: seq<Bytes>)
    requires base <= MAX_CHUNKS && Unstream(o, s, base).verdict == Pass
    ensures OpenTo(o, base, ciphertexts, chunks) && Short(ciphertexts) && s == Parcels(ciphertexts)
    ensures Unstream(o, s, base).plain == Flat(chunks)
    decreases |s|
  {
    hide Unstream, NextRecord, RecordForm, OpensTo, Parcels, Flat;
    if base == MAX_CHUNKS {
      NoMoreRecords(o, s);
    } else {
      UnstreamStep(o, s, base);
      var last, ciphertext := ReadIsRecord(o, s, base);
      var (kind, chunk, rest) := NextRecord(o, s, base).value;
      CiphertextFits(o, base, last, ciphertext, chunk);
      if last {
        ciphertexts, chunks := [ciphertext], [chunk];
        OneParcel(ciphertext, chunk);
        assert s == RecordForm(last, ciphertext);
      } else {
        var others, more := AcceptedIsOpened(o, rest, base + 1);
        ciphertexts, chunks := [ciphertext] + others, [chunk] + more;
        MoreParcels(ciphertext, others, chunk, more);
        OpenToOn(o, base, ciphertexts, chunks);
      }
    }
  }

  lemma CiphertextFits(o: Object, k: u64, last: bool, ciphertext: Bytes, chunk: Bytes)
    requires OpensTo(o, k, last, ciphertext, chunk)
    ensures |ciphertext| <= 65552
  {
  }

  lemma OneParcel(ciphertext: Bytes, chunk: Bytes)
    requires |ciphertext| <= 65552
    ensures Parcels([ciphertext]) == RecordForm(true, ciphertext) && Flat([chunk]) == chunk
  {
    hide RecordForm;
    assert [ciphertext][1..] == [] && [chunk][1..] == [];
    assert Parcels([]) == [] && Flat([]) == [];
  }

  lemma MoreParcels(ciphertext: Bytes, others: seq<Bytes>, chunk: Bytes, more: seq<Bytes>)
    requires |ciphertext| <= 65552 && others != [] && Short(others)
    ensures Short([ciphertext] + others)
    ensures Parcels([ciphertext] + others) == RecordForm(false, ciphertext) + Parcels(others)
    ensures Flat([chunk] + more) == chunk + Flat(more)
  {
    hide RecordForm;
    assert ([ciphertext] + others)[1..] == others && ([chunk] + more)[1..] == more;
  }

  lemma OpenToOn(o: Object, base: nat, ciphertexts: seq<Bytes>, chunks: seq<Bytes>)
    requires |ciphertexts| > 1 && |ciphertexts| == |chunks|
    requires base + |ciphertexts| <= 0x1_0000_0000
    ensures OpenTo(o, base, ciphertexts, chunks)
       <==> OpensTo(o, base, false, ciphertexts[0], chunks[0]) && OpenTo(o, base + 1, ciphertexts[1..], chunks[1..])
  {
    hide OpensTo;
    if OpensTo(o, base, false, ciphertexts[0], chunks[0]) && OpenTo(o, base + 1, ciphertexts[1..], chunks[1..]) {
      forall i | 0 <= i < |ciphertexts|
        ensures OpensTo(o, base + i, i == |ciphertexts| - 1, ciphertexts[i], chunks[i])
      {
        if i > 0 {
          assert ciphertexts[1..][i - 1] == ciphertexts[i] && chunks[1..][i - 1] == chunks[i];
        }
      }
    }
    if OpenTo(o, base, ciphertexts, chunks) {
      forall i | 0 <= i < |ciphertexts| - 1
        ensures OpensTo(o, base + 1 + i, i == |ciphertexts| - 2, ciphertexts[1..][i], chunks[1..][i])
      {
        assert OpensTo(o, base + (i + 1), i + 1 == |ciphertexts| - 1, ciphertexts[i + 1], chunks[i + 1]);
      }
    }
  }

  lemma {:induction false} OpenedIsAccepted(o: Object, base: nat, ciphertexts: seq<Bytes>, chunks: seq<Bytes>)
    requires OpenTo(o, base, ciphertexts, chunks) && Short(ciphertexts)
    ensures Unstream(o, Parcels(ciphertexts), base) == Staged(Pass, Flat(chunks))
    decreases |ciphertexts|
  {
    hide Unstream, NextRecord, RecordForm, OpensTo, Parcels, Flat;
    var s := Parcels(ciphertexts);
    UnstreamStep(o, s, base);
    if |ciphertexts| == 1 {
      assert ciphertexts == [ciphertexts[0]] && chunks == [chunks[0]];
      OneParcel(ciphertexts[0], chunks[0]);
      RecordReads(o, base, true, ciphertexts[0], chunks[0], []);
      assert s == RecordForm(true, ciphertexts[0]) + [];
    } else {
      OpenToOn(o, base, ciphertexts, chunks);
      assert ciphertexts == [ciphertexts[0]] + ciphertexts[1..] && chunks == [chunks[0]] + chunks[1..];
      MoreParcels(ciphertexts[0], ciphertexts[1..], chunks[0], chunks[1..]);
      RecordReads(o, base, false, ciphertexts[0], chunks[0], Parcels(ciphertexts[1..]));
      OpenedIsAccepted(o, base + 1, ciphertexts[1..], chunks[1..]);
    }
  }

  /**
   A stream is accepted as a plaintext if and only if it is a run of at most 2^32 records that open, each
   under the nonce and associated data of its place, to the chunks the plaintext consists of.
   */
  lemma AcceptedExactly(o: Object, s: Bytes, plain: Bytes)
    ensures Unstream(o, s, 0) == Staged(Pass, plain)
       <==> exists ciphertexts, chunks ::
              OpenTo(o, 0, ciphertexts, chunks) && Short(ciphertexts) && s == Parcels(ciphertexts)
              && plain == Flat(chunks)
  {
    hide Unstream, OpenTo, Parcels, Flat, Short;
    if Unstream(o, s, 0) == Staged(Pass, plain) {
      var ciphertexts, chunks := AcceptedIsOpened(o, s, 0);
    }
    if ciphertexts, chunks :| OpenTo(o, 0, ciphertexts, chunks) && Short(ciphertexts) && s == Parcels(ciphertexts)
                              && plain == Flat(chunks) {
      OpenedIsAccepted(o, 0, ciphertexts, chunks);
    }
  }
}
